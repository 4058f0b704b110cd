/** The object store the MinIO helpers talk to, and the rule both the MinIO
    and the boto3 helpers use to build a client for it. */
module ObjectStore {
  import opened Wrappers
  import opened Seqs

  /** Object and file contents. */
  type Bytes = seq<bv8>

  /** Buckets by name, each holding objects by key. */
  type Store = map<string, map<string, Bytes>>

  /** The region every client of the project is built with. */
  const Region := "us-west-1"

  /** `url.startswith('https')`: whether a client for `url` talks TLS. */
  predicate IsSecureUrl(url: string) {
    StartsWith(url, "https")
  }

  /** The settings a MinIO or boto3 client is built with. */
  datatype ClientConfig = ClientConfig(
    endpoint: string, accessKey: string, secretKey: string, secure: bool, region: string)

  /** The client built for `url` and a key pair: TLS exactly when the URL
      starts with `https`, region fixed. */
  function ConfigFor(url: string, accessKey: string, secretKey: string): (c: ClientConfig)
    ensures c.endpoint == url && c.accessKey == accessKey && c.secretKey == secretKey
    ensures c.secure <==> |url| >= 5 && url[..5] == "https"
    ensures c.region == Region
  {
    ClientConfig(url, accessKey, secretKey, IsSecureUrl(url), Region)
  }

  /** The store after making sure `bucket` exists: an absent bucket is added
      empty, a present one is left as it is. */
  function EnsureBucket(store: Store, bucket: string): (r: Store)
    ensures bucket in r
    ensures bucket in store ==> r == store
    ensures forall b :: b != bucket ==> (b in r <==> b in store)
    ensures forall b :: b in store ==> b in r && r[b] == store[b]
    ensures bucket !in store ==> r[bucket] == map[]
  {
    if bucket in store then store else store[bucket := map[]]
  }

  /** Making sure twice is making sure once. */
  lemma EnsureBucketIdempotent(store: Store, bucket: string)
    ensures EnsureBucket(EnsureBucket(store, bucket), bucket) == EnsureBucket(store, bucket)
  {
  }

  /** The store after writing `data` under `key` in an existing bucket. */
  function PutObject(store: Store, bucket: string, key: string, data: Bytes): (r: Store)
    requires bucket in store
    ensures r.Keys == store.Keys
    ensures key in r[bucket] && r[bucket][key] == data
    ensures r[bucket].Keys == store[bucket].Keys + {key}
    ensures forall k :: k in store[bucket] && k != key ==> r[bucket][k] == store[bucket][k]
    ensures forall b :: b in store && b != bucket ==> r[b] == store[b]
  {
    store[bucket := store[bucket][key := data]]
  }

  /** Of two writes to the same key, the later one wins. */
  lemma PutObjectLastWins(store: Store, bucket: string, key: string, first: Bytes, second: Bytes)
    requires bucket in store
    ensures PutObject(PutObject(store, bucket, key, first), bucket, key, second)
            == PutObject(store, bucket, key, second)
  {
    var once := PutObject(store, bucket, key, second);
    var twice := PutObject(PutObject(store, bucket, key, first), bucket, key, second);
    assert twice[bucket] == once[bucket];
  }

  /** Why an operation on a MinIO server was refused. */
  datatype ServerError = BucketAlreadyOwnedByYou(bucket: string) | NoSuchBucket(bucket: string)

  /** A MinIO server: the buckets it holds change as clients call it. */
  class Server {
    var buckets: Store

    constructor (initial: Store)
      ensures buckets == initial
    {
      buckets := initial;
    }

    /** `bucket_exists`. */
    predicate BucketExists(bucket: string)
      reads this
    {
      bucket in buckets
    }

    /** `make_bucket`: adds an empty bucket, and refuses one that exists. */
    method MakeBucket(bucket: string) returns (r: Outcome<ServerError>)
      modifies this
      ensures r.Pass? <==> bucket !in old(buckets)
      ensures r.Fail? ==> r.error == BucketAlreadyOwnedByYou(bucket) && buckets == old(buckets)
      ensures r.Pass? ==> buckets == old(buckets)[bucket := map[]]
    {
      if bucket in buckets {
        return Fail(BucketAlreadyOwnedByYou(bucket));
      }
      buckets := buckets[bucket := map[]];
      return Pass;
    }

    /** `put_object`: stores `data` under `key`, replacing any object there. */
    method PutObjectIn(bucket: string, key: string, data: Bytes) returns (r: Outcome<ServerError>)
      modifies this
      ensures r.Pass? <==> bucket in old(buckets)
      ensures r.Fail? ==> r.error == NoSuchBucket(bucket) && buckets == old(buckets)
      ensures r.Pass? ==> buckets == PutObject(old(buckets), bucket, key, data)
    {
      if bucket !in buckets {
        return Fail(NoSuchBucket(bucket));
      }
      buckets := PutObject(buckets, bucket, key, data);
      return Pass;
    }
  }
}
