/** The MinIO helpers of the map-reduce pipeline: credentials read from the
    vault, and bucket creation, upload and pattern listing over a MinIO
    server. */
module MinioUtilities {
  import opened Wrappers
  import opened Seqs
  import opened ObjectStore

  // ---------------------------------------------------------------------
  // Credentials
  // ---------------------------------------------------------------------

  /** `re.sub(r'^https?://', "", url)`: removes one leading `https://` or
      `http://`, and nothing else. */
  function StripScheme(url: string): (r: string)
    ensures EndsWith(url, r)
    ensures url[..|url| - |r|] in {"", "http://", "https://"}
    ensures r != url <==> StartsWith(url, "http://") || StartsWith(url, "https://")
  {
    if StartsWith(url, "https://") then url[8..]
    else if StartsWith(url, "http://") then url[7..]
    else url
  }

  /** Only one scheme is removed: a URL that repeats its scheme keeps the
      second copy. */
  lemma StripSchemeRemovesOnlyOne(host: string)
    ensures StripScheme("https://http://" + host) == "http://" + host
  {
    var url := "https://http://" + host;
    assert StartsWith(url, "https://") by {
      assert url[..8] == "https://";
    }
    assert url[8..] == "http://" + host;
  }

  /** Removing the scheme from a secure URL leaves an address that the same
      rule no longer calls secure, unless the host itself starts with
      `https`. */
  lemma StrippedUrlLosesSecure(host: string)
    requires !StartsWith(host, "https")
    ensures IsSecureUrl("https://" + host)
    ensures !IsSecureUrl(StripScheme("https://" + host))
  {
    var url := "https://" + host;
    assert url[..5] == "https";
    assert url[..8] == "https://";
    assert url[8..] == host;
  }

  /** The credentials `get_minio_credentials` returns. */
  datatype Credentials = Credentials(url: string, accessKey: string, secretKey: string, secure: bool)

  /** Why no credentials were returned: the document at `path` could not be
      opened and parsed, or it lacks `key`. */
  datatype CredentialsError = VaultUnreadable(path: string) | MissingKey(key: string)

  /** A parsed JSON credentials document. */
  type Document = map<string, string>

  /** The vault as the notebook server mounts it: parsed documents by path. */
  type Vault = map<string, Document>

  const UrlKey := "MINIO_URL"
  const AccessKeyKey := "MINIO_ACCESS_KEY"
  const SecretKeyKey := "MINIO_SECRET_KEY"

  /** Where the credentials of `instance` live. */
  function VaultPath(instance: string): string {
    "/vault/secrets/" + instance + ".json"
  }

  /** `get_minio_credentials`: reads the three keys in order, records whether
      the original URL is secure, then removes one scheme from the URL when
      `stripHttp` is set. */
  method GetMinioCredentials(vault: Vault, instance: string, stripHttp: bool)
    returns (r: Result<Credentials, CredentialsError>)
    ensures VaultPath(instance) !in vault ==> r == Failure(VaultUnreadable(VaultPath(instance)))
    ensures VaultPath(instance) in vault ==>
              var doc := vault[VaultPath(instance)];
              && (UrlKey !in doc ==> r == Failure(MissingKey(UrlKey)))
              && (UrlKey in doc && AccessKeyKey !in doc ==> r == Failure(MissingKey(AccessKeyKey)))
              && ((UrlKey in doc && AccessKeyKey in doc && SecretKeyKey !in doc)
                    ==> r == Failure(MissingKey(SecretKeyKey)))
              && (r.Success? <==> UrlKey in doc && AccessKeyKey in doc && SecretKeyKey in doc)
    ensures r.Success? ==>
              var doc := vault[VaultPath(instance)];
              && r.value.accessKey == doc[AccessKeyKey]
              && r.value.secretKey == doc[SecretKeyKey]
              && (r.value.secure <==> IsSecureUrl(doc[UrlKey]))
              && r.value.url == (if stripHttp then StripScheme(doc[UrlKey]) else doc[UrlKey])
  {
    var path := "/vault/secrets/" + instance + ".json";
    if path !in vault {
      return Failure(VaultUnreadable(path));
    }
    var creds := vault[path];
    if UrlKey !in creds {
      return Failure(MissingKey(UrlKey));
    }
    if AccessKeyKey !in creds {
      return Failure(MissingKey(AccessKeyKey));
    }
    if SecretKeyKey !in creds {
      return Failure(MissingKey(SecretKeyKey));
    }
    var minioCredentials := Credentials(
      creds[UrlKey], creds[AccessKeyKey], creds[SecretKeyKey], IsSecureUrl(creds[UrlKey]));
    if stripHttp {
      minioCredentials := minioCredentials.(url := StripScheme(minioCredentials.url));
    }
    return Success(minioCredentials);
  }

  // ---------------------------------------------------------------------
  // Buckets and uploads
  // ---------------------------------------------------------------------

  /** `create_bucket_if_missing`: afterwards the bucket exists; it is made
      only when it was absent (`created` stands for the message printed
      then), and no other bucket changes. */
  method CreateBucketIfMissing(server: Server, bucket: string) returns (created: bool)
    modifies server
    ensures created <==> bucket !in old(server.buckets)
    ensures server.buckets == EnsureBucket(old(server.buckets), bucket)
  {
    created := false;
    var present := server.BucketExists(bucket);
    if !present {
      var made := server.MakeBucket(bucket);
      created := true;
    }
  }

  /** A second call finds the bucket and changes nothing. */
  method CreateBucketTwice(server: Server, bucket: string) returns (first: bool, second: bool)
    modifies server
    ensures !second
    ensures server.buckets == EnsureBucket(old(server.buckets), bucket)
  {
    first := CreateBucketIfMissing(server, bucket);
    second := CreateBucketIfMissing(server, bucket);
  }

  /** Why an upload failed. */
  datatype CopyError = SourceMissing(sourcefile: string)

  /** The store after `copy_to_minio`: the bucket is made sure of first, then
      the source file's content is written under `destination` when the file
      can be read. */
  function CopyToStore(store: Store, local: map<string, Bytes>, bucket: string,
                       sourcefile: string, destination: string): (r: Store)
    ensures r.Keys == store.Keys + {bucket}
    ensures sourcefile in local ==> destination in r[bucket] && r[bucket][destination] == local[sourcefile]
    ensures sourcefile !in local ==> r == EnsureBucket(store, bucket)
  {
    var ensured := EnsureBucket(store, bucket);
    if sourcefile in local then PutObject(ensured, bucket, destination, local[sourcefile])
    else ensured
  }

  /** After a copy the destination holds the source content, every other
      object of the bucket keeps its content, and every other bucket is
      untouched. */
  lemma CopyToStoreFrame(store: Store, local: map<string, Bytes>, bucket: string,
                         sourcefile: string, destination: string)
    requires sourcefile in local
    ensures var r := CopyToStore(store, local, bucket, sourcefile, destination);
            && bucket in r && destination in r[bucket]
            && r[bucket][destination] == local[sourcefile]
            && (forall k :: k != destination && bucket in store && k in store[bucket]
                  ==> k in r[bucket] && r[bucket][k] == store[bucket][k])
            && (forall k :: k != destination ==> (k in r[bucket] <==> bucket in store && k in store[bucket]))
            && (forall b :: b != bucket ==> (b in r <==> b in store))
            && (forall b :: b != bucket && b in store ==> r[b] == store[b])
  {
  }

  /** Copying the same file to the same place twice is copying it once. */
  lemma CopyToStoreIdempotent(store: Store, local: map<string, Bytes>, bucket: string,
                              sourcefile: string, destination: string)
    ensures var once := CopyToStore(store, local, bucket, sourcefile, destination);
            CopyToStore(once, local, bucket, sourcefile, destination) == once
  {
    var ensured := EnsureBucket(store, bucket);
    var once := CopyToStore(store, local, bucket, sourcefile, destination);
    if sourcefile in local {
      assert EnsureBucket(once, bucket) == once;
      var twice := PutObject(once, bucket, destination, local[sourcefile]);
      assert twice[bucket] == once[bucket];
    }
  }

  /** `copy_to_minio`: builds a client for `minioUrl`, makes sure of the
      bucket, then uploads the local file `sourcefile` as `destination`. A
      missing source file fails after the bucket has been made. */
  method CopyToMinio(server: Server, local: map<string, Bytes>, minioUrl: string, bucket: string,
                     accessKey: string, secretKey: string, sourcefile: string, destination: string)
    returns (client: ClientConfig, r: Outcome<CopyError>)
    modifies server
    ensures client == ConfigFor(minioUrl, accessKey, secretKey)
    ensures r.Pass? <==> sourcefile in local
    ensures r.Fail? ==> r.error == SourceMissing(sourcefile)
    ensures server.buckets == CopyToStore(old(server.buckets), local, bucket, sourcefile, destination)
  {
    client := ClientConfig(minioUrl, accessKey, secretKey, IsSecureUrl(minioUrl), Region);
    var created := CreateBucketIfMissing(server, bucket);
    if sourcefile !in local {
      return client, Fail(SourceMissing(sourcefile));
    }
    var put := server.PutObjectIn(bucket, destination, local[sourcefile]);
    r := Pass;
  }

  // ---------------------------------------------------------------------
  // Listing by pattern
  // ---------------------------------------------------------------------

  /** One object of a listing. */
  datatype Entry = Entry(name: string, isDir: bool)

  /** A user pattern as `re.compile` sees it: rejected, or a regular
      expression given by `matchesAtStart(s)`, whether `pattern.match(s)`
      finds a match anchored at the start of `s`. */
  datatype Pattern = Invalid | Regex(matchesAtStart: string -> bool)

  /** The names of the entries, in order. */
  function Names(entries: seq<Entry>): (names: seq<string>)
    ensures |names| == |entries|
    ensures forall i :: 0 <= i < |entries| ==> names[i] == entries[i].name
  {
    if entries == [] then [] else [entries[0].name] + Names(entries[1..])
  }

  lemma {:induction false} NamesAppend(xs: seq<Entry>, ys: seq<Entry>)
    ensures Names(xs + ys) == Names(xs) + Names(ys)
  {
    if xs == [] {
      assert xs + ys == ys;
    } else {
      assert (xs + ys)[1..] == xs[1..] + ys;
      NamesAppend(xs[1..], ys);
    }
  }

  /** Why a listing failed. */
  datatype FindError = BadPattern | BucketMissing(bucket: string)

  /** `minio_find_files_matching_pattern`. `listing` is what the server
      holds in `bucket` (`None` when there is no such bucket), in its listing
      order; the listing is always recursive, whatever `recursive` says. */
  function FindFilesMatchingPattern(listing: Option<seq<Entry>>, bucket: string, pattern: Pattern,
                                    prefix: string, recursive: bool): (r: Result<seq<string>, FindError>)
    ensures pattern.Invalid? ==> r == Failure(BadPattern)
    ensures pattern.Regex? && listing.None? ==> r == Failure(BucketMissing(bucket))
    ensures pattern.Regex? && listing.Some? ==>
              r.Success? && |r.value| <= |listing.value|
              && forall f :: f in r.value ==> StartsWith(f, prefix) && pattern.matchesAtStart(f)
  {
    match pattern
    case Invalid => Failure(BadPattern)
    case Regex(matchesAtStart) =>
      match listing
      case None => Failure(BucketMissing(bucket))
      case Some(entries) =>
        var objs := Filter(entries, (e: Entry) => StartsWith(e.name, prefix));
        var files := Filter(objs, (e: Entry) => !e.isDir);
        var filepaths := Names(files);
        assert forall f :: f in filepaths ==> StartsWith(f, prefix) by {
          forall f | f in filepaths ensures StartsWith(f, prefix) {
            var i :| 0 <= i < |files| && filepaths[i] == f;
            assert files[i] in objs;
          }
        }
        Success(Filter(filepaths, matchesAtStart))
  }

  /** A name is returned exactly when some listed object under the prefix
      that is not a directory has it and the pattern matches at its start. */
  lemma FindFilesMembership(entries: seq<Entry>, bucket: string, matchesAtStart: string -> bool,
                            prefix: string, recursive: bool, name: string)
    ensures var r := FindFilesMatchingPattern(Some(entries), bucket, Regex(matchesAtStart), prefix, recursive);
            r.Success? && (name in r.value <==>
              (exists e :: e in entries && e.name == name && !e.isDir && StartsWith(name, prefix))
              && matchesAtStart(name))
  {
    var objs := Filter(entries, (e: Entry) => StartsWith(e.name, prefix));
    var files := Filter(objs, (e: Entry) => !e.isDir);
    var filepaths := Names(files);
    if name in filepaths {
      var i :| 0 <= i < |filepaths| && filepaths[i] == name;
      assert files[i] in files;
    }
    forall e | e in entries && e.name == name && !e.isDir && StartsWith(name, prefix)
      ensures name in filepaths
    {
      assert e in files;
      var i :| 0 <= i < |files| && files[i] == e;
      assert filepaths[i] == name;
    }
  }

  /** The result keeps the listing order: listing two runs one after the
      other returns the first run's names, then the second's. */
  lemma FindFilesKeepsOrder(xs: seq<Entry>, ys: seq<Entry>, bucket: string, matchesAtStart: string -> bool,
                            prefix: string, recursive: bool)
    ensures var r := FindFilesMatchingPattern(Some(xs + ys), bucket, Regex(matchesAtStart), prefix, recursive);
            var rx := FindFilesMatchingPattern(Some(xs), bucket, Regex(matchesAtStart), prefix, recursive);
            var ry := FindFilesMatchingPattern(Some(ys), bucket, Regex(matchesAtStart), prefix, recursive);
            r.Success? && rx.Success? && ry.Success? && r.value == rx.value + ry.value
  {
    var underPrefix := (e: Entry) => StartsWith(e.name, prefix);
    var notDir := (e: Entry) => !e.isDir;
    FilterAppend(xs, ys, underPrefix);
    FilterAppend(Filter(xs, underPrefix), Filter(ys, underPrefix), notDir);
    NamesAppend(Filter(Filter(xs, underPrefix), notDir), Filter(Filter(ys, underPrefix), notDir));
    FilterAppend(Names(Filter(Filter(xs, underPrefix), notDir)),
                 Names(Filter(Filter(ys, underPrefix), notDir)), matchesAtStart);
  }

  /** Asking for a non-recursive listing changes nothing. */
  lemma FindFilesIgnoresRecursive(listing: Option<seq<Entry>>, bucket: string, pattern: Pattern, prefix: string)
    ensures FindFilesMatchingPattern(listing, bucket, pattern, prefix, false)
            == FindFilesMatchingPattern(listing, bucket, pattern, prefix, true)
  {
  }

  /** Over a listing of files under the prefix, only the pattern filters. */
  lemma FindFilesOverFiles(entries: seq<Entry>, bucket: string, matchesAtStart: string -> bool,
                           prefix: string, recursive: bool)
    requires forall i :: 0 <= i < |entries| ==> StartsWith(entries[i].name, prefix) && !entries[i].isDir
    ensures FindFilesMatchingPattern(Some(entries), bucket, Regex(matchesAtStart), prefix, recursive)
            == Success(Filter(Names(entries), matchesAtStart))
  {
    FilterKeepsAll(entries, (e: Entry) => StartsWith(e.name, prefix));
    FilterKeepsAll(entries, (e: Entry) => !e.isDir);
  }

  /** Of `2024-01-a.json`, `2024-02-b.json` and `x2024-01-c.json`, only the
      first starts with `2024-01`. */
  lemma LiteralFilterExample(names: seq<string>, literal: string)
    requires literal == "2024-01"
    requires names == ["2024-01-a.json", "2024-02-b.json", "x2024-01-c.json"]
    ensures Filter(names, (f: string) => StartsWith(f, literal)) == [names[0]]
  {
    var matches := (f: string) => StartsWith(f, literal);
    assert names[0][..7] == literal;
    assert names[1][6] != literal[6];
    assert names[2][0] != literal[0];
    assert matches(names[0]) && !matches(names[1]) && !matches(names[2]);
    assert Filter(names[2..], matches) == [] by {
      assert names[2..][1..] == [];
    }
    assert Filter(names[1..], matches) == [] by {
      assert names[1..][1..] == names[2..];
    }
  }

  /** The pattern `2024-01` has no special characters, so `pattern.match`
      succeeds on exactly the keys that start with it. Over `2024-01-a.json`,
      `2024-02-b.json` and `x2024-01-c.json` it selects the first key only: it
      must match at the start, but need not match the whole key. */
  lemma FindFilesExample(entries: seq<Entry>, literal: string)
    requires literal == "2024-01"
    requires entries == [Entry("2024-01-a.json", false), Entry("2024-02-b.json", false),
                         Entry("x2024-01-c.json", false)]
    ensures FindFilesMatchingPattern(Some(entries), "data", Regex((f: string) => StartsWith(f, literal)), "", true)
            == Success(["2024-01-a.json"])
  {
    FindFilesOverFiles(entries, "data", (f: string) => StartsWith(f, literal), "", true);
    LiteralFilterExample(Names(entries), literal);
  }
}
