# MinIO credential, bucket and staging helpers: a Dafny model

This project models the storage helpers of a collection of data-analysis
notebooks. They cover four things:

- **The map-reduce pipeline's utilities** (`mapreduce-pipeline/utilities.py`):
  - parse shell `export NAME=VALUE` lines with one fixed regular expression;
  - fold a file of such lines into a dictionary;
  - read MinIO credentials from a JSON document in the vault, deriving a
    `secure` flag and optionally removing the URL scheme;
  - create a bucket if it is missing;
  - upload a local file;
  - list the objects of a bucket whose names match a user pattern at the start.
- **The notebook storage module** (`querySQL/daaas_storage_boto3.py`):
  - list the instances found in the vault;
  - build one S3 client per instance, with TLS exactly when the URL starts with
    `https`;
  - bind each client on an `Instances` object under the instance name with `-`
    turned into `_`, keeping one class-level list of names;
  - stage a streamed S3 Select response in a temporary file, decode it, and
    remove the file.

## Modules

- `wrappers.dfy` (`Wrappers`): `Option`, `Result` and `Outcome`.
- `seqs.dfy` (`Seqs`): `startswith`, `endswith` and filtering list
  comprehensions.
- `pystr.dfy` (`PyStr`): Python's whitespace set and `str.strip`.
- `env_vars.dfy` (`EnvVars`): `parse_env_var_def` and
  `get_env_variables_from_file`.
  - The regular expression `\s*(?<=export)\s+([^=]+)=(.*)` is written out by hand.
  - `IsPath` is an independent description of one way the pattern can match.
  - The lemmas show that `Search` reports the path with the leftmost start and
    the longest `\s+` part, which is the path Python's backtracking engine
    reports.
- `env_vars_examples.dfy` (`EnvVarExamples`): worked examples of the parser on
  concrete lines.
- `storage.dfy` (`ObjectStore`): the object store as
  `map<bucket, map<key, bytes>>`, a `Server` class whose buckets change in
  place, and the client-configuration rule both source files share.
- `minio_utilities.dfy` (`MinioUtilities`): credentials, bucket creation,
  upload and pattern listing.
- `daaas_storage.dfy` (`DaaasStorage`): instances, clients, the `Instances`
  class with its shared name list, and `get_from_s3`.

## Behaviour worth knowing

- **`export` need not be a word of its own.** The pattern has only a
  lookbehind, so `# export A=B` defines `A` as `B`
  (`EnvVarExamples.ExampleCommentedLine`).
- **Quotes are not paired.** Every leading and trailing `'` is removed, then
  every `"`, at each end on its own.
- **Staging cleanup is not guaranteed.** A failing stream or a failing decoder
  raises before the removal is attempted, so the staging file stays.
- **A client failure stops `Instances()`.** The class-level list keeps the
  names appended so far, including the name of the failing instance
  (`DaaasStorage.NewInstances`).

## Model

| member | source | states |
|---|---|---|
| `PyStr.Strip` | mapreduce-pipeline/utilities.py:15-16 | what `strip` leaves neither begins nor ends with a stripped character, and it is no longer than the input |
| `PyStr.StripIsSlice` | mapreduce-pipeline/utilities.py:15-16 | `strip` keeps one contiguous slice and removes only stripped characters around it |
| `PyStr.StripIsUnique` | mapreduce-pipeline/utilities.py:15-16 | any slice with only stripped characters outside it and none at its ends is exactly what `strip` returns |
| `EnvVars.MatchAt` | mapreduce-pipeline/utilities.py:10 | matching from `p` can only succeed where `export` ends at `p` and whitespace follows |
| `EnvVars.SearchFrom` | mapreduce-pipeline/utilities.py:10 | `re.search` tries start positions left to right: the result is the first position from which matching succeeds, or none when no position does |
| `EnvVars.Search` | mapreduce-pipeline/utilities.py:10 | a found match is the one from the leftmost position where matching succeeds |
| `EnvVars.SearchFindsFirst` | mapreduce-pipeline/utilities.py:10 | the search stops at a position from which matching succeeds when none before it does |
| `EnvVars.MatchAtIsGreedyPath` | mapreduce-pipeline/utilities.py:10 | matching from `p` succeeds iff the pattern has a path from `p`; the groups are those of the path with the longest `\s+` part |
| `EnvVars.PathGivesMatch` | mapreduce-pipeline/utilities.py:10 | every path of the pattern from `p` makes matching from `p` succeed |
| `EnvVars.PathWithinGreedy` | mapreduce-pipeline/utilities.py:10 | any path from `p` ends at the first `=` after `p`, and its `\s+` part stays within the whitespace run at `p` |
| `EnvVars.FirstPathIsGreedyChoice` | mapreduce-pipeline/utilities.py:10 | the path from `p` with the longest `\s+` part is the one whose groups matching from `p` yields |
| `EnvVars.FirstGreedyPathUnique` | mapreduce-pipeline/utilities.py:10 | at most one path is leftmost with the longest `\s+` part |
| `EnvVars.SearchOnFirstPath` | mapreduce-pipeline/utilities.py:10 | on the leftmost, greediest path, the search yields that path's two groups |
| `EnvVars.SearchIsFirstGreedyPath` | mapreduce-pipeline/utilities.py:10-12 | the search fails iff the line has no path at all; otherwise its groups are the leftmost, greediest path's: the name runs up to the first `=`, the value to the end of the line |
| `EnvVars.SearchNameHasNoEquals` | mapreduce-pipeline/utilities.py:10-12 | the first group of a match never contains `=` |
| `EnvVars.Clean` | mapreduce-pipeline/utilities.py:15-16 | after whitespace, `'` and `"` stripping, the side neither begins nor ends with `"` |
| `EnvVars.StripHasNoEquals` | mapreduce-pipeline/utilities.py:15-16 | stripping introduces no `=` |
| `EnvVars.CleanHasNoEquals` | mapreduce-pipeline/utilities.py:15-16 | cleaning a side without `=` gives a side without `=` |
| `EnvVars.CleanKeepsPlain` | mapreduce-pipeline/utilities.py:15-16 | a side with no whitespace or quote at either end is kept as it is |
| `EnvVars.Definition` | mapreduce-pipeline/utilities.py:14-20 | a returned pair has both sides non-empty and without an outer `"`, and a name without `=` when the group had none |
| `EnvVars.ParseEnvVarDef` | mapreduce-pipeline/utilities.py:4-20 | a returned pair has a non-empty name without `=` and a non-empty value, neither beginning nor ending with `"` |
| `EnvVars.ParseWithoutPath` | mapreduce-pipeline/utilities.py:10-11 | a line on which the pattern has no path defines nothing |
| `EnvVars.ParseOnFirstPath` | mapreduce-pipeline/utilities.py:10-20 | the result is decided by the reported path alone: its cleaned groups, or nothing when one is empty; later `export`s are never tried |
| `EnvVars.ParsedLineHasExport` | mapreduce-pipeline/utilities.py:10-12 | a pair is returned only if the line has `export` followed by whitespace and, later, an `=` |
| `EnvVars.DefinitionOfPlain` | mapreduce-pipeline/utilities.py:15-19 | groups without outer whitespace or quotes are returned as they are |
| `EnvVars.LineEndIs` | mapreduce-pipeline/utilities.py:10 | the value group `(.*)` ends at the first newline after the `=`, or at the end of the line |
| `EnvVars.ParseOnSimplePath` | mapreduce-pipeline/utilities.py:10-20 | when no path starts before an `export` that is followed by one whitespace character and a name, the groups are that name and the rest of the line after the first `=` |
| `EnvVars.NoPathBeforeFirstE` | mapreduce-pipeline/utilities.py:10 | the lookbehind needs the `e` of `export` six characters back, so no match starts before the first `e` plus six |
| `EnvVars.DefinitionsToMap` | mapreduce-pipeline/utilities.py:31 | the dictionary has at most one key per parsed line |
| `EnvVars.DefinitionsToMapKeys` | mapreduce-pipeline/utilities.py:31 | the dictionary's keys are exactly the names of the definitions present |
| `EnvVars.DefinitionsToMapLastWins` | mapreduce-pipeline/utilities.py:31 | a name's value is that of its last definition |
| `EnvVars.DefinitionsToMapValue` | mapreduce-pipeline/utilities.py:31 | every value in the dictionary comes from a definition of its name |
| `EnvVars.GetEnvVariablesFromFile` | mapreduce-pipeline/utilities.py:22-31 | the environment has at most one variable per line of the file |
| `EnvVars.EnvKeysAreParsedNames` | mapreduce-pipeline/utilities.py:28-31 | the keys are exactly the names of the lines that parse |
| `EnvVars.EnvEntriesWellFormed` | mapreduce-pipeline/utilities.py:28-31 | every key is non-empty and free of `=`, and every value is non-empty |
| `EnvVars.EnvLastDefinitionWins` | mapreduce-pipeline/utilities.py:28-31 | for a repeated name the last line's value wins |
| `EnvVarExamples.ExampleQuotedValue` | mapreduce-pipeline/utilities.py:10-19 | `  export FOO="bar baz"` defines `FOO` as `bar baz` |
| `EnvVarExamples.ExampleCommentedLine` | mapreduce-pipeline/utilities.py:10-19 | `# export A=B` defines `A` as `B` |
| `EnvVarExamples.ExampleValueWithEquals` | mapreduce-pipeline/utilities.py:10-19 | `export A=b=c` defines `A` as `b=c`: the value keeps later `=` and stops at the newline |
| `EnvVarExamples.ExampleEmptyName` | mapreduce-pipeline/utilities.py:10-20 | `export =x` defines nothing |
| `EnvVarExamples.ExampleLaterExportIgnored` | mapreduce-pipeline/utilities.py:10-20 | `export ''=x export A=B` defines nothing: the first match cleans to an empty name and the later `export` is not tried |
| `ObjectStore.ConfigFor` | mapreduce-pipeline/utilities.py:84-90 | a client talks TLS exactly when its URL starts with `https`; the region is always `us-west-1` |
| `ObjectStore.EnsureBucket` | mapreduce-pipeline/utilities.py:74-76 | afterwards the bucket exists; an existing bucket keeps its objects; an absent one is added empty; no other bucket changes |
| `ObjectStore.EnsureBucketIdempotent` | mapreduce-pipeline/utilities.py:74-76 | making sure of a bucket twice is making sure once |
| `ObjectStore.PutObject` | mapreduce-pipeline/utilities.py:96 | the key holds the new data; every other object and every other bucket is unchanged |
| `ObjectStore.PutObjectLastWins` | mapreduce-pipeline/utilities.py:96 | of two uploads to one key the later wins |
| `MinioUtilities.StripScheme` | mapreduce-pipeline/utilities.py:66-69 | removes a prefix that is empty, `http://` or `https://`, and changes the URL iff it starts with one of the two schemes |
| `MinioUtilities.StripSchemeRemovesOnlyOne` | mapreduce-pipeline/utilities.py:66-69 | only one scheme is removed: `https://http://h` becomes `http://h` |
| `MinioUtilities.StrippedUrlLosesSecure` | mapreduce-pipeline/utilities.py:61-69 | the `secure` rule applied to a stripped `https://` URL gives false unless the host starts with `https`, which is why `secure` is computed before stripping |
| `MinioUtilities.GetMinioCredentials` | mapreduce-pipeline/utilities.py:48-71 | a missing document or the first missing key of `MINIO_URL`, `MINIO_ACCESS_KEY`, `MINIO_SECRET_KEY` is an error; otherwise the keys are copied verbatim, `secure` comes from the original URL, and the URL loses one scheme iff `strip_http` |
| `MinioUtilities.CreateBucketIfMissing` | mapreduce-pipeline/utilities.py:74-77 | the bucket is created (and the message printed) iff it was absent; afterwards the store is `EnsureBucket` of the old one |
| `MinioUtilities.CreateBucketTwice` | mapreduce-pipeline/utilities.py:74-77 | a second call creates nothing and leaves the store as the first call left it |
| `MinioUtilities.CopyToStore` | mapreduce-pipeline/utilities.py:80-96 | the bucket exists afterwards and no other bucket is added; a readable source's content is under the destination key, and a missing source leaves only the made bucket |
| `MinioUtilities.CopyToStoreFrame` | mapreduce-pipeline/utilities.py:93-96 | after a copy the destination holds the source content, other objects of the bucket keep theirs, and other buckets are untouched |
| `MinioUtilities.CopyToStoreIdempotent` | mapreduce-pipeline/utilities.py:93-96 | copying the same file to the same place twice is copying it once |
| `MinioUtilities.CopyToMinio` | mapreduce-pipeline/utilities.py:80-96 | builds the client by the `https` rule, makes sure of the bucket first, then uploads; a missing source file fails with the bucket already made |
| `MinioUtilities.Names` | mapreduce-pipeline/utilities.py:123 | the object names, one per entry, in listing order |
| `MinioUtilities.NamesAppend` | mapreduce-pipeline/utilities.py:123 | taking names distributes over concatenated listings |
| `MinioUtilities.FindFilesMatchingPattern` | mapreduce-pipeline/utilities.py:99-128 | a pattern that does not compile fails before the bucket is listed, a missing bucket fails next; otherwise at most one name per listed object, each under the prefix and matched at its start by the pattern |
| `MinioUtilities.FindFilesMembership` | mapreduce-pipeline/utilities.py:120-126 | a name is returned iff a listed non-directory object under the prefix has it and the pattern matches at its start |
| `MinioUtilities.FindFilesKeepsOrder` | mapreduce-pipeline/utilities.py:120-126 | the result keeps listing order |
| `MinioUtilities.FindFilesIgnoresRecursive` | mapreduce-pipeline/utilities.py:99-120 | the `recursive` argument changes nothing |
| `MinioUtilities.FindFilesOverFiles` | mapreduce-pipeline/utilities.py:120-126 | over a listing of files that all lie under the prefix, only the pattern selects |
| `MinioUtilities.FindFilesExample` | mapreduce-pipeline/utilities.py:120-126 | pattern `2024-01` over `2024-01-a.json`, `2024-02-b.json`, `x2024-01-c.json` selects only `2024-01-a.json` |
| `DaaasStorage.GetInstances` | querySQL/daaas_storage_boto3.py:76-78 | the result holds exactly the listed names that do not end in `.json` |
| `DaaasStorage.GetInstancesKeepsOrder` | querySQL/daaas_storage_boto3.py:77 | the listing order is kept, and a listing without `.json` names is returned whole |
| `DaaasStorage.GetMinioClient` | querySQL/daaas_storage_boto3.py:37-61 | the client is built from the three sourced variables; `use_ssl` holds iff `MINIO_URL` starts with `https`; a rejected configuration is an error naming the instance |
| `DaaasStorage.Sanitize` | querySQL/daaas_storage_boto3.py:73-74 | every `-` becomes `_` and every other character is kept |
| `DaaasStorage.SanitizeIdempotent` | querySQL/daaas_storage_boto3.py:74 | sanitising twice is sanitising once |
| `DaaasStorage.SanitizeCollides` | querySQL/daaas_storage_boto3.py:74 | `a-b` and `a_b` are bound under the same attribute |
| `DaaasStorage.Bindings` | querySQL/daaas_storage_boto3.py:71-74 | adding instances never unbinds an attribute, and binds at most one new attribute per added instance |
| `DaaasStorage.BindingsKeys` | querySQL/daaas_storage_boto3.py:71-74 | after adding names, an attribute is bound iff it was bound before or some added name sanitises to it |
| `DaaasStorage.BindingsLastWins` | querySQL/daaas_storage_boto3.py:71-74 | when names collide after sanitising, the last one added wins |
| `DaaasStorage.BindingsFrame` | querySQL/daaas_storage_boto3.py:71-74 | attributes no added name sanitises to keep their binding |
| `DaaasStorage.BindingsSnoc` | querySQL/daaas_storage_boto3.py:71-74 | adding one more name binds its client over all earlier bindings |
| `DaaasStorage.BindingsCons` | querySQL/daaas_storage_boto3.py:71-74 | binding one name first and then the others gives the same attributes as binding the whole list in order |
| `DaaasStorage.FirstRejected` | querySQL/daaas_storage_boto3.py:66-69 | the position of the first instance whose client is refused: every instance before it is accepted, and it is refused, or it is the list's length when none is |
| `DaaasStorage.AddFromPasses` | querySQL/daaas_storage_boto3.py:66-74 | when every client is accepted, adding the instances appends all their names, binds all their clients in order and passes |
| `DaaasStorage.AddFromFails` | querySQL/daaas_storage_boto3.py:66-74 | when the client of instance `k` is the first refused, adding the instances appends the names up to and including it, binds only the clients before it and fails naming it |
| `DaaasStorage.AddFromMeaning` | querySQL/daaas_storage_boto3.py:66-74 | adding instances one by one passes iff no client is refused; otherwise it stops at the first refused one, after appending its name |
| `DaaasStorage.Instances.AddInstance` | querySQL/daaas_storage_boto3.py:71-74 | the unsanitised name is appended to the shared list even when the client fails; on success the client is bound under the sanitised name |
| `DaaasStorage.Instances.Init` | querySQL/daaas_storage_boto3.py:66-69 | when no client is refused, every listed instance is appended once, in order, onto the shared list and bound; otherwise the first refused instance ends it with an error naming it, after its name was appended and with only the instances before it bound |
| `DaaasStorage.Instances.AddAll` | querySQL/daaas_storage_boto3.py:68-69 | the loop ends in the outcome, shared list and attributes that adding the names one by one from the old state gives |
| `DaaasStorage.NewInstances` | querySQL/daaas_storage_boto3.py:63-74 | construction succeeds iff every instance's client can be built, and then appends every instance onto what earlier constructions left; otherwise it fails with the first instance whose client is refused, and the shared list keeps the names appended up to and including that one |
| `DaaasStorage.NewInstancesTwice` | querySQL/daaas_storage_boto3.py:64-69 | two constructions leave every instance name twice in the shared list |
| `DaaasStorage.Staged` | querySQL/daaas_storage_boto3.py:90-94 | events without a `Records` payload stage nothing |
| `DaaasStorage.StagedAppend` | querySQL/daaas_storage_boto3.py:91-93 | the staged content of two runs of events is the first run's content, then the second's |
| `DaaasStorage.StagedSnoc` | querySQL/daaas_storage_boto3.py:91-93 | each event appends its `Records` payload to the staged content, and other events leave it as it is |
| `DaaasStorage.LocalFs.WriteEvents` | querySQL/daaas_storage_boto3.py:91-93 | the file grows by the staged content of the events, and nothing else changes |
| `DaaasStorage.StagedOne` | querySQL/daaas_storage_boto3.py:92-93 | a `Records` event adds its payload; any other event adds nothing |
| `DaaasStorage.GetFromS3` | querySQL/daaas_storage_boto3.py:82-111 | the staging file holds the `Records` payloads in order; a broken stream or a failed decode raises and leaves the file; after a decode the file is removed, or a warning is printed when it cannot be, and the decoded value is returned unchanged; other files are untouched |

## Left out

- Shell sourcing in `get_minio_client` (`querySQL/daaas_storage_boto3.py:48-52`).
  The value the shell prints for each variable is the parameter `sourced`.
  Byte stripping and UTF-8 decoding of that output are not modelled.
- Construction of boto3 and MinIO clients, and all network traffic. A client is
  its configuration (`ClientConfig`). Whether the client library accepts a
  configuration is the parameter `accepts`. The MinIO server is the `Server`
  class.
- Authentication and authorisation failures of the store, and retries, are not
  modelled.
- The pandas and pyarrow readers (`querySQL/daaas_storage_boto3.py:114-144`),
  their fixed options and their printed shapes. They are one decoder, a
  function from the staged bytes to a value or a failure.
- DaaasStorage.GetFromS3: the decoder is a pure function applied once to the
  staged content. The code hands it the file name. Its call count is not stated
  separately.
- DaaasStorage.GetFromS3: the temporary name is a parameter that is not yet a
  file, standing for what `tempfile` chooses.
- DaaasStorage.GetFromS3: a broken stream is modelled as failing after its
  last delivered event. Write buffering is not modelled, so the file is taken
  to hold every delivered payload.
- DaaasStorage.GetFromS3: extra arguments to the decorated readers are not
  modelled. The code's `get_from_s3` takes only the response.
- Opening files and `json.load`. The vault is a map from paths to parsed
  documents, and an unreadable or unparsable document is one error.
- MinioUtilities.GetMinioCredentials: document values are taken to be
  strings. A non-string `MINIO_URL` would make `startswith` raise, and that is
  not modelled.
- The "Trying to access minio credentials" prints.
- The "Created bucket" print is the `created` result of
  `CreateBucketIfMissing`. The stderr warning of `get_from_s3` is modelled as
  text.
- MinioUtilities.FindFilesMatchingPattern: the user pattern is abstract. A
  compiled pattern is the predicate `pattern.match(name)` computes, whether a
  match anchored at the start of the name exists. Python's regex engine is
  not modelled.
- MinioUtilities.FindFilesMatchingPattern: the server's listing of the bucket
  is an input, in its listing order. The prefix filter is applied to it in the
  model.
- Attribute names that clash with members of `Instances`, such as an instance
  called `clients` or `add_instance`, are not modelled. Setting such an
  attribute would shadow the member.
- `mapreduce-pipeline/generate_plot/compile_plot.py` (plotting and argument
  parsing) is not part of this model.
