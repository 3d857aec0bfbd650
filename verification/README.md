# Static-site publisher: verified model of the sync core

This project models `publish.rb`, a one-shot tool that mirrors a generated
static site (the `_site` directory) into a key prefix of an S3 bucket. The
run is one linear pipeline:

1. enumerate the site and keep the regular files whose path has no hidden
   segment (`local_files`);
2. gzip-compress, in place and with a fixed header time, every file whose
   name ends in `.html`, `.css`, `.js`, `.json` or `.svg`;
3. list the bucket under the prefix, following continuation tokens until a
   response says it is not truncated (`remote_objects`);
4. map every listed key back to a local name with `gsub("prefix/", "")`, and
   compute `new_files` (local minus remote), `deleted_files` (remote minus
   local) and `changed_files` (listed objects whose file exists locally and
   whose quote-stripped etag differs from the file's MD5);
5. upload `new_files + changed_files` to `prefix/name`, gzip-encoded exactly
   when the name is compressible, and only then delete `deleted_files`.

The Dafny modules follow these steps:

| file | module | models |
|---|---|---|
| `wrappers.dfy` | `Wrappers` | `Option` and `Result` |
| `seqs.dfy` | `Seqs` | order-preserving filtering (`reject`, `Array#-`, `compact`) |
| `paths.dfy` | `PathRules` | `DOTFILE_REGEX`, `local_files`, `GZIP_REGEX`, `should_compress_file?` |
| `keys.dfy` | `Keys` | `gsub`, upload keys, key-to-name mapping, etag quote stripping |
| `listing.dfy` | `Listing` | the pagination loop of `remote_objects` |
| `compression.dfy` | `Compression` | the in-place gzip loop |
| `diff.dfy` | `DiffEngine` | `new_files`, `deleted_files`, `changed_files` |
| `sync.dfy` | `SyncExec` | the upload and delete loops, and the whole run |

Points where the model follows the code literally:

- Ruby's `^` and `$` are line anchors. `DOTFILE_REGEX` therefore also
  matches a `.` right after a newline, and `GZIP_REGEX` also matches an
  extension right before a newline. The predicates keep that reading; the
  lemmas `DotfileIsDotSegment` and `CompressIsSuffixTest` show that for
  names without a newline they are "some segment starts with `.`" and
  "ends in one of the five extensions".
- `key.gsub("prefix/", "")` removes every occurrence of `prefix/`, not only
  a leading one. A plain reading of the tool ("strip the prefix") would
  remove only the first; the model follows the code. The key round trip
  therefore holds exactly for names that do not themselves contain
  `prefix/` (the contract of `RemoteKey`), and `InnerPrefixCollapses` shows
  a family of names for which it fails. Such a name never converges: after
  a run has uploaded it, the next run still finds it new and schedules a
  delete under a key that was never listed (`NestedNameNeverConverges`).
  For names free of `prefix/`, a bucket that holds exactly the uploads of
  the site with matching etags, and nothing else, leaves nothing to do
  (`MirrorConverges`).
- Deletes go only to keys `prefix/name` with `name` a mapped listed key,
  so a listed key is removed only when it is the upload key of some listed
  key's name. A key `prefix/rest` whose `rest` contains no `prefix/` and is
  not local is removed (`NameRoundTrip`). Other keys can linger for good: a
  stale `prefix/prefix/name` next to the live `prefix/name` is never
  deleted and keeps `name` changed on every run
  (`StaleNestedKeyNeverDeleted`), and a key without `prefix/`, such as one
  under a sibling prefix `site2/` that the listing at publish.rb:40 also
  returns, is deleted under `prefix/key` instead of its own key
  (`ForeignKeyDeletedElsewhere`). Conversely, a key whose `rest` does contain
  `prefix/` can still be removed through another key's name
  (`InnerPrefixKeyDeleted`).
- `changed_files` tests `File.exist?`, not membership in `local_files`. A
  file that exists but is not a local file (a dotfile under a listed key)
  is both deleted and re-uploaded (`ExistingNonLocalIsDeletedAndChanged`);
  changed and deleted files are disjoint only under the assumption of
  `ChangedWithinBoth`.
- Lists are Ruby arrays, not sets: duplicates and order are kept.

The storage service is modelled as the sequence of responses it gives to
successive listing requests; a request past the last response is a failed
call, and the run aborts with `RequestFailed`. The site's files are a map
from name to bytes; `File.directory?`, `File.exist?`, the gzip encoder and
the MD5 digest of a byte string are function parameters, and the MD5 of a
file is the digest of its bytes after compression. Storage writes are an emitted trace of
`Put(key, contentEncoding)` and `Delete(key)` events.

## Model

| member | source | states |
|---|---|---|
| `Seqs.FilterAppend` | publish.rb:82-83 | filtering distributes over concatenation, so `reject` and `Array#-` keep the input order |
| `PathRules.MatchesDotfile` | publish.rb:19-24 | a path starting with `.` always matches `DOTFILE_REGEX`; for a path without a newline the match holds exactly when some `/`-separated segment begins with `.` |
| `PathRules.LocalFiles` | publish.rb:21-26 | a path is kept exactly when it was enumerated, is not a directory and does not match the dotfile pattern; a kept path keeps its multiplicity |
| `PathRules.DotfileIsDotSegment` | publish.rb:19 | for a path without a newline, the dotfile pattern matches exactly when some `/`-separated segment begins with `.` |
| `PathRules.HiddenPathsExcluded` | publish.rb:19-25 | `.env` and `a/.hidden/b.txt` are never local files |
| `PathRules.SegmentsRoundTrip` | publish.rb:19 | splitting a path into `/`-separated segments and joining them gives the path back |
| `PathRules.ShouldCompress` | publish.rb:62-66 | a name ending in one of the five extensions is always compressible; for a name without a newline, only such names are |
| `PathRules.CompressIsSuffixTest` | publish.rb:62-66 | for a name without a newline, `should_compress_file?` holds exactly when the name ends in `.html`, `.css`, `.js`, `.json` or `.svg` |
| `Keys.RemoveAll` | publish.rb:56 | `gsub` with an empty replacement never lengthens a string and leaves a string shorter than the pattern as it is |
| `Keys.RemoveAllUnchanged` | publish.rb:56 | `gsub` with an empty replacement leaves a string unchanged exactly when the pattern does not occur in it |
| `Keys.RemoteKey` | publish.rb:116 | the upload key is the prefix, `/` and the unaltered name; mapped back with the `gsub` of publish.rb:56, it gives the name exactly when the name does not contain `prefix/` |
| `Keys.LocalName` | publish.rb:86 | the name a listed key is compared under is never longer than the key, and equals the key exactly when the key contains no `prefix/` |
| `Keys.KeyRoundTrip` | publish.rb:116 | mapping the upload key `prefix/name` back with the `gsub` of lines 56 and 86 gives `name` whenever `name` does not contain `prefix/` |
| `Keys.NameRoundTrip` | publish.rb:128 | a listed key `prefix/rest`, with no further `prefix/` in `rest`, is deleted under the same key it was listed under |
| `Keys.LocalNameInjective` | publish.rb:56 | on keys `prefix/rest` whose `rest` contains no `prefix/`, the key-to-name mapping is injective: equal names mean equal keys |
| `Keys.TwoKeysOneName` | publish.rb:56 | without that restriction it is not: `prefix/name` and `prefix/prefix/name` are distinct keys mapped to the same name |
| `Keys.InnerPrefixCollapses` | publish.rb:56 | for a `dir` without the prefix's first character and a `file` without `prefix/`, the name `dir/prefix/file` is uploaded as `prefix/dir/prefix/file` but compared as `dir/file` |
| `Keys.DoubledLeadCollapses` | publish.rb:56 | `gsub` can leave the pattern in its result: with a one-letter prefix `c`, the key `cc//` is compared as `c/`, whose upload key is `c/c/` |
| `Keys.StripQuotes` | publish.rb:87 | the normalised etag contains no `"` and keeps every other character with its multiplicity |
| `Keys.RemoveQuotesIsFilter` | publish.rb:87 | quote stripping is exactly the in-order filter of the non-quote characters |
| `Keys.StripQuotesIdempotent` | publish.rb:87 | stripping quotes twice is stripping them once |
| `Listing.ListAll` | publish.rb:33-51 | the listing succeeds exactly when some response is not truncated; it is then the concatenation, in order, of every response up to and including the first untruncated one; the first request carries no token and each later request carries the previous response's `next_continuation_token`; otherwise the request past the last response fails |
| `Listing.FlattenLength` | publish.rb:45 | the accumulated listing has as many entries as the pages together |
| `Compression.CompressStep` | publish.rb:67-77 | one iteration keeps the set of files, replaces a compressible file by the gzip encoding of its bytes with the fixed time, and leaves every other file unchanged |
| `Compression.Normalize` | publish.rb:67-78 | the set of files is unchanged; each file ends up compressed with the fixed time once per listing of its name if its name is compressible, and untouched otherwise |
| `Compression.RoundsCount` | publish.rb:67-70 | a compressible file is compressed as many times as its name is listed, any other file never |
| `Compression.NormalizeOnce` | publish.rb:72-77 | with names listed once, a compressible listed file becomes the gzip encoding of its original bytes with the fixed time; every other file is unchanged |
| `Compression.NormalizeDeterministic` | publish.rb:74-75 | two builds with the same bytes for a file have the same bytes after compression |
| `Compression.Fingerprints` | publish.rb:67-88 | the MD5 the diff step sees for a file is the digest of its original bytes compressed once per compressible listing of its name, with the fixed time |
| `Compression.FingerprintStable` | publish.rb:73-88 | two builds with the same bytes for a file give it the same MD5, so an unchanged file is not re-uploaded |
| `DiffEngine.Difference` | publish.rb:82-83 | `a - b` holds exactly the elements of `a` absent from `b`, with their multiplicity in `a` |
| `DiffEngine.RemoteNames` | publish.rb:54-58 | one name per listed object, in listing order; each name is no longer than its key and is the key itself exactly when the key contains no `prefix/` |
| `DiffEngine.MirrorNames` | publish.rb:54-58 | listing a bucket that holds exactly the uploads `prefix/name` of the local names gives the local names back, in order, exactly when no local name contains `prefix/` |
| `DiffEngine.ChangedFiles` | publish.rb:85-91 | a name is changed exactly when some listed object maps to it, its file exists and its quote-stripped etag differs from the file's MD5 |
| `DiffEngine.ChangedFilesInOrder` | publish.rb:85-91 | `changed_files` has one entry per listed object passing the change test, in listing order, each that object's mapped name |
| `DiffEngine.ComputePlan` | publish.rb:82-91 | a new file is a local name no listed key maps to, with its local multiplicity; a deleted file is a mapped listed name that is not local; a changed file is the mapped name of an object passing the change test; no list is longer than its source |
| `DiffEngine.NewAndDeleted` | publish.rb:82-83 | new files are the local names not listed, deleted files the listed names not local; the two are disjoint and avoid every name on both sides |
| `DiffEngine.PartitionComplete` | publish.rb:82-83 | new files, the names on both sides and deleted files are pairwise disjoint and together are every name of either inventory |
| `DiffEngine.ChangedAreRemoteAndNotNew` | publish.rb:85-91 | every changed file is a listed name whose file exists, whose etag differs from the MD5, and which is not new |
| `DiffEngine.ChangedWithinBoth` | publish.rb:83-91 | if every existing file under a listed name is a local file, changed files are on both sides and never deleted |
| `DiffEngine.ExistingNonLocalIsDeletedAndChanged` | publish.rb:83-91 | a file that exists but is not local, under a listed key with a differing etag, is both deleted and changed |
| `DiffEngine.NoChangedObjects` | publish.rb:85-91 | when no listed object passes the change test, `changed_files` is empty |
| `DiffEngine.InSyncMeansEmptyPlan` | publish.rb:82-91 | with equal name sets, no non-local file under a listed name and every etag equal to the MD5, all three lists are empty |
| `DiffEngine.NewChangedDeletedScenario` | publish.rb:82-91 | a new page absent from the bucket is new, an edited file whose etag differs from its MD5 is changed, and a listed file no longer on disk is deleted, and nothing else is |
| `DiffEngine.MirrorConverges` | publish.rb:82-128 | for a bucket holding exactly the uploads `prefix/name` of the local names and nothing else, with etags equal to the MD5s, a run finds nothing new, changed or deleted, provided no name contains `prefix/` |
| `DiffEngine.NestedNameNeverConverges` | publish.rb:56-128 | for a `dir` without the prefix's first character, a local name `dir/prefix/file` uploaded to `prefix/dir/prefix/file` is still new on the next run, and `dir/file` is scheduled for deletion under a key other than the listed one |
| `DiffEngine.StaleNestedKeyNeverDeleted` | publish.rb:82-91 | next to the live `prefix/name`, a stale `prefix/prefix/name` makes `name` changed and nothing deleted, run after run |
| `DiffEngine.ForeignKeyDeletedElsewhere` | publish.rb:83-128 | a listed key without `prefix/`, whose name is not local, is scheduled for deletion under `prefix/key`, which is not that key |
| `DiffEngine.InnerPrefixKeyDeleted` | publish.rb:83-128 | with a one-letter prefix `c`, a listed `cc//` makes the listed key `c/c/` be deleted although its rest contains `c/` |
| `SyncExec.UploadEvent` | publish.rb:102-117 | the upload of a file goes to `prefix/name`, with `gzip` encoding exactly when the name is compressible and no encoding otherwise |
| `SyncExec.EmitTrace` | publish.rb:98-132 | one `Put` per upload in order, keyed `prefix/name`, gzip-encoded exactly when the name is compressible, then one `Delete` per deleted file in order under `prefix/name` |
| `SyncExec.PutsPrecedeDeletes` | publish.rb:98-132 | in the emitted trace every upload comes before every delete |
| `SyncExec.Publish` | publish.rb:60-132 | a failed listing aborts before any write; otherwise the trace uploads `new_files + changed_files` and then deletes `deleted_files`, computed from the full listing and the MD5s of the compressed site, and it is empty when the site and the bucket are in sync |

## Left out

- The S3 client, its credentials, the bucket name and the other environment lookups (publish.rb:10-17): configuration and a foreign library; only the prefix is a parameter.
- The listing request's `prefix:` and `max_keys:` arguments (publish.rb:40-43): which keys a response holds and how many is the service's business; the responses are a parameter. Every listed key goes through the same `gsub`, so a key is kept unchanged as a name only if it contains no `prefix/` anywhere. The listing's `prefix:` has no trailing `/`, so a sibling prefix (`site2/...` when the prefix is `site`) is listed too; the responses may hold any keys, so the model covers such keys (`ForeignKeyDeletedElsewhere`).
- `cache_control`, `server_side_encryption` and `body` of the upload (publish.rb:110-115): constant metadata and file I/O, not part of the `Put` event.
- The MIME type lookup (publish.rb:104-107): it calls a library whose tables are not part of this model, so `content_type` is not in the `Put` event.
- The gzip encoder and `Time.parse` (publish.rb:72-77): zlib is a parameter `gzip(content, mtime)`; the time is the constant `FixedMtime`, read as midnight UTC, although Ruby reads it in the local time zone.
- Fingerprinting a name with no file (publish.rb:88): Ruby raises when the name is a directory; `Compression.Fingerprints` gives such a name the digest of no bytes. The diff step only fingerprints names that `File.exist?` accepts.
- `Dir.chdir`, `Dir["**/*"]`, `File.directory?`, `File.exist?`, `File.read` and `File.open` (publish.rb:3, 22-24, 72, 88, 110): filesystem I/O, replaced by the enumerated path sequence, predicates and a content map.
- The MD5 algorithm itself (publish.rb:88): `digest` is an uninterpreted function of a byte string; nothing depends on which one it is.
- Links between names (publish.rb:22, 72-73): the disk maps every name to its own bytes. `Dir["**/*"]` also lists symlinks, and `File.read` and `GzipWriter.open` act on a link's target, so a compressible file reachable under two names would be compressed twice, and both uploads would carry those bytes; the model assumes distinct names are distinct files.
- A compressible local file missing from the disk map (publish.rb:72): `SyncExec.Publish` requires every one to be there, since the name was just enumerated; a file removed in between would make `File.read` raise, which is not modelled.
- Failures of individual uploads and deletes (publish.rb:109-129): each would raise and end the run; the trace lists the calls in the order they are issued.
- The memoisation of `local_files` and `remote_objects` (publish.rb:22, 29-31): each is computed once in the model and passed on.
- Console output and timing (`puts`, `print`, `Time.now`): no effect on what is uploaded or deleted.
