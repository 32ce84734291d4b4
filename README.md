# gs-wrap: addressing and destination planning, in Dafny

gs-wrap offers gsutil-style `ls`, `cp` and `rm` over one address space. That
space mixes local paths and `gs://<bucket>/<key>` URLs. Its core is not the
network traffic. The core is the path algebra and the planning rules that
decide which blobs a command touches and under which name each copy lands.
This project models that core twice: for the current module
`gswrap/__init__.py`, and for the legacy copy `gs_wrap/__init__.py`, whose
upload naming and `rm` selection differ.

Modules, in dependency order:

- `Errors`: `Option`, `Result`, and the exceptions the wrapper raises itself.
- `Strings`: `split('/')`, `'/'.join`, `str.find`, `str.replace` (first
  occurrence and all occurrences, with Python's rule for the empty pattern),
  and Python's string order.
- `Paths`: `pathlib.PurePosixPath` as `(absolute, segments)`, plus
  `_GCSPathlib`. `_GCSPathlib` pairs the path with the raw string's
  trailing-`/` bit and provides `_convert_to_posix`,
  `_starts_with_backslash` and `_name_of_parent_dir`.
- `Urls`: `_UniformPath` for the shape `gs://<authority><path>`, and
  `_contains_wildcard` as a hand-written scan.
- `Listing`: a bucket is its keys in listing order. The module gives
  `list_blobs(prefix, delimiter)` with storage-service semantics (objects
  and common prefixes), `_list_found_blobs`, the `_ls` query and the
  `gs://<bucket>/` prefixing of `ls`.
- `CopyRemote`: `_cp_blob_name_restructure` and the plan of `_cp`, i.e.
  the listing, the fan-out guard and the no-clobber skip.
- `Upload`: the files `_upload` collects and the key each one is written to.
- `Download`: the placeholder, the directories and the fetches of
  `_download`.
- `Remove`: the blobs `rm` deletes.
- `LocalCopy`: the local-to-local branch of `cp`.
- `Buckets`: what writing and deleting objects does to a bucket's keys.
- `GsWrap`: the class `Client`. It holds the storage service (a map from
  bucket name to keys) and the active bucket of `_change_bucket`, and its
  methods `ls`, `cp` and `rm` change that state.
- `LegacyGsWrap`: the points where `gs_wrap` differs, and its class
  `GoogleCloudStorageClient`.
- `Findings`: rules that, as written, do something other than what they
  are evidently meant to do. Each comes with an input that shows it.

The storage service is a parameter: a map from bucket name to an ascending,
repeat-free sequence of keys. The local filesystem is also a parameter: the
sets of paths that are regular files and directories, plus the relative
paths `os.walk` yields. Transfers, threads and file contents are not
modelled. Where the code contains a slip (see "## Findings"), the model of
the client uses the corrected rule, and the `Findings` module keeps the
rule as written.

Three behaviours of the code that differ from what a `gsutil` user might
expect are modelled as the code has them:

- `_ls` (gswrap/__init__.py:229-236) never looks up an exact object. It
  always queries the key with a `/` appended, and an empty result is an
  empty list, not an error.
- `_cp` (gswrap/__init__.py:328-331) raises nothing when the listing is
  empty: it copies nothing.
- The non-recursive fan-out guard of `_cp` (gswrap/__init__.py:328-331)
  counts the objects listed under the bare key. A sibling object `<key>x`
  therefore counts.

## Model

| member | source | states |
|---|---|---|
| `Paths.Parse` | gswrap/__init__.py:39 | the normalised path has no empty, `.` or `/`-holding segment; it is absolute exactly when the string starts with `/` |
| `Paths.ParseAsPosix` | gswrap/__init__.py:46 | normalisation is idempotent: parsing `as_posix()` of a path gives the path back |
| `Paths.AsPosixShape` | gswrap/__init__.py:46 | a rendered non-empty path never ends with `/`, and starts with `/` exactly when it is absolute |
| `Paths.FromString` | gswrap/__init__.py:36-39 | the trailing bit is set exactly when the raw string ends with `/` (also for `/` and `///`), and it is taken before normalisation; the legacy `GCSPathlib` (gs_wrap/__init__.py:29-32) is the same |
| `Paths.ConvertToPosix` | gswrap/__init__.py:41-59 | for a cloud URL, `.` and `/` render as ''; the rendering parses back to the same segments; it ends with one `/` exactly when asked; it starts with `/` exactly for an absolute path without stripping; plus a closed form; gs_wrap/__init__.py:34-49 follows the same rule |
| `Paths.StartsWithBackslashOfString` | gswrap/__init__.py:61-63 | `_starts_with_backslash` of a raw string holds exactly when the string starts with `/`; the same holds for gs_wrap/__init__.py:51-53 |
| `Paths.NameOfParentDir` | gswrap/__init__.py:65-69 | removing the parent's rendering once leaves the final segment alone (none at the root); the result is absolute exactly when the path has two or more segments or is one absolute segment; it renders as `path.name`; gs_wrap/__init__.py:55-58 is the same |
| `Paths.JoinEmpty` | gswrap/__init__.py:155-158 | joining '' or `.` with `/` leaves a path unchanged |
| `Paths.JoinSegments` | gswrap/__init__.py:155-158 | joining a rendered relative path appends its segments |
| `Paths.CloudKey` | gswrap/__init__.py:346-353 | the key a restructured path is written to is its segments joined by `/`, or '' when it has none |
| `Urls.Classify` | gswrap/__init__.py:86-99 | a `gs://` address is cloud; its bucket is the whole `/`-free authority and its prefix is the rest; a cloud prefix is absolute or the bucket root; anything else is local with bucket '' and the raw string as prefix |
| `Urls.CloudRoundTrip` | gswrap/__init__.py:91-95 | `gs://<bucket>/<key>` classifies as that bucket, and its prefix re-rendered with its own trailing bit gives the key back |
| `Urls.LocalRoundTrip` | gswrap/__init__.py:96-99 | a local path classifies as local with bucket '', and re-rendered with its own trailing bit gives the raw string back |
| `Urls.CloudParts` | gswrap/__init__.py:91-95 | `gs://<bucket><path>` with a `/`-free bucket and a path that is empty or starts with `/` classifies as exactly that bucket and path |
| `Urls.ContainsWildcard` | gswrap/__init__.py:102-113 | true exactly when `*`, `?`, or a `[` starting a closed bracket expression `[^]]+]` occurs somewhere; the legacy `_contains_wildcard` (gs_wrap/__init__.py:120-134) is the same |
| `Listing.Delimiter` | gswrap/__init__.py:222-225 | the delimiter is '' exactly when recursive, and `/` otherwise (also in `_cp`, `_download` and `rm`) |
| `Listing.Objects` | gswrap/__init__.py:233-234 | a key is listed as an object exactly when it starts with the prefix and its rest holds no delimiter; the objects keep the bucket's order |
| `Listing.Prefixes` | gswrap/__init__.py:125 | there are no common prefixes without a delimiter; each one starts with the query and ends with the delimiter, with no earlier delimiter after the query |
| `Listing.RolledUpListed` | gswrap/__init__.py:233-236 | the common prefixes are exactly the cuts of the keys rolled up under the delimiter: every such key contributes its cut, and every prefix is the cut of some key |
| `Listing.ListingCovers` | gswrap/__init__.py:233-236 | every key under the query is listed, either as an object or below a listed prefix |
| `Listing.ObjectsAndPrefixesDisjoint` | gswrap/__init__.py:233-236 | no name is listed both as an object and as a prefix |
| `Listing.FlatListing` | gswrap/__init__.py:222-234 | a recursive listing has every key under the query as an object and no prefixes |
| `Listing.DirectChildren` | gswrap/__init__.py:222-236 | a non-recursive listing under `<key>/` holds only direct children: objects with no further `/`, and prefixes that end with `/` and hold no other `/` after the key |
| `Listing.SortNames` | gswrap/__init__.py:127 | `sorted()` of a set of names: ascending, each name once, and exactly the names of the set |
| `Listing.ListFoundBlobs` | gswrap/__init__.py:116-136 | the result is all objects in iterator order followed by all prefixes in ascending order, and its length is the sum of both counts; the legacy `list_found_blobs` (gs_wrap/__init__.py:136-155) has the same loops |
| `Listing.MergedUnique` | gswrap/__init__.py:116-136 | the merged listing is determined by the objects and the set of prefixes |
| `Listing.MergedDistinct` | gswrap/__init__.py:116-136 | with a delimiter, the merged listing of a bucket names no entry twice |
| `Listing.LsQuery` | gswrap/__init__.py:229-231 | the `_ls` query is the key with one `/` appended, or '' at the bucket root (the legacy query at gs_wrap/__init__.py:197 is the same) |
| `Listing.AddUrlPrefix` | gswrap/__init__.py:208-210 | every listed name appears, in order, behind `gs://<bucket>/` |
| `CopyRemote.CpBlobNameRestructure` | gswrap/__init__.py:139-158 | the segments of the new name are the destination's, then the source's final segment only when the destination ends with `/`, then whatever of the blob name lies past the source prefix; gs_wrap/__init__.py:232-250 is the same |
| `CopyRemote.RestructureIgnoresSourceTrailing` | gswrap/__init__.py:149-158 | the new name does not depend on whether the source ended with `/` |
| `CopyRemote.RestructureExact` | gswrap/__init__.py:139-158 | a blob equal to the source key lands at exactly the destination, or at `<dst>/<basename>` when the destination ends with `/` |
| `CopyRemote.RestructureUnder` | gswrap/__init__.py:139-158 | a blob `<key>/<rel>` lands at `<dst>/<rel>`, or at `<dst>/<basename>/<rel>` when the destination ends with `/` |
| `CopyRemote.RestructureFromRoot` | gswrap/__init__.py:139-158 | copying from the bucket root keeps each blob's whole name below the destination |
| `CopyRemote.SourceKey` | gswrap/__init__.py:325-326 | the source prefix of `_cp` is the key without a leading `/`, or '' at the root |
| `CopyRemote.CopyTarget` | gswrap/__init__.py:346-361 | the name a copy is written to is the restructured path rendered as a key |
| `CopyRemote.CpListing` | gswrap/__init__.py:325-329 | the blobs `_cp` lists exist and start with the source key; recursively (corrected; as written: `Findings.CpListingAsWritten`) they are exactly the key itself and the blobs below `<key>/`; otherwise (as written) they are the flat objects under the key |
| `CopyRemote.Copies` | gswrap/__init__.py:345-348 | every listed blob is paired with its new name, in listing order |
| `CopyRemote.CpPlanned` | gswrap/__init__.py:345-362 | each planned copy is of a listed blob, to its `CopyTarget`; under no-clobber no copy goes to an existing name |
| `CopyRemote.PlanCp` | gswrap/__init__.py:315-362 | `_cp` fails with the fan-out error exactly when it is not recursive and more than one blob is listed; otherwise the result is the plan for the listing |
| `CopyRemote.CpNoClobberComplete` | gswrap/__init__.py:350-362 | every listed blob whose new name is free is copied |
| `CopyRemote.CpClobberCopiesAll` | gswrap/__init__.py:345-362 | without no-clobber, every listed blob is copied once, in listing order |
| `CopyRemote.CpRerunCopiesNothing` | gswrap/__init__.py:350-354 | once a plan has been written, planning the same copy under no-clobber copies nothing |
| `Upload.UploadSources` | gswrap/__init__.py:380-413 | a file source gives its name, read from its parent directory; a directory gives one entry per walked file when recursive; without recursion a non-file source raises the "did you mean recursive" error |
| `Upload.UploadRelativeOfWalk` | gswrap/__init__.py:393-401 | cutting the walk's top out of `os.path.join(top, rel)` leaves the relative path `rel` |
| `Upload.CollectWalked` | gswrap/__init__.py:388-401 | the walk loop collects the relative name of every walked file, in walk order |
| `Upload.WalkedFileNames` | gswrap/__init__.py:385-401 | for a local directory, each collected name is the file's path relative to the directory, under the corrected first-occurrence cut (see the findings) |
| `Upload.UploadBlobPath` | gswrap/__init__.py:419-438 | the path is exactly the destination for a file source and a destination without a trailing `/`; it is `<dst>/<dir name>/<file>` for a directory source and a destination ending with `/`; otherwise it is `<dst>/<file>` |
| `Upload.Uploads` | gswrap/__init__.py:419-450 | every collected file gives one upload, in collection order, named by `UploadBlobPath` |
| `Upload.Admitted` | gswrap/__init__.py:440-444 | an upload is submitted exactly when no-clobber is off or its key did not exist before the call |
| `Upload.AdmittedAll` | gswrap/__init__.py:440-444 | without no-clobber every upload is submitted, in order |
| `Upload.UploadPlanned` | gswrap/__init__.py:419-453 | each planned upload is one entry of `upload_files`, named by `UploadBlobPath`; under no-clobber no upload goes to an existing key |
| `Upload.SubmitUploads` | gswrap/__init__.py:419-453 | the submit loop produces exactly the planned uploads |
| `Upload.PlanUpload` | gswrap/__init__.py:378-453 | `_upload` raises the error of the file collection, or submits the plan for the collected files |
| `Upload.UploadFileToExactKey` | gswrap/__init__.py:380-452 | a single local file sent to a destination without a trailing `/` goes to exactly the destination key, and is read from where it lies |
| `Upload.UploadFileIntoDirectory` | gswrap/__init__.py:380-452 | a single local file sent to a destination ending with `/` goes to `<dst>/<file name>` |
| `Upload.UploadDirectoryFile` | gswrap/__init__.py:419-452 | a walked file goes to `<dst>/<dir name>/<rel>` when the destination ends with `/`, and to `<dst>/<rel>` otherwise; it is read from `<src>/<rel>`; under the corrected first-occurrence cut |
| `Download.ParentKey` | gswrap/__init__.py:480-482 | the key `_download` cuts off is that of the source's parent |
| `Download.DownloadListing` | gswrap/__init__.py:484-487 | the blobs downloaded are the objects under the source key with the mode's delimiter |
| `Download.NeededDirs` | gswrap/__init__.py:483-495 | `parent_dir_set` holds the directory of every listed blob, and nothing else |
| `Download.CollectParentDirs` | gswrap/__init__.py:483-495 | the loop collects exactly the needed directories |
| `Download.SelectMissingDirs` | gswrap/__init__.py:497-501 | the directories created are, in ascending order, the sorted ones that are not files; the loop stops with a failure at the first such directory below a file, having created exactly the ones before it, and fails exactly when one exists |
| `Download.Named` | gswrap/__init__.py:505-521 | every listed blob is paired with the file it is written to, in listing order |
| `Download.Unclobbered` | gswrap/__init__.py:523-529 | a named download is submitted exactly when no-clobber is off or its file did not exist before the call |
| `Download.ClobberKeepsAll` | gswrap/__init__.py:523-529 | without no-clobber every named download is submitted, in order |
| `Download.SubmitDownloads` | gswrap/__init__.py:505-529 | the download loop submits exactly the kept downloads |
| `Download.PlanDownload` | gswrap/__init__.py:468-529 | the placeholder write's error (`PlaceholderError`) comes first, before any listing; when the placeholder can be written, `NotADirectoryError` is raised exactly when some needed directory that is not a file lies below a file (the placeholder included), naming the first such directory; otherwise a placeholder is written exactly when the destination is missing, the directories created are the needed ones minus files, ascending and each once, and the downloads skip no-clobbered files |
| `Download.StripParent` | gswrap/__init__.py:510-516 | cutting the first occurrence of the parent key out of `<parent>/<rel>` leaves `rel`, also at the bucket root and for an empty `rel` (the corrected cut; the code cuts every occurrence) |
| `Download.PlaceholderError` | gswrap/__init__.py:477-478 | an existing destination is not written; a missing one raises `NotADirectoryError` exactly when it lies below a file, otherwise `FileNotFoundError` exactly when its parent is neither `.`, `/` nor an existing directory, and otherwise nothing |
| `Download.PlaceholderBelowFile` | gswrap/__init__.py:477-478 | a missing destination whose parent is a file fails with `NotADirectoryError` at the placeholder write |
| `Download.MissingParent` | gswrap/__init__.py:477-478 | `nodir/x` with no `nodir` on disk fails with `FileNotFoundError` at the placeholder write |
| `Download.DeepBlobBelowFile` | gswrap/__init__.py:477-501 | into a destination that is a file or missing, a listed blob two or more levels below the source's parent needs a directory below a file; so the download fails, with `NotADirectoryError` from the mkdir loop unless the placeholder write has failed first |
| `Download.DownloadedFile` | gswrap/__init__.py:480-521 | a blob `<parent>/<rel>` downloaded into a directory is written to `<dst>/<rel>`, and the directory created for it is that file's parent |
| `Download.IntoFileDestination` | gswrap/__init__.py:518-519 | into a file destination every blob is written to that file |
| `Remove.ExactKey` | gswrap/__init__.py:556-559 | the exact key is the address's key, with a trailing `/` exactly when the address had one; it is '' at the root |
| `Remove.TreePrefix` | gswrap/__init__.py:573-578 | the recursive listing prefix is the `_ls` query |
| `Remove.RmTargets` | gswrap/__init__.py:540-581 | a local address is an error; a non-recursive `rm` deletes the exact object or raises "No URL matched"; a recursive one never fails |
| `Remove.RmSound` | gswrap/__init__.py:572-580 | everything a recursive `rm` deletes exists, and is either the exact object or lies below the address |
| `Remove.RmComplete` | gswrap/__init__.py:572-580 | a recursive `rm` deletes every blob below the address, and the exact object when there is one |
| `Remove.RmSparesSiblings` | gswrap/__init__.py:556-580 | a sibling `<key>x...` of the address `<key>` is never deleted, in either mode |
| `Remove.RmOnce` | gswrap/__init__.py:572-585 | a recursive `rm` of an address without a trailing `/` deletes each blob once |
| `LocalCopy.TreeTarget` | gswrap/__init__.py:292-295 | `copytree` writes to `<dst>/<source directory name>` |
| `LocalCopy.LocalCp` | gswrap/__init__.py:287-299 | nothing happens under no-clobber when the destination exists; otherwise a file is copied as given, a directory is copied as a tree to `TreeTarget` (`<dst>/<source directory name>`) when recursive, and anything else raises the "did you mean recursive" error |
| `LocalCopy.TreeLandsBelowDestination` | gswrap/__init__.py:291-295 | the tree's target lies directly in the destination and carries the source's name |
| `Buckets.Insert` | gswrap/__init__.py:356-361 | writing an object adds its name to the bucket's keys and nothing else |
| `Buckets.InsertAscending` | gswrap/__init__.py:356-361 | writing a name keeps the keys in listing order |
| `Buckets.InsertAll` | gswrap/__init__.py:345-362 | writing several objects adds exactly their names |
| `Buckets.InsertAllAscending` | gswrap/__init__.py:345-362 | writing several names keeps the keys in listing order |
| `Buckets.Without` | gswrap/__init__.py:582-585 | deleting removes exactly the deleted names and keeps the order |
| `Buckets.WithoutTwice` | gswrap/__init__.py:582-585 | deleting names one after another is the same as deleting them all at once |
| `GsWrap.AfterChange` | gswrap/__init__.py:181-188 | the requested bucket becomes active exactly when it was already active or exists; otherwise the active bucket stays |
| `GsWrap.InsertEach` | gswrap/__init__.py:345-362 | the write loop leaves the keys with every written name added, in order |
| `GsWrap.DeleteEach` | gswrap/__init__.py:582-585 | the delete loop leaves the keys without the deleted names |
| `GsWrap.Client.constructor` | gswrap/__init__.py:165-179 | `Client()` starts with no active bucket and has asked the service for nothing |
| `GsWrap.Client.ChangeBucket` | gswrap/__init__.py:181-188 | the service is asked again exactly when the requested name is not the active one; a missing bucket raises `NotFound` and leaves the active bucket |
| `GsWrap.Client.Ls` | gswrap/__init__.py:190-238 | a wildcard or a local address is rejected without touching the cache; otherwise the answer is the merged listing of the `_ls` query, as `gs://` URLs, or `NotFound` for a missing bucket; the service is asked for the bucket exactly when the address is a cloud URL without wildcards and its bucket is not active |
| `GsWrap.Client.Rm` | gswrap/__init__.py:531-587 | a rejected address leaves the service and the active bucket; otherwise the bucket loses exactly the selected blobs, or the selection's error is raised with nothing deleted; the service is asked for the bucket exactly when the address is a cloud URL without wildcards and its bucket is not active |
| `GsWrap.Client.Cp` | gswrap/__init__.py:241-299 | wildcards are rejected first; then the command dispatches by the kinds of the two addresses to a copy inside the service, a download, an upload, or a local copy, each with its outcome and new state; the requests made are those of the branch taken, none for wildcards or a local copy; the source bucket of a copy or download, or the destination bucket of a collected upload, becomes active through the cache, and otherwise the active bucket stays |
| `GsWrap.Client.CpRemote` | gswrap/__init__.py:301-362 | a missing source or destination bucket raises `NotFound`, and the fan-out guard raises the recursion error, with nothing written in either case; otherwise the planned copies are written into the destination bucket; the source bucket is requested through the cache and the destination bucket always, once the source exists; the source bucket becomes active when it exists |
| `GsWrap.Client.CpDownload` | gswrap/__init__.py:455-529 | the service is unchanged; the result is the download plan of the source bucket, or the placeholder write's error, or else `NotADirectoryError` for the first needed directory below a file; only the source bucket is requested, through the cache, and it becomes active when it exists |
| `GsWrap.Client.CpUpload` | gswrap/__init__.py:364-453 | the collection error comes before the bucket lookup; otherwise every planned upload's key is written into the destination bucket; the destination bucket is requested, through the cache, only once the files are collected, and then becomes active when it exists; a collection error leaves the active bucket |
| `GsWrap.Client.Delete` | gswrap/__init__.py:582-585 | deleting changes only the one bucket, removing exactly the deleted names |
| `GsWrap.Client.Write` | gswrap/__init__.py:356-361 | writing changes only the one bucket, adding exactly the written names |
| `LegacyGsWrap.LegacyClassify` | gs_wrap/__init__.py:75-85 | a `gs://` address is cloud with its authority as bucket; any other address has no bucket (`None`) rather than '' |
| `LegacyGsWrap.LegacyRoundTrip` | gs_wrap/__init__.py:75-85 | `gs://<bucket>/<key>` comes apart into the bucket and a prefix that renders back as the key; a relative local path has no bucket and keeps its segments |
| `LegacyGsWrap.LegacyDelimiter` | gs_wrap/__init__.py:190-193 | the legacy `_ls` uses the delimiter `/` exactly when `dont_recurse` |
| `LegacyGsWrap.LegacyRmTargets` | gs_wrap/__init__.py:378-392 | a local address is an error; otherwise every blob whose name starts with the key is deleted, with a trailing `/` only when the address had one, and the whole bucket at the root |
| `LegacyGsWrap.LegacyRmTakesSiblings` | gs_wrap/__init__.py:388-390 | without a trailing `/` the legacy `rm` deletes everything the current recursive `rm` deletes, and also the siblings `<key>x...` that the current one spares |
| `LegacyGsWrap.LegacyRmTrailingAsCurrent` | gs_wrap/__init__.py:388-390 | with a trailing `/` the legacy `rm` deletes exactly what the current recursive `rm` deletes |
| `LegacyGsWrap.UploadsAll` | gs_wrap/__init__.py:296-318 | the legacy upload loop submits one upload per entry of `upload_files`, in order, and skips nothing |
| `LegacyGsWrap.PlanLegacyUpload` | gs_wrap/__init__.py:273-318 | the legacy `_upload` walks every non-file source, and names keys by "exactly one file" in place of "the source is a file" |
| `LegacyGsWrap.LegacyFileUploadAsCurrent` | gs_wrap/__init__.py:282-301 | a file source is uploaded as the current `_upload` uploads it without no-clobber |
| `LegacyGsWrap.LegacyWalkedUpload` | gs_wrap/__init__.py:285-318 | a walked file goes to the destination itself when it is the only file and there is no trailing `/`; to `<dst>/<dir name>/<rel>` with several files and a trailing `/`; to `<dst>/<rel>` otherwise; it is read from `<src>/<rel>`; under the corrected first-occurrence cut |
| `LegacyGsWrap.LegacyClient.constructor` | gs_wrap/__init__.py:91-100 | the client starts with the named bucket active, fetched once |
| `LegacyGsWrap.LegacyClient.ChangeBucket` | gs_wrap/__init__.py:110-118 | the bucket is refetched exactly when the name differs from the active one, and the active bucket is returned; a missing bucket raises `NotFound` |
| `LegacyGsWrap.LegacyClient.Ls` | gs_wrap/__init__.py:157-202 | a wildcard or a local address is rejected; otherwise the bucket becomes active and the answer is the merged listing with the `dont_recurse` delimiter, as `gs://` URLs; a missing bucket leaves the active one; the service is asked for the bucket exactly when the address is a cloud URL without wildcards whose bucket is not active |
| `LegacyGsWrap.LegacyClient.Rm` | gs_wrap/__init__.py:370-392 | a rejected address or a missing bucket leaves the service and the active bucket; otherwise the bucket becomes active and loses exactly the blobs under the key, and an empty match is no error; the requests are those of `ls` |
| `Findings.DownloadNameAsWritten` | gswrap/__init__.py:510-516 | the name `_download` gives a file when every occurrence of the parent key is cut; at the bucket root it agrees with the corrected rule |
| `Findings.DownloadNameLosesLetters` | gswrap/__init__.py:510-516 | blob `a/data` under parent key `a` is named `dt` as written, and `data` by the corrected rule |
| `Findings.UploadRelativeAsWritten` | gswrap/__init__.py:393-401 | the relative name `_upload` gives a walked file when every occurrence of the top is cut; for an empty top it agrees with the corrected rule |
| `Findings.UploadNameLosesDots` | gswrap/__init__.py:393-401 | walking `.` yields `./a.txt`, which is named `atxt` as written and `a.txt` by the corrected rule |
| `Findings.CpListingAsWritten` | gswrap/__init__.py:325-329 | the recursive listing of `_cp` takes every blob starting with the bare key, sibling keys included; the non-recursive listing is the corrected one |
| `Findings.CpTakesSibling` | gswrap/__init__.py:325-361 | copying `gs://b/a` recursively to `gs://b/out` also takes `ab/y`, and writes it to `out/y`, where `a/y` would go |
| `Findings.ParentDirAsWritten` | gswrap/__init__.py:488-494 | the directory `_download` creates for a blob when the parent key is replaced everywhere; for a blob directly in the source's parent it is the destination |
| `Findings.ParentDirOfTopLevel` | gswrap/__init__.py:488-494 | for a top-level source (parent key '') the blob `d/x` into `out` gives `outdout` as written and `out/d` by the corrected rule |
| `Findings.FetchesAsWritten` | gswrap/__init__.py:477-525 | the placeholder timing as written: the no-clobber test is made after the placeholder is written; when the destination exists this agrees with the corrected plan |
| `Findings.NoClobberIntoMissing` | gswrap/__init__.py:477-525 | with no-clobber and a missing destination nothing is downloaded as written, and every listed blob by the corrected rule |

## Left out

- Network calls to the storage client are left out. Bucket contents are a map given to the client, and the listing is a pure function of a bucket's keys.
- `Listing.Objects`: it ignores `versions=True` and lists each name once, as if the bucket kept no old versions.
- The thread pools of `_cp`, `_upload`, `_download` and `rm` are left out. Their futures are never awaited, so a plan is modelled as the sequence of submitted units in submission order.
- The `NotFound` that `rm` swallows around its deletions (gswrap/__init__.py:586-587; gs_wrap/__init__.py:391-392) is left out. The current `rm` selects the exact blob twice when the address has a trailing `/` and a placeholder `<key>/` exists. The second delete then raises, and `rm` swallows it. That delete is the last one, so the bucket ends up the same as with deleting the selection as a set, which is what `GsWrap.Client.Rm` states.
- `Remove.RmOnce`: requires an address without a trailing `/`, because with one the exact placeholder is listed twice (see the previous line).
- Filesystem effects are left out: `os.walk`, `shutil.copy`, `copytree`, `mkdir` and the placeholder text. When `mkdir` raises `NotADirectoryError`, the placeholder (if one was written) and the directories created before the failing one stay on disk; the model's error does not record them (`Download.SelectMissingDirs` states which ones they are). The filesystem is given as the sets of files and directories before the call and the walk's relative paths. Plans say what would be written.
- `Download.PlanDownload`: tests no-clobber against the files that existed before the call. The code tests after writing the placeholder; see the findings. It also names files and directories by the corrected first-occurrence cut; as written: `Findings.DownloadNameAsWritten` and `Findings.ParentDirAsWritten`.
- `Download.StripParent`: states the corrected first-occurrence cut. The code (gswrap/__init__.py:511-513) cuts every occurrence; as written: `Findings.DownloadNameAsWritten`.
- `Download.Named`, `Download.NeededDirs`, `Download.CollectParentDirs`, `Download.SubmitDownloads`, `Download.DownloadedFile`: use the corrected first-occurrence cut; as written: `Findings.DownloadNameAsWritten` and `Findings.ParentDirAsWritten`.
- `Upload.WalkedFileNames`: uses the corrected first-occurrence cut of the walk's top. The code (gswrap/__init__.py:395-397) cuts every occurrence, so a top of `.` changes the names; as written: `Findings.UploadRelativeAsWritten`.
- `Upload.UploadDirectoryFile`: its `<dst>/<rel>` target holds under the corrected cut; as written: `Findings.UploadRelativeAsWritten`.
- `Upload.CollectWalked`, `Upload.PlanUpload`, `Upload.UploadRelativeOfWalk`: use the corrected first-occurrence cut; as written: `Findings.UploadRelativeAsWritten`.
- `LegacyGsWrap.LegacyWalkedUpload`: its targets hold under the corrected cut; the legacy code (gs_wrap/__init__.py:290) cuts every occurrence; as written: `Findings.UploadRelativeAsWritten`.
- `LegacyGsWrap.PlanLegacyUpload`: uses the corrected first-occurrence cut; as written: `Findings.UploadRelativeAsWritten`.
- `Findings.FetchesAsWritten`: models only the placeholder timing as written. It names files by the corrected `Download.Named`; the as-written names are `Findings.DownloadNameAsWritten`.
- `GsWrap.Client.Cp`, `GsWrap.Client.CpRemote`, `GsWrap.Client.CpDownload`, `GsWrap.Client.CpUpload`: use the corrected rules above, and the recursive `_cp` listing without siblings (`CopyRemote.CpListing`; as written: `Findings.CpListingAsWritten`).
- `Remove.RmTargets`: at the bucket root the exact key is '', and the code calls `bucket.get_blob('')` (gswrap/__init__.py:558). The storage client likely rejects that name before anything is deleted. The model instead deletes the whole bucket for a recursive `rm` of the root.
- `Download.PlanDownload`: the mkdir loop (gswrap/__init__.py:497-501) creates directories before the no-clobber test (line 524), and a directory satisfies `exists()`. So under no-clobber, a blob whose file path is another blob's directory (keys `a/x` and `a/x/y`) is skipped by the code but planned by the model. `Findings.FetchesAsWritten` shares this gap.
- `GsWrap.Client.constructor`: models `Client()` only. `Client(bucket_name)` is `Client()` followed by `ChangeBucket(bucket_name)`.
- `LegacyGsWrap.LegacyClient.constructor`: requires the named bucket to exist. The `NotFound` the legacy constructor raises for a missing bucket is not modelled.
- `Urls.Classify`, `LegacyGsWrap.LegacyClassify` (which calls it): model only the shape `gs://<authority><path>`, plus local paths taken whole. The `urllib.parse` grammar, e.g. an upper-case scheme such as `GS://b/k` (cloud in both sources, local in the model), `;params`, `?query`, `#fragment` and other schemes, is not modelled.
- `pathlib` corners are left out: `..`, a preserved leading `//`, and Windows paths.
- `Paths` models `pathlib.PurePosixPath`. `exists()`, `is_file()` and `is_dir()` are the filesystem parameters.
- Error messages are left out. Each raised exception is one constructor of `Errors.Error`.
- `project` and credentials of the storage client are left out.
- `get_client`, `get_bucket` and `mb` of the legacy client are left out. They pass through to the storage client.
- The legacy `cp` dispatch, its `_cp` loop, its `_download` and its local-to-local branch are left out. They fall outside the legacy rules modelled here: classification, `_ls`, restructuring, upload naming and `rm` selection.
- Features with no implementation in these files are not invented: `stat`, `same_md5`, `same_modtime`, `md5_hexdigests`, `long_ls`, `cp_many_to_many`, `read_*`/`write_*` and `preserve_posix`.
- `Remove.RmSound`: Dafny proves it and `Remove.RmComplete` from `RmTargets`'s body and the contract of `Listing.Objects` without further proof; `RmTargets`'s own recursive clause says only that the selection succeeds. They are kept as the statements of the recursive selection.
- `CopyRemote.CpListing`, `CopyRemote.PlanCp`: the recursive listing is corrected; as written: `Findings.CpListingAsWritten`. The non-recursive listing is left as written, so a sibling object `<key>x` counts towards the fan-out guard.
- A `NotFound` raised part-way through a batch and aborting the remaining deletions is not modelled. Only the case described above, a deletion selected twice, is covered.

## Findings

| source | as written | input that shows it | evidently intended | confidence | as-written member | corrected member |
|---|---|---|---|---|---|---|
| gswrap/__init__.py:510-516 | `str.replace` cuts every occurrence of the source parent's key out of the blob name | downloading `gs://b/a/data` to a directory: parent key `a` turns `a/data` into `/dt`, so the file is `<dir>/dt` | cut only the leading parent key, so the file is `<dir>/data` | not executed | `Findings.DownloadNameLosesLetters` | `Download.DownloadedFile` |
| gswrap/__init__.py:393-397 | `str.replace` cuts every occurrence of the walk's top out of each walked path (so does gs_wrap/__init__.py:290) | `cp -r . gs://b/x`: the walked `./a.txt` loses every `.` and is uploaded as `x/atxt` | cut only the leading top, so the upload is `x/a.txt` | not executed | `Findings.UploadNameLosesDots` | `Upload.UploadRelativeOfWalk` |
| gswrap/__init__.py:325-329 | a recursive `_cp` lists by the bare key, which also matches sibling keys (the legacy `_cp` at gs_wrap/__init__.py:262-264 does the same) | keys `a/x`, `ab/y`; `cp -r gs://b/a gs://b/out` copies `ab/y` to `out/y`, the name `a/y` would get | copy only the key itself and what lies below `a/` | not executed | `Findings.CpTakesSibling` | `CopyRemote.CpListing` |
| gswrap/__init__.py:491-494 | `str.replace` of the parent key by the destination; at the bucket root the key is '', which matches between every two characters | downloading `gs://b/d` (parent key '') into `out`: the blob `d/x` has parent `d`, which becomes `outdout`, and `_download` creates that directory | the blob's directory placed below the destination: `out/d` | not executed | `Findings.ParentDirOfTopLevel` | `Download.DownloadedFile` |
| gswrap/__init__.py:477-525 | the placeholder for a missing destination is written before the no-clobber test, which then finds the destination existing | `cp('gs://b/f', 'newfile', no_clobber=True)` with `newfile` missing: the placeholder text is written and the download is skipped | test no-clobber against what existed before the call, so the blob is downloaded | not executed | `Findings.NoClobberIntoMissing` | `Download.PlanDownload` |
