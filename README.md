# serverfiles — a Dafny model of the local file cache

`serverfiles.py` mirrors an HTTP file repository on the local disk. The
server (`ServerFiles`) publishes files, each with a JSON *info* record
served at the file's path with `.info` appended. The local mirror
(`LocalFiles`) keeps every downloaded artifact `P` under its cache directory,
next to a sidecar file `P.info` that holds a copy of the server's info for
`P`. The model covers these parts:

- **Downloading.** An artifact is downloaded either as is, or, when its info
  names a `compression`, into `P.tmp` and then unpacked. A tar archive
  becomes the directory `P`; a `gz` or `bz2` stream becomes the file `P`.
- **Reading the cache.** The cache reads an artifact's sidecar back, lists
  the entries below a path, and decides by comparing the sidecar's and the
  server's `datetime` stamps whether an entry is stale.
- **Updating and removing.** The cache updates one entry or every listed
  entry, and removes an entry together with its sidecar.
- **Locks.** Each absolute path gets one lock from a process-wide registry,
  which `download`, `localpath_download` and `remove` take.
- **Helpers.** The model also covers the small helpers the cache relies on:
  - the link collector of the server's HTML index pages;
  - the server-side listing and info rules;
  - `_split_path`;
  - the substring search over tags, titles and names.

Modules, one per part of the program:

- `Results`: `Option`, `Result`, and the Python exceptions the code can raise.
- `Text`: string predicates, `join`, and ASCII `lower`.
- `Paths`: `os.path.split` and `_split_path`.
- `Formats`:
  - bytes and JSON values;
  - the `"%Y-%m-%d %H:%M:%S"` timestamps and their ordering.
- `FileSystem`: the cache directory as a map from name sequences to files and
  directories, with the `os`, `shutil` and `tarfile` operations the cache
  performs as functions on it.
- `Libraries`: the library code the source calls (`json`, `gzip`, `bz2`,
  `tarfile`, `HTMLParser`, `unquote`), as function values of a `Library`
  record.
- `Links`: `_FindLinksParser`.
- `Remote`: `ServerFiles` as the responses of an abstract server.
- `Locks`: `_keyed_lock`.
- `Cache`:
  - the effect of each `LocalFiles` operation as a function of the disk
    before it;
  - the class `LocalFiles`, whose methods perform the source's steps one at
    a time and are proved to produce exactly those effects.
- `CacheProperties`: what a download, an update and a removal do to the
  cache.
- `Search`: `_search`, as a method with nested loops proved against a
  recursive specification, with lemmas about that specification.

Exceptions are values: each operation returns the disk it leaves behind
together with the exception it raised, if any, so partial effects before an
exception stay visible. A path is given relative to the cache directory as
its sequence of names. `LocalFiles.root` holds the cache directory itself.

## Model

| member | source | states |
|---|---|---|
| Links.FindLinksParser.constructor | serverfiles.py:84-86 | a new parser has no links |
| Links.FindLinksParser.HandleStartTag | serverfiles.py:88-96 | the links grow by exactly the unquoted values of the kept `href` attributes of an `<a>` tag, in order; other tags add nothing |
| Links.FindLinksParser.Feed | serverfiles.py:122-125 | feeding a page appends the links of its start tags in order |
| Links.HrefLinks | serverfiles.py:90-96 | the unquoted values of an attribute list's kept `href` attributes, in order; which values these are is stated by Links.HrefLinksMembership |
| Links.PageLinks | serverfiles.py:88-96 | the links of a page's start tags, tag after tag; which values these are is stated by Links.PageLinksMembership |
| Links.HrefLinksMembership | serverfiles.py:88-96 | a value is collected from an attribute list iff some `href` attribute not starting with `?`, `/`, `.` or `__` unquotes to it |
| Links.PageLinksMembership | serverfiles.py:88-96 | a value is collected from a page iff some `<a>` tag carries a kept `href` that unquotes to it |
| Remote.UrlNamesOnePage | serverfiles.py:209-213 | the URL `"/".join(path)` of a request determines its path of proper names and back, so the server's pages can be looked up by those names |
| Remote.Open | serverfiles.py:209-216 | the response the server gives for `"/".join(path)`; a path it has no page for answers 404 |
| Remote.Info | serverfiles.py:199-207 | the info is fetched from the path with `.info` appended to its last name; a non-200 answer gives `{}`; a 200 answer whose body `json` parses to `i` gives `i`, and one whose body does not parse raises `ValueError`; an empty path raises `IndexError` |
| Remote.Fetch | serverfiles.py:140-173 | 404 raises `FileNotFoundError` and any other status but 200 raises `IOError`; with 200, a missing `content-length` raises `TypeError` and one that is not a number raises `ValueError`; the transfer succeeds exactly in the remaining case, and then delivers the body when the announced size is positive and nothing otherwise |
| Remote.FileEntries | serverfiles.py:126 | every listed path is `args` plus one link that ends neither in `/` nor in `.info`, and every such link is listed |
| Remote.ListFiles | serverfiles.py:120-133 | the file entries of the index at `args`, followed, when recursive, by the listings of its sub-directory links; what it reports is stated by Remote.ListFilesReportsFiles, Remote.ListFilesReportsEveryFileLink, Remote.ListFilesIncludesSubListings and Remote.ListFilesFlat |
| Remote.Descend | serverfiles.py:127-132 | the listings of the sub-directory links, in link order, each below `args` plus the link stripped of `/`; what it reports is stated by Remote.DescendReportsFiles and Remote.DescendIncludes |
| Remote.ListFilesIncludesSubListings | serverfiles.py:127-132 | a finished recursive listing descends into every sub-directory link of the index: the listing below the link, stripped of `/`, finishes too and everything it reports is reported |
| Remote.DescendIncludes | serverfiles.py:127-132 | the listing below each sub-directory link finishes and lies inside the recursion's result |
| Remote.ListFilesFlat | serverfiles.py:120-126 | a listing that does not recurse is the file entries of the index, each an immediate child of `args` |
| Remote.ListFilesReportsFiles | serverfiles.py:120-133 | every path a listing reports, recursive or not, lies strictly below `args` and ends in a file link; no directory and no `.info` file is reported |
| Remote.DescendReportsFiles | serverfiles.py:127-132 | the recursion into sub-directory links reports only file paths below `args` |
| Remote.ListFilesReportsEveryFileLink | serverfiles.py:120-133 | every file link of the index at `args` is reported |
| Locks.LockRegistry.constructor | serverfiles.py:219-222 | a new registry holds no lock |
| Locks.LockRegistry.GetLock | serverfiles.py:224-227 | the key gets its registered lock; a lock is created only for a new key and differs from every existing lock; other keys keep their locks |
| Locks.SameKeySameLock | serverfiles.py:219-227 | two requests for one key return the same lock, even with a request for another key between them; different keys get different locks; the key set only grows |
| Paths.Split | serverfiles.py:237 | `os.path.split`: the tail has no separator; for a relative path the head is empty iff the path has no separator, and otherwise the head is shorter than the path |
| Paths.SplitPath | serverfiles.py:234-241 | the loop returns `SplitPathOf(p)`, the segments in order; it requires a relative path, the only kind for which the loop ends |
| Paths.SplitPathOfJoin | serverfiles.py:234-241 | for non-empty segments without separators, splitting their `/`-join gives back exactly those segments |
| Formats.ParseStamp | serverfiles.py:364-367 | a stamp parses only if it has the 19-character `%Y-%m-%d %H:%M:%S` shape and names a real calendar time; which texts parse, and to what, is stated by Formats.ParseFormatted and Formats.FormatParsed |
| Formats.ParseFormatted | serverfiles.py:361-367 | every calendar time, written in the `%Y-%m-%d %H:%M:%S` form, parses back to itself |
| Formats.FormatParsed | serverfiles.py:361-367 | every text that parses is the `%Y-%m-%d %H:%M:%S` form of the time it parses to |
| Formats.StampOf | serverfiles.py:364-367 | the `datetime` value cut to 19 characters and parsed; a string that does not parse raises `ValueError`, a value that is not a string raises `TypeError` |
| Formats.Later | serverfiles.py:368 | `dt_server > dt_local`: the order of the fields from year down to second; Formats.LaterIsTextOrder states what it means for the stamp texts |
| Formats.LaterIsTextOrder | serverfiles.py:364-368 | for two stamp texts that parse, the first parsed time is later than the second exactly when the first text comes after the second in character order |
| FileSystem.ReadFile | serverfiles.py:65-67 | reading succeeds iff the path is a file, and it returns that file's content |
| FileSystem.MakeDirs | serverfiles.py:75-79 | `_create_path` only adds directories, all of them prefixes of the target; it keeps the disk a tree; the target is a directory afterwards unless a file is in the way |
| FileSystem.MakeDir | serverfiles.py:299-302 | `os.mkdir` with errors swallowed either changes nothing or adds the one directory |
| FileSystem.WriteFile | serverfiles.py:172-173 | writing succeeds iff the parent is a directory and the target is not a directory; the target then holds exactly the data |
| FileSystem.RemoveFile | serverfiles.py:402-403 | `os.remove` succeeds iff the path is a file that may be deleted, and it removes only that path |
| FileSystem.RemoveTree | serverfiles.py:400 | `shutil.rmtree` removes exactly the subtree at the path, or fails when part of it may not be deleted |
| FileSystem.Extract | serverfiles.py:303 | `extractall` places every archive member under the target and keeps the disk a tree |
| FileSystem.Graft | serverfiles.py:303 | every member is placed at target plus its relative path; paths outside the target are unchanged; new paths lie under the target |
| FileSystem.AncestorsAreDirs | serverfiles.py:329 | on a consistent disk every proper prefix of an entry is a directory |
| Cache.LocalFiles.Localpath | serverfiles.py:274-276 | for a path of proper names, the local location lies inside the cache directory, and `path` can be read back from it |
| Cache.LocalFiles.LocalpathInjective | serverfiles.py:274-276 | two paths of proper names share a local location exactly when they are the same path |
| Cache.LocalFiles.LockFile | serverfiles.py:255-259 | the lock taken is the registry's lock for the local location, which is the only key added, and every other key keeps its lock |
| Cache.LocalFiles.SharedLock | serverfiles.py:255-270 | two locked operations, whatever runs between them, take the same lock exactly when their paths, both of proper names, are equal |
| Cache.LocalInfo | serverfiles.py:342-345 | succeeds iff the sidecar is a file whose content parses, and returns that parse; a missing sidecar raises `FileNotFoundError` |
| Cache.LocalStamp | serverfiles.py:363-365 | the sidecar's info, then its `datetime` parsed; each step's exception escapes |
| Cache.RemoteStamp | serverfiles.py:366-367 | a server without info for the path gives `{}`, so reading its stamp raises `KeyError` |
| Cache.Freshness | serverfiles.py:362-368 | the body of the `try`: local stamp first, then the server's, then whether the server's is later; the first exception escapes |
| Cache.NeedsUpdate | serverfiles.py:357-372 | `True` when the sidecar is missing or either info lacks `datetime`; when both stamps parse, whether the server's is later, so `False` exactly when it is not; any other exception of the local side, and then of the server's side, escapes |
| Cache.DeleteTemp | serverfiles.py:311 | deleting `P.tmp` succeeds iff it is a file, and it removes only that file |
| Cache.CodecOf | serverfiles.py:297-309 | the branch of `download` a `compression` value selects: the two tar values, `gz`, `bz2`, or none |
| Cache.DocumentedCompressionsAreUnknown | serverfiles.py:297-307 | the values `.bz2`, `.gz`, `.tar.gz` and `.tar.bz2` select no branch |
| Cache.ExtractTar | serverfiles.py:297-303 | the tar branch keeps the disk a tree |
| Cache.Decompress | serverfiles.py:304-311 | the `gz`/`bz2` branch keeps the disk a tree |
| Cache.Materialize | serverfiles.py:296-311 | the extraction branch keeps the disk a tree |
| Cache.Store | serverfiles.py:290-294 | the fetch into the destination followed by the sidecar write; the first exception escapes; its effects are stated by Cache.StoreWrites, Cache.StoreFrame and Cache.StoreValid |
| Cache.StoreWrites | serverfiles.py:290-294 | with the parent directories made: when the writes succeed, the fetch succeeded, the destination holds the payload and the sidecar holds the dumped info |
| Cache.Transfer | serverfiles.py:290-294 | keeps the disk a tree; a failed fetch raises its own exception; on success the fetch succeeded, the destination holds the payload and the sidecar holds the dumped info |
| Cache.DownloadEffect | serverfiles.py:286-311 | keeps the disk a tree; an info request that raises leaves the disk unchanged and raises the same exception; when the info is read but the fetch fails, the fetch's exception is raised |
| Cache.ExtractTarFrame | serverfiles.py:297-303 | the tar branch changes only the artifact, what is below it and `P.tmp` |
| Cache.DecompressFrame | serverfiles.py:304-311 | the `gz`/`bz2` branch changes only the artifact and `P.tmp` |
| Cache.MaterializeFrame | serverfiles.py:296-311 | extraction changes only the artifact, what is below it and `P.tmp` |
| Cache.TransferFrame | serverfiles.py:290-294 | the transfer changes only the destination and the sidecar, and creates only missing parent directories |
| Cache.StoreFrame | serverfiles.py:290-294 | the two writes of a transfer change only the destination and the sidecar |
| Cache.StoreValid | serverfiles.py:290-294 | the two writes of a transfer keep the disk a tree |
| Cache.DownloadTouchesOnlyEntry | serverfiles.py:286-311 | for archives whose members are proper names, a download of any outcome changes only `P`, what is below it, `P.tmp` and `P.info`, and creates only missing parent directories |
| Cache.SentFrame | serverfiles.py:290-294 | a transfer's changes stay within the entry's paths |
| Cache.ChainedFrames | serverfiles.py:290-311 | a transfer followed by an extraction changes only the entry's paths |
| Cache.SuffixWellNamed | serverfiles.py:291 | appending `.tmp` or `.info` to the last name keeps a path well named |
| Cache.AppendDistinct | serverfiles.py:334 | appending a new entry keeps the listing free of duplicates |
| Cache.StemOfSidecar | serverfiles.py:331 | stripping `.info` from an entry's sidecar gives back the entry |
| Cache.SidecarOfStem | serverfiles.py:331 | appending `.info` to the stem of a name ending in `.info` gives back the name |
| Cache.SidecarOfListed | serverfiles.py:331-337 | a walked file is the sidecar of a listed entry exactly when it passes the source's test |
| Cache.EntryAsWritten | serverfiles.py:331-337 | the entry the source derives from one walked file, with the stem joined to the walked directory and normalised as `os.path.relpath` does: an empty stem or `.` names the walked directory, `..` its parent, and `..` above the listed directory is reported as `..`; the lemmas below state how it differs from the corrected listing |
| Cache.ListingStep | serverfiles.py:330-339 | each walked file adds its entry, if it has one, and keeps the listing free of duplicates |
| Cache.RelativeSplit | serverfiles.py:335-336 | `path + _split_path(relpath(entry, path))` is the entry itself |
| Cache.BareInfoFileListsItsDirectory | serverfiles.py:331-337 | as written, a file named exactly `.info` in directory `sub` makes `listfiles` report `sub`, which has no sidecar |
| Cache.DotInfoListsItsDirectory | serverfiles.py:331-337 | as written, a file named `..info` in directory `sub` makes `listfiles` report `sub`, which has no sidecar |
| Cache.DotDotInfoListsTheListedDirectory | serverfiles.py:331-337 | as written, a file named `...info` in directory `sub` makes `listfiles()` report `.`, the listed directory itself |
| Cache.DotDotInfoEscapesTheListing | serverfiles.py:331-337 | as written, a file named `...info` in the listed directory makes `listfiles()` report `..`, a path above the listing |
| Cache.AsWrittenAgreesOnSidecars | serverfiles.py:331-337 | for every sidecar whose stem is a proper name (not empty, `.` or `..`), the source's entry is the corrected listing's entry |
| Cache.UpdateEffect | serverfiles.py:374-379 | updating keeps the disk a tree |
| Cache.UpdateEach | serverfiles.py:389-391 | `update` on each entry in turn, stopping at the first exception; Cache.LocalFiles.UpdateAll is proved to perform it |
| Cache.UpdateEachAt | serverfiles.py:389-391 | updating the entries from position `i` updates entry `i`, then the rest unless it raised |
| Cache.DeleteArtifact | serverfiles.py:399-402 | deleting the artifact removes its subtree or the single path |
| Cache.RemoveEffect | serverfiles.py:393-407 | removing keeps the disk a tree |
| Cache.LocalFiles.constructor | serverfiles.py:246-253 | the cache starts on a consistent disk |
| Cache.LocalFiles.ExtractTarInPlace | serverfiles.py:297-303 | the in-place tar branch leaves the disk and exception `ExtractTar` gives |
| Cache.LocalFiles.DecompressInPlace | serverfiles.py:304-311 | the in-place `gz`/`bz2` branch leaves the disk and exception `Decompress` gives |
| Cache.LocalFiles.RemoveTemp | serverfiles.py:311 | deletes `P.tmp` as `DeleteTemp` gives |
| Cache.LocalFiles.MaterializeInPlace | serverfiles.py:296-311 | the in-place extraction branch leaves the disk and exception `Materialize` gives |
| Cache.LocalFiles.DownloadUnwrapped | serverfiles.py:286-311 | the steps of `download` leave exactly the disk and exception of `DownloadEffect`, and keep the cache consistent |
| Cache.LocalFiles.Download | serverfiles.py:278-311 | as `DownloadUnwrapped`, after taking the lock for the local path, which is the only registry change; other keys keep their locks |
| Cache.LocalFiles.LocalpathDownload | serverfiles.py:313-322 | under the lock, an existing local path is returned with the disk unchanged; otherwise the download runs and its exception, if any, escapes |
| Cache.LocalFiles.ListFiles | serverfiles.py:324-340 | the result holds exactly the entries below `path` whose artifact exists and whose sidecar is a file that parses, each once |
| Cache.LocalFiles.Update | serverfiles.py:374-379 | downloads exactly when `NeedsUpdate` answers `True`, and raises what `needs_update` raises; at most the path's own lock is added and every existing lock is kept |
| Cache.LocalFiles.UpdateAll | serverfiles.py:389-391 | updates every listed entry in turn and stops at the first exception; every existing lock is kept |
| Cache.LocalFiles.Remove | serverfiles.py:393-407 | under the lock, leaves exactly the disk, exception and printed error of `RemoveEffect` |
| CacheProperties.ParentsReady | serverfiles.py:140 | creating the parent directories keeps every path of the entry and makes the parent a directory |
| CacheProperties.TransferPlaces | serverfiles.py:290-294 | on a disk that can hold the entry, the transfer succeeds iff the fetch does, and leaves the payload at the destination and the info in the sidecar |
| CacheProperties.StorePlaces | serverfiles.py:290-294 | in a directory that can hold them, the writes succeed iff the fetch does |
| CacheProperties.DownloadWithoutExtraction | serverfiles.py:286-294 | without extraction the payload lands at `P` and the server's info in `P.info` |
| CacheProperties.DecompressPlaces | serverfiles.py:304-311 | decompression into a non-directory succeeds and leaves the data at the target with `P.tmp` gone |
| CacheProperties.ExtractionFollowsTransfer | serverfiles.py:288-311 | with extraction, a successful transfer is followed by the extraction of the fetched payload |
| CacheProperties.TransferKeepsArtifact | serverfiles.py:290-292 | the transfer to `P.tmp` leaves `P` as it was |
| CacheProperties.TransferKeepsBelow | serverfiles.py:290-292 | the transfer to `P.tmp` leaves every path below `P` as it was |
| CacheProperties.ExtractionKeepsSidecar | serverfiles.py:296-311 | extraction leaves the sidecar as written |
| CacheProperties.DownloadDecompressed | serverfiles.py:286-311 | with `gz` or `bz2`, `P` holds the decompressed payload, `P.tmp` is gone and `P.info` holds the info |
| CacheProperties.ExtractTarPlaces | serverfiles.py:297-303 | extracting an archive whose members do not clash places every member under the target |
| CacheProperties.TargetReady | serverfiles.py:299-302 | making the target directory keeps `P.tmp` and the kinds of the paths below the target |
| CacheProperties.GraftPlaces | serverfiles.py:303 | extracting into a directory without clashes succeeds, keeps the directory and keeps `P.tmp` |
| CacheProperties.DownloadExtractedTree | serverfiles.py:286-311 | with `tar.gz` or `tar.bz2`, `P` becomes a directory holding every archive member, `P.tmp` is gone and `P.info` holds the info |
| CacheProperties.FailedFetchWritesNothing | serverfiles.py:143-146 | when the info or the transfer fails, the info's `ValueError` or else the fetch's own exception (`FileNotFoundError` for a 404, `OSError` for another status) is raised, and no sidecar and no payload is written |
| CacheProperties.UnknownCompressionKeepsTemp | serverfiles.py:296-310 | an unknown `compression` raises `UnboundLocalError` and leaves `P.tmp` and `P.info` in place |
| CacheProperties.DownloadThenInfo | serverfiles.py:342-345 | after a completed download, the local info equals the server's info |
| CacheProperties.DownloadThenUpToDate | serverfiles.py:357-372 | after a completed download, `needs_update` answers `False` whenever the server's stamp parses |
| CacheProperties.RemoveOnlyDeletes | serverfiles.py:393-407 | `remove` raises iff the sidecar is missing, and then changes nothing; it only deletes the artifact, what is below it and the sidecar; when a deletion fails the sidecar remains |
| CacheProperties.SubtreeOfNonDirectory | serverfiles.py:401-402 | the subtree of a file is the file alone |
| CacheProperties.RemoveDeletesEntry | serverfiles.py:398-403 | when nothing is protected, `remove` deletes exactly the artifact, its subtree and the sidecar |
| CacheProperties.RemoveThenNeedsUpdate | serverfiles.py:357-407 | after a complete removal, `needs_update` answers `True` |
| Search.TagsText | serverfiles.py:415 | the tags text is `""` without tags; it raises `TypeError` iff the tags are neither a string nor a list of strings |
| Search.TitleText | serverfiles.py:416 | raises iff the title is not a string, and is that string otherwise |
| Search.Folded | serverfiles.py:418-423 | helper: folding keeps the length; what folding does to occurrences is stated by Search.OccursAfterPrefix |
| Search.Haystack | serverfiles.py:414-418 | helper: raises iff a selected field is malformed, and its length is the sum of the selected parts; which strings it contains is stated by Search.SearchMembership and Search.JoinContainsParts |
| Search.SearchSpec | serverfiles.py:410-431 | the paths of the files whose text contains every search string, in listing order, or the first exception a file's fields raise; its meaning is stated by Search.SearchMembership, Search.SearchKeepsOrder and Search.SearchFailsOnBadField |
| Search.Search | serverfiles.py:410-431 | the nested loops return exactly `SearchSpec` |
| Search.ErrorPersists | serverfiles.py:413-418 | once a file raises, the whole search raises the same exception |
| Search.SearchFailsOnBadField | serverfiles.py:413-418 | the search raises iff some file has a malformed selected field |
| Search.SearchMembership | serverfiles.py:413-429 | a path is found iff it is the path of a file whose text contains every search string |
| Search.SearchKeepsOrder | serverfiles.py:411-431 | the result is a subsequence of the listing's paths, in the listing's order |
| Search.SubsequenceExtend | serverfiles.py:428-429 | appending a path to the listing, kept or not, keeps the result a subsequence |
| Search.EmptyQueryFindsAll | serverfiles.py:420-429 | with no search strings every path is found, in order |
| Search.JoinContainsParts | serverfiles.py:415-417 | each part of a joined text occurs in it |
| Search.OccursAfterPrefix | serverfiles.py:414-418 | text placed before, and folding, keep an occurrence |
| Search.FindsByOwnName | serverfiles.py:417-426 | with names included, searching for one of a file's names finds that file |

## Left out

- HTTP sessions, authentication, certificate checks, timeouts and retries: the server is an abstract map from URL paths to responses.
- Remote.Open: the server's pages are keyed by the names joined into the URL rather than by the URL string; for proper names the two agree (Remote.UrlNamesOnePage), while a link that unquotes to a name holding `/` is looked up as that single name.
- The progress callback of `ServerFiles.download`: it only observes the transfer and works on floating-point ratios.
- `sizeformat`, `allinfo` and both `search` wrappers: they format numbers or only feed `_search` and `info`; `Search.Search` takes the info listing as an ordered sequence.
- The `__main__` demonstration block.
- Real mutual exclusion: the locks are registry entries, and each locked method is one sequential call. `localpath_download` calls the unlocked download, as the source's `unwrapped` does.
- The internals of `json`, `gzip`, `bz2`, `tarfile`, `HTMLParser` and `unquote` are not modelled: they are function values of `Libraries.Library`. Properties that need them to behave assume so explicitly (`JsonRoundTrips`, `ArchivesAreTrees`).
- `os.walk` order: `Cache.LocalFiles.ListFiles` picks the walked files in an unspecified order, so the listing is specified as a duplicate-free sequence of exactly the entries.
- `expanduser`, `realpath`, symbolic links and Orange's `data_dir()`: the cache directory is the fixed name sequence `root`.
- Remote.ListFiles: the recursion is bounded by a `fuel` argument; the source recurses without end when sub-directory links lead back up, and `None` stands for that.
- FileSystem.RemoveTree: a failing `shutil.rmtree` is modelled as deleting nothing, although the real call may have deleted part of the tree already.
- FileSystem.Extract: an archive whose members clash with the disk fails with nothing extracted, whereas `extractall` may have extracted some members.
- Cache.Decompress: a corrupt `gz`/`bz2` stream leaves the target empty; the real copy may leave the part read before the error.
- Cache.LocalFiles.DownloadUnwrapped: the payload to unpack is the fetched payload, not re-read from `P.tmp`.
- Operating-system refusals to delete are the `denied` set given to `Remove`, not a model of permissions.
- Cache.LocalFiles.ListFiles, Update, UpdateAll, Download, LocalpathDownload, DownloadUnwrapped, Remove, Localpath, LockFile and SharedLock, and Cache.RemoveEffect, require a path of proper names. `os.path.join` and `normpath` map names holding `/`, empty names and `.` onto other paths, and `..` out of the cache, so those names are not modelled.
- Cache.LocalInfo, Cache.NeedsUpdate, Cache.LocalFiles.Update and Cache.LocalFiles.Remove require a non-empty path: for the empty path Python reads or deletes `<root>.info`, next to the cache directory and outside the modelled disk.
- Formats.ParseStamp: `strptime` is simplified to the zero-padded 19-character form; variants it also accepts, such as unpadded fields, raise `ValueError` here.
- Search.TagsText: a tags value that is a JSON object is joined over its keys in Python; here it raises `TypeError`.
- `lower()` folds ASCII letters only.
- A sidecar whose JSON is not an object is treated as unparseable.
- Remote.Info: server info whose JSON is not an object raises `ValueError` here; Python returns the list, string or number, and `download` goes on with it.
- Archive members whose names leave the extraction directory (`../x`, `/x`): `extractall` is called without a filter and writes them outside `P`, but `Libraries.Library.untar` yields members relative to `P`, and FileSystem.Graft places them below `P`. Cache.DownloadTouchesOnlyEntry therefore assumes archives of proper names (`ArchivesAreTrees`).
- Links.FindLinksParser.constructor: the model assumes `HTMLParser.__init__` accepts the positional argument `super().__init__(self)` passes, as it did before Python 3.5; from Python 3.5 on it takes only the keyword `convert_charrefs`, so constructing the parser raises `TypeError` and the remote `listfiles` fails before reading a page.
- Links.FindLinksParser.HandleStartTag: an attribute written without a value (`<a href>`) reaches `handle_starttag` as `None`, and `value.startswith` raises `AttributeError`; attribute values are strings here, so that exception is not modelled.
- The code differs from its doc strings in two places, and the model follows the code:
  - `needs_update` promises `True` whenever a version cannot be determined, but lets `ValueError` and `TypeError` from a malformed sidecar or timestamp escape;
  - the module doc string names the compression values `.bz2`, `.gz`, `.tar.gz` and `.tar.bz2`, while `download` compares against `bz2`, `gz`, `tar.gz` and `tar.bz2`; every documented value selects no branch (Cache.DocumentedCompressionsAreUnknown), so `f` stays unbound, `download` raises `UnboundLocalError` and `P.tmp` stays.
- `remove` deletes the artifact and the sidecar inside one `try`: when deleting the artifact fails, the sidecar is not deleted and the error is only printed (CacheProperties.RemoveOnlyDeletes).

## Findings

| source | as written | input that shows it | evidently intended | confidence | as-written member | corrected member |
|---|---|---|---|---|---|---|
| serverfiles.py:331-337 | `f[-5:] == '.info'` accepts a file named exactly `.info`; its stem `f[:-5]` is empty, so `os.path.join(root, "")` is the walked directory, which exists | a cache holding the directory `sub` with a file `sub/.info` inside it | only a sidecar `X.info` whose stem `X` is a proper name names an entry; `sub` has no sidecar `sub.info` | not executed | Cache.BareInfoFileListsItsDirectory | Cache.LocalFiles.ListFiles |
| serverfiles.py:331-337 | a file named `..info` has the stem `.`; `os.path.join(root, ".")` exists and `os.path.relpath` normalises it to the walked directory | a cache holding the directory `sub` with a file `sub/..info` inside it | as above: `sub` has no sidecar and is not listed | not executed | Cache.DotInfoListsItsDirectory | Cache.LocalFiles.ListFiles |
| serverfiles.py:331-337 | a file named `...info` has the stem `..`; `os.path.join(root, "..")` exists and `os.path.relpath` normalises it to the parent of the walked directory | a cache holding the directory `sub` with a file `sub/...info` inside it, listed from the cache directory | nothing is listed; the source reports `.` | not executed | Cache.DotDotInfoListsTheListedDirectory | Cache.LocalFiles.ListFiles |
| serverfiles.py:331-337 | as in the row above, and when the walked directory is the listed one the parent lies outside the listing | a cache holding only a file `...info`, listed from the cache directory | nothing is listed; the source reports `..`, outside the cache | not executed | Cache.DotDotInfoEscapesTheListing | Cache.LocalFiles.ListFiles |
