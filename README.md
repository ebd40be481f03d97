# namespace-notes storage core, modelled in Dafny

This project models the server-side core of namespace-notes:
- the file storage interface and its two implementations;
- the post-processing of `getContext`;
- the upload filter.

The two storage implementations are:
- the DigitalOcean Spaces object store (`SpacesStorage`);
- the local-disk store under `uploads/` (`ServerStorage`).

Modules:

- `Results`: the `Option`, `Result` and `Outcome` wrappers. A promise that resolves is `Ok`/`Pass`; one that rejects is `Err`/`Fail` carrying the error.
- `Strings`: the string operations the code relies on. These are `split`, `join`, `replace`, ASCII `toLowerCase` and decimal rendering, with the round trips between split and join.
- `Storage`: the shared records and the start-up choice of the implementation:
  - `FileDetail`;
  - the uploaded-file handle;
  - the environment;
  - `storageService`.
- `SpacesListing`: the object store's listing with prefix and delimiter, and the recursive `listFilesRecursive`. It proves that a namespace listing visits every key under the namespace exactly once. It also proves which document, name and URL each listed file gets.
- `Spaces`: the `SpacesStorage` class. The bucket (keys in store order, objects) and the local temporary files are fields that its methods update. The remote calls' outcomes are method inputs. It also holds the retry loop of the namespace delete.
- `Disk`: the file system as `fs` and `path` present it. It is a tree of files and directories with their creation order. It covers `existsSync`, `mkdirSync` (recursive), `rename`, `rmdirSync` (recursive), `readdirSync` and `path.join`. The error codes are those of Node 16 and later, where recursive `rmdirSync` on a missing path fails with ENOENT (earlier versions ignored it).
- `Server`: the `ServerStorage` class over a `Disk` tree, with the properties of its listing and deletes.
- `Context`: the score filter, rendering, joining and truncation of `getContext`.
- `Upload`: `path.extname` as Node computes it, the PDF-only `fileFilter`, the temporary file name, and the configured limits.

Two behaviours worth knowing:
- Listing a namespace after deleting it rejects on the disk backend, because the namespace directory is gone (`Server.ListingAfterDeleteFails`). On the object store it gives an empty list (`SpacesListing.EmptyNamespaceListsNothing`).
- The disk backend re-throws the `fs` errors with the codes Node reports: `ENOENT` for a missing path, `ENOTDIR` for a path that is a file or lies below one, `EISDIR`, and `EEXIST` when recursive `mkdirSync` meets a file at the directory itself. The object-store backend's upload and delete failures are represented by one fixed message each (`Spaces.UploadError`, `Spaces.DeleteError`). The TypeErrors of `path.join` on an undefined segment and of reading absent match metadata are modelled by their messages.

## Model

| member | source | states |
|---|---|---|
| Storage.SelectBackend | namespace-notes/server/src/utils/storage/storage.ts:28-34 | The object store is chosen exactly when both credential variables are set and non-empty. Otherwise (either missing or empty) the local disk is chosen. |
| Strings.JoinSplit | namespace-notes/server/src/utils/storage/serverStorage.ts:16-17 | Splitting a key on "/" and joining the pieces with "/" gives the key back. |
| Strings.ReplacePrefix | namespace-notes/server/src/utils/storage/spacesStorage.ts:173 | Replacing the first occurrence of a prefix that the key starts with removes exactly that prefix. |
| Spaces.RetryDelete | namespace-notes/server/src/utils/storage/spacesStorage.ts:125-142 | Makes between 1 and 3 attempts and stops at the first successful one. Every earlier attempt failed. It reports failure only after exactly 3 failed attempts. |
| Spaces.SpacesStorage.SaveFile | namespace-notes/server/src/utils/storage/spacesStorage.ts:26-56 | A successful upload puts the temporary file's bytes at the key; a failed one (including a missing temporary file) is re-thrown and leaves the bucket unchanged. The temporary file is unlinked in both cases, and a failed unlink does not change the outcome. |
| Spaces.SpacesStorage.DeleteFileFromWorkspace | namespace-notes/server/src/utils/storage/spacesStorage.ts:61-86 | With no key under `ns/doc/` it makes no request and succeeds. Otherwise it makes one delete attempt: on success the keys under the prefix are removed and the others kept in order; on failure that failure is propagated and the bucket is unchanged. |
| Spaces.SpacesStorage.DeleteWorkspaceFiles | namespace-notes/server/src/utils/storage/spacesStorage.ts:105-145 | With no key under `ns/` it makes no request. Otherwise the delete is retried as `RetryDelete` does: it succeeds exactly when the last attempt made succeeded, and every earlier attempt failed. On success the keys under the prefix are removed. After 3 failures it rejects with "Failed to delete objects after 3 attempts" and the bucket is unchanged. |
| Spaces.SpacesStorage.GetFilePath | namespace-notes/server/src/utils/storage/spacesStorage.ts:91-93 | Rejects for every key with "Not necessary for Spaces storage". |
| Spaces.SpacesStorage.ConstructFileUrl | namespace-notes/server/src/utils/storage/spacesStorage.ts:98-100 | The URL names the key back: reading the key off the bucket's URL gives exactly `fileKey`. |
| SpacesListing.ConstructFileUrl | namespace-notes/server/src/utils/storage/spacesStorage.ts:98-100 | The URL is the bucket's public base (an unset bucket renders as "undefined") followed by the key. |
| Spaces.SegmentPrefixesDisjoint | namespace-notes/server/src/utils/storage/spacesStorage.ts:65 | The prefixes `base d1/` and `base d2/` of two different "/"-free ids share no key, even when one id extends the other. So deleting one document or namespace never touches another. |
| Spaces.DeleteLeavesNothingUnder | namespace-notes/server/src/utils/storage/spacesStorage.ts:111-119 | After a delete under a prefix, no key is left under it, so a repeated delete lists nothing and does nothing. |
| Spaces.SpacesStorage.ListFilesInNamespace | namespace-notes/server/src/utils/storage/spacesStorage.ts:150-154 | Answers the recursive listing of `ns/` over the current keys. |
| SpacesListing.Contents | namespace-notes/server/src/utils/storage/spacesStorage.ts:163-175 | The Contents of a listing call are exactly the keys directly under the prefix (no further "/"), without repetition. |
| SpacesListing.CommonPrefixes | namespace-notes/server/src/utils/storage/spacesStorage.ts:178-185 | The CommonPrefixes are distinct and one level below the prefix. Every deeper key rolls up to one of them, and each of them comes from some deeper key. |
| SpacesListing.CommonPrefixIsOneLevelBelow | namespace-notes/server/src/utils/storage/spacesStorage.ts:178-185 | The common prefix of a deeper key is the prefix, one "/"-free segment, and "/". |
| SpacesListing.UnderOneLevelBelow | namespace-notes/server/src/utils/storage/spacesStorage.ts:178-185 | A key lies under a common prefix exactly when it rolls up to it. |
| SpacesListing.Visit | namespace-notes/server/src/utils/storage/spacesStorage.ts:159-188 | Every entry the recursive listing of a prefix returns has a key from the bucket that lies under the prefix. |
| SpacesListing.VisitAll | namespace-notes/server/src/utils/storage/spacesStorage.ts:178-185 | Every entry the listings of the common prefixes return has a key from the bucket that lies under the parent prefix. |
| SpacesListing.ToDetail | namespace-notes/server/src/utils/storage/spacesStorage.ts:171-175 | An empty key gives empty fields. Otherwise the URL names the key back, and when the key starts with the listed prefix the name is the key without that prefix. |
| SpacesListing.ListFilesRecursive | namespace-notes/server/src/utils/storage/spacesStorage.ts:159-188 | One detail per listed entry, in listing order, each with a URL that names that entry's key. |
| SpacesListing.VisitKeys | namespace-notes/server/src/utils/storage/spacesStorage.ts:159-188 | The recursive listing of a prefix returns every key under it, nothing else, and no key twice. |
| SpacesListing.VisitAllKeys | namespace-notes/server/src/utils/storage/spacesStorage.ts:178-185 | The listings of distinct common prefixes together return exactly the deeper keys that roll up to them, no key twice. |
| SpacesListing.VisitPlaced | namespace-notes/server/src/utils/storage/spacesStorage.ts:171-185 | Every listed key comes from the bucket and lies directly under the prefix whose call returned it. That prefix extends the starting one and is either the starting one or ends in "/". |
| SpacesListing.VisitAllPlaced | namespace-notes/server/src/utils/storage/spacesStorage.ts:178-185 | The same placement holds for the listings of the common prefixes. |
| SpacesListing.NamespaceListingComplete | namespace-notes/server/src/utils/storage/spacesStorage.ts:150-188 | Listing a namespace gives one detail per key under `ns/`, no key twice. Each detail's name is the key minus the prefix that returned it, its document is the key's second "/"-piece, and its URL is the key's public URL. |
| SpacesListing.PlacedDetail | namespace-notes/server/src/utils/storage/spacesStorage.ts:171-175 | The detail built for a well-placed key has the name, document and URL that `NamespaceListingComplete` promises. |
| SpacesListing.DetailOfStoredKey | namespace-notes/server/src/utils/storage/spacesStorage.ts:171-175 | For a key `ns/doc/name` the listed detail is exactly (doc, name, URL of the key). |
| SpacesListing.EmptyNamespaceListsNothing | namespace-notes/server/src/utils/storage/spacesStorage.ts:150-188 | A namespace with no key under it lists no file. |
| SpacesListing.LastSegmentAfterSlash | namespace-notes/server/src/utils/storage/spacesStorage.ts:173 | The last "/"-piece of a prefix ending in "/" followed by a "/"-free name is that name. |
| SpacesListing.SavedFileIsListed | namespace-notes/server/src/utils/storage/spacesStorage.ts:26-45 | A file stored under `ns/doc/name` appears in the namespace listing as (doc, name, URL of the key). |
| SpacesListing.ListedAt | namespace-notes/server/src/utils/storage/spacesStorage.ts:150-188 | A key under the namespace has a position in the listing, and the detail at that position is as `NamespaceListingComplete` promises. |
| Disk.ReadDir | namespace-notes/server/src/utils/storage/serverStorage.ts:89-92 | `readdirSync` succeeds exactly on a directory and then gives the names of exactly its entries. It fails with ENOTDIR exactly when the path is a file or lies below one, and with ENOENT exactly when it is simply missing. |
| Disk.Entries | namespace-notes/server/src/utils/storage/serverStorage.ts:97 | A name is reported exactly when the directory holds an entry of that name. |
| Disk.SubDirNames | namespace-notes/server/src/utils/storage/serverStorage.ts:89-92 | The `isDirectory()` filter keeps exactly the names of the directory's subdirectories. |
| Disk.MakeDirs | namespace-notes/server/src/utils/storage/serverStorage.ts:24-26 | Recursive `mkdirSync` succeeds exactly when no entry on the way to the directory (the directory included) is a file. The error is EEXIST exactly when that file is the directory itself and ENOTDIR exactly when it lies above it. On success the directory exists, every earlier entry is kept unchanged, and the only new entries are directories on the way to it. |
| Disk.Rename | namespace-notes/server/src/utils/storage/serverStorage.ts:29 | `rename` succeeds exactly when the source is a file and the destination is in an existing directory and is not itself a directory. The source's bytes then sit at the destination, the source is gone, and nothing else changes. A missing source, or a destination whose directory is not a directory, fails with ENOTDIR when the lookup meets a file on the way and with ENOENT otherwise. |
| Disk.RemoveTree | namespace-notes/server/src/utils/storage/serverStorage.ts:56-58 | Recursive `rmdirSync` succeeds exactly on a directory and removes exactly the subtree below it. It fails with ENOTDIR exactly when the path is a file or lies below one. |
| Disk.AncestorIsDir | namespace-notes/server/src/utils/storage/serverStorage.ts:24-29 | In a consistent tree every proper ancestor of an entry is a directory. |
| Server.Domain | namespace-notes/server/src/utils/storage/serverStorage.ts:36-37 | The domain is `SERVER_URL` when it is non-empty, otherwise localhost with `PORT` when that is non-empty, otherwise "http://localhost:4001". |
| Server.FileUrl | namespace-notes/server/src/utils/storage/serverStorage.ts:38 | The URL names the key back: reading the key off the file route gives exactly `fileKey`. |
| Server.SplitKey | namespace-notes/server/src/utils/storage/serverStorage.ts:16-17 | There are no parts exactly when the key has no "/". Otherwise the namespace and the document are "/"-free, and the three parts rejoined with "/" give the key back (with an empty file name when there is only one "/"). |
| Server.KeyRejoins | namespace-notes/server/src/utils/storage/serverStorage.ts:16-17 | A key's "/"-pieces regrouped as namespace, document and the rest joined give the key back. |
| Server.DirsInUploads | namespace-notes/server/src/utils/storage/serverStorage.ts:18-22 | Both the namespace directory and the document directory lie inside `uploads`. |
| Server.PlainDirs | namespace-notes/server/src/utils/storage/serverStorage.ts:18-22 | For plain ids the directories are exactly `uploads/ns` and `uploads/ns/doc`. |
| Server.Prepared | namespace-notes/server/src/utils/storage/serverStorage.ts:24-26 | After the existence check and the creation, the document directory exists, nothing was changed, and only directories on its way were added. |
| Server.SaveEffect | namespace-notes/server/src/utils/storage/serverStorage.ts:18-29 | A successful save moves the temporary file's bytes to the destination and keeps every other entry. The temporary path is gone unless it is the destination itself. The document directory is a directory unless the destination is that very path. Its only new entries are the destination and directories on the way to the document directory. |
| Server.NamespaceListing | namespace-notes/server/src/utils/storage/serverStorage.ts:86-115 | The listing succeeds exactly when the namespace directory exists and is a directory. |
| Server.ListedFilesMembers | namespace-notes/server/src/utils/storage/serverStorage.ts:95-107 | A detail is in the listing of the given documents exactly when its document is one of them, its name is an entry of that document's directory, and its URL is built from `ns/doc/name`. |
| Server.ListingMembers | namespace-notes/server/src/utils/storage/serverStorage.ts:89-107 | A namespace listing holds exactly the files of the namespace's subdirectories, each with its URL. Plain files beside the subdirectories are left out. |
| Server.ListingLength | namespace-notes/server/src/utils/storage/serverStorage.ts:95-107 | The listing has one detail per entry of each document directory: nothing is filtered. |
| Server.ListingAfterDeleteFails | namespace-notes/server/src/utils/storage/serverStorage.ts:54-59 | After the namespace directory is removed, listing the namespace rejects. |
| Server.DeleteKeepsOtherNamespaces | namespace-notes/server/src/utils/storage/serverStorage.ts:54-59 | Removing one namespace keeps every entry of another. |
| Server.DeleteKeepsSiblingDocuments | namespace-notes/server/src/utils/storage/serverStorage.ts:64-81 | Removing one document keeps its siblings, including one whose id extends it. |
| Server.SavedFileIsListed | namespace-notes/server/src/utils/storage/serverStorage.ts:86-107 | A file in the directory of document `doc` of namespace `ns` is in the namespace listing with that document, its name and the URL of `ns/doc/name`. |
| Server.ServerStorage.SaveFile | namespace-notes/server/src/utils/storage/serverStorage.ts:15-30 | A key without "/" fails with the `path.join` TypeError, and the disk is unchanged. Otherwise a failed directory creation changes nothing, and a failed move keeps the created directories. A success has exactly the effect `SaveEffect` states. |
| Server.ServerStorage.ConstructFileUrl | namespace-notes/server/src/utils/storage/serverStorage.ts:35-39 | The URL names the key back under the environment's domain. |
| Server.ServerStorage.GetFilePath | namespace-notes/server/src/utils/storage/serverStorage.ts:44-49 | It succeeds exactly when `uploads/<key>` is a non-empty directory, and then gives the path of its first entry. On an empty directory it rejects with the TypeError. |
| Server.ServerStorage.DeleteWorkspaceFiles | namespace-notes/server/src/utils/storage/serverStorage.ts:54-59 | An absent namespace directory is a no-op. A directory is removed with its whole subtree. A file there fails with ENOTDIR. After a success the directory no longer exists. |
| Server.ServerStorage.DeleteFileFromWorkspace | namespace-notes/server/src/utils/storage/serverStorage.ts:64-81 | The same behaviour as `DeleteWorkspaceFiles`, for the document directory, with the failure re-thrown. |
| Server.ServerStorage.ListFilesInNamespace | namespace-notes/server/src/utils/storage/serverStorage.ts:86-116 | The loop that appends each document's files computes exactly the namespace listing, including its rejection. |
| Context.Qualifying | namespace-notes/server/src/utils/context.ts:31 | A match is kept exactly when it is in the search results with a non-zero score above `minScore`. The result is no longer than the input. |
| Context.QualifyingCounts | namespace-notes/server/src/utils/context.ts:31 | A qualifying match is kept as many times as it occurs, and any other match never. |
| Context.QualifyingAppend | namespace-notes/server/src/utils/context.ts:31 | Filtering keeps the results' order: filtering a concatenation filters each part in turn. |
| Context.Format | namespace-notes/server/src/utils/context.ts:38-41 | For a match with metadata, a line is "REFERENCE URL: ", then the URL, " CONTENT: " and the text. An absent value renders as "undefined". |
| Context.Truncate | namespace-notes/server/src/utils/context.ts:45-47 | The result is a prefix of the text, no longer than the limit (0 for a negative limit). It is the whole text exactly when the text fits or is empty, and otherwise exactly the limit long. |
| Context.GetContext | namespace-notes/server/src/utils/context.ts:30-50 | With `getOnlyText` false the answer is the qualifying matches. Otherwise it rejects with the TypeError exactly when a qualifying match has no metadata. When it succeeds it is a prefix of the joined lines within the limit, equal to them exactly when they fit or are empty. The parameters default to 5000 characters, a minimum score of 0.15 and text only. |
| Context.MissingMetadataRejects | namespace-notes/server/src/utils/context.ts:33-50 | A qualifying match without metadata makes the text form reject with the TypeError, while the record form still returns the match. |
| Context.NothingQualifiesGivesEmpty | namespace-notes/server/src/utils/context.ts:37-47 | When no match qualifies the text is empty, whatever the limit. |
| Context.RepeatedMatchRepeated | namespace-notes/server/src/utils/context.ts:37-44 | Nothing is deduplicated: a qualifying match returned twice is rendered twice, one space apart. |
| Context.JoinedLength | namespace-notes/server/src/utils/context.ts:44 | The joined text is as long as all lines together plus one space between each pair of neighbours. |
| Upload.ExtName | namespace-notes/server/src/utils/multer.ts:15 | `path.extname` is empty exactly when the last segment has no ".", its last "." is its first character, or it is "..". Otherwise it is the segment from its last "." on, which starts with its only "." and holds no "/". |
| Upload.FileFilter | namespace-notes/server/src/utils/multer.ts:9-21 | The file is admitted exactly when its lower-cased extension is ".pdf". Otherwise it is rejected with the invalid-type error. |
| Upload.FilterAcceptsPdfNames | namespace-notes/server/src/utils/multer.ts:14-16 | A file is admitted exactly when the last segment of its name is longer than four characters and ends, ignoring ASCII case, in ".pdf". |
| Upload.ExtensionAt | namespace-notes/server/src/utils/multer.ts:15 | The extension of a "/"-free name whose last "." is past its first character is the name from that "." on. |
| Upload.FilterAcceptsPdfSuffix | namespace-notes/server/src/utils/multer.ts:15 | Any non-empty "/"-free stem followed by ".pdf" or ".PDF" is admitted, whatever the stem contains. |
| Upload.FilterRejectsTxtSuffix | namespace-notes/server/src/utils/multer.ts:15-19 | A name ending in ".txt" is rejected even when ".pdf" comes earlier. |
| Upload.FilterRejectsShortNames | namespace-notes/server/src/utils/multer.ts:15-19 | Names of at most four characters are rejected, "pdf" and the dot-file ".pdf" among them. |
| Upload.TempFilename | namespace-notes/server/src/utils/multer.ts:28 | The temporary name starts with the field name and "-", ends with the original name's extension, and holds in between exactly the decimal digits of the upload time, which read back as that time. |
| Strings.DecimalValue | namespace-notes/server/src/utils/multer.ts:28 | The decimal rendering of a number reads back as that number, so different times render differently. |
| Upload.TempFilenameDistinct | namespace-notes/server/src/utils/multer.ts:28 | For the same field and original name, uploads at two different times get different temporary names. |
| Upload.TempFilenameKeepsExtension | namespace-notes/server/src/utils/multer.ts:28 | The temporary name has the original name's extension, so an admitted upload's temporary copy is a PDF name. |
| Upload.TempFilenameAddsNoExtension | namespace-notes/server/src/utils/multer.ts:28 | For a field name without "." or "/", a name without extension gives a temporary name without one. |

## Left out

- Object-store order: listings return keys in the order the bucket holds them, where the service returns them lexicographically. `readdirSync` order is modelled as creation order. Results that depend on enumeration order hold for the order the model keeps.
- Object-store paging: each listing call answers in one page. The 1000-key page limit and continuation tokens are not modelled.
- Failures of the listing calls themselves (network, credentials) are not modelled. Only the outcomes of uploads, unlinks and delete requests are inputs.
- Partial per-key errors reported by `deleteObjects` are not modelled: a successful delete request removes every listed key.
- Streaming, the ACL, content type and disposition of uploads, the 60-second request timeout, and the console logging are left out. They do not affect stored state or outcomes.
- Multer's enforcement of the size limit, the field name and the maximum count is library behaviour. Only the constants are modelled.
- Upload.TempFilename: the clock `Date.now()` is the parameter `now`. Two uploads in the same millisecond under the same field and extension get the same name, as they would in the source.
- `path.join` does not resolve "." and ".." segments or absolute paths in the model. Storage ids are assumed plain where lemmas need it (`Server.Segment`).
- Spaces.SpacesStorage.SaveFile: a rejected upload, including one whose temporary file cannot be read, fails with the fixed message `Spaces.UploadError`. The SDK's or the stream's own error object is not modelled.
- Spaces.SpacesStorage.DeleteFileFromWorkspace: a rejected delete fails with the fixed message `Spaces.DeleteError`. The SDK's own error object is not modelled.
- Disk.Rename: a directory as the source is treated as an error (EISDIR), where Node would move the directory. The storage layer only ever moves uploaded files.
- `toLowerCase` is modelled on ASCII letters only. String lengths count characters rather than UTF-16 code units.
- The embedding of the message and the vector search (15 results) are outside the model; their answer is the `matches` input of `Context.GetContext`. A NaN score is not modelled.
- Spaces.SpacesStorage.ListFilesInNamespace: its body is the listing function rather than a sequence of awaited calls. The concurrency of `Promise.all` is not modelled; only its order-preserving result is.
- The environment is read once per storage object: a change of `SERVER_URL`, `PORT` or the bucket variable while the process runs is not modelled.
- The shared interface is captured by the `Backend` choice and the common `FileDetail` record. Both classes offer the same six operations.
- The background file processor, authentication, routes, controllers and configuration are not part of this model.
- SpacesListing.DocumentIdOf: a key without "/" gives "" where the source gives `undefined`. Every key listed under a namespace holds a "/", so the listing never reaches that case.
