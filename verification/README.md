# Cloud drive back end, modelled in Dafny

This project models the service core of a small cloud-drive back end: users register and log in, and an authentication middleware guards the routes. Users then keep folders and files.

- **Folders** are created with a sibling-name collision resolver. They are listed with per-folder file rollups and the five most recent files, opened with their files, subfolders and a breadcrumb, and deleted.
- **Files** are uploaded to object storage under a generated, unique stored name. A database record is then written, and later listed or deleted.

The database is a pair of sequences, `Records.Db(folders, files)`, plus a user sequence for authentication. A `findOne` is "the first match in store order". Every operation is a pure function from the store to a result and the new store.

Whatever the program gets from outside becomes a parameter:

| Outside input | Parameter |
|---|---|
| The S3 client | `send: Command -> SendOutcome` |
| The presigner | `presign` |
| `Date.now()` | `stamp` |
| `crypto.randomBytes(8)` | `random` |
| bcrypt | `hash` and `compare` |
| jsonwebtoken | `sign` and `verify` |
| New document ids and timestamps | `newId` and `now` |
| Environment settings | `limit` and `BlobConfig` |

Modules, one per file:

- `Common`: ids, `Option`/`Result`, decimal rendering and parsing, splitting.
- `Records`: the folder, file and user records and the store.
- `Naming`: the name pattern and the `(n)` resolver of `createFolder`.
- `Aggregates`: the joins, rollups, recent-file sort and ancestor walk that the aggregation pipelines perform.
- `Folders`: the folder service.
- `PathNames`: Node's `path.extname`/`path.basename`.
- `BlobStore`: the object-storage library.
- `FileService`: the file service.
- `Auth`: the auth service.
- `Gate`: the authentication middleware.

Two behaviours of the code are chosen by a parameter:

- **`Naming.Pattern`.** The folder-name regex is built from a template literal. The template literal drops the backslashes of `\s`, `\(`, `\d`, `\)`, so the pattern actually built is `^name(?:s(d+))?$`. `AsWritten` is that pattern; `Intended` is the one the code was meant to build. The engine's `$` also matches before a final newline, and the model includes that.
- **`FileService.QueryMode`.** `deleteFile` and `getAllUserFiles` filter on `userId`, a field file records do not have. With the ODM's strict query mode the filter is dropped (`StrictQuery`). Otherwise it reaches the database and matches nothing (`PassThrough`).

Where the system's documented behaviour and the code disagree, the model follows the code:

- The root listing is documented to show the user's own root folders, each with the count and size of that user's files. The code's `$match` and `$lookup` have no owner condition at all.
- Opening a missing folder is documented to fail with "Folder not found". The code tests `!folder` on an array, so it answers `[]`.
- File deletion is documented to match id and owner. The code matches on `userId`, which is not a field of the record.
- The documented example gives `Docs (2)` for a third `Docs` in one scope. The code stores `Docs (1)` again.
- Every bad credential is documented to get 401. The middleware answers 500 when verification fails with anything other than a `JsonWebTokenError`, and when the payload has no `user`.

## Model

| member | source | states |
|---|---|---|
| Common.DecimalRoundTrip | src/services/folder.service.ts:83-88 | reading back the decimal text of `n` (as `parseInt` does) gives `n` |
| Folders.FindOwned | src/services/folder.service.ts:49-53 | the index found holds the first folder with that id and owner; none found means no folder has both |
| Folders.GetFolder | src/services/folder.service.ts:49-60 | returns a stored folder with that id and owner, and fails with "Folder not found" exactly when no folder has both |
| Naming.Resolve | src/services/folder.service.ts:74-89 | no sibling matches: the name unchanged. Otherwise `name (n)` with `n >= 1`, `n` above every matching sibling's number, and `n-1` the largest of them (or 0) |
| Naming.MatchBeginsWithName | src/services/folder.service.ts:69 | the anchored match of the pattern: the requested name always matches itself, and every match starts with the name |
| Naming.Matching | src/services/folder.service.ts:76-80 | the sibling names the pattern matches, and every one it matches |
| Naming.Numbers | src/services/folder.service.ts:82-85 | one number per name, in order: the value of its `(digits)` suffix, else 0 |
| Naming.MaxNumber | src/services/folder.service.ts:87 | the result bounds every number and is 0 or one of them |
| Naming.MaxOfMatches | src/services/folder.service.ts:76-87 | the largest number among the matching siblings bounds every matching sibling's number and, unless 0, is the number of one of them |
| Naming.SuffixNumber | src/services/folder.service.ts:82-85 | a number is captured exactly when the name ends in `(digits)`, and it is the value of those digits |
| Naming.AsWrittenMatchHasNoNumber | src/services/folder.service.ts:69 | any name the pattern as built matches has number 0 |
| Naming.AsWrittenAlwaysAppendsOne | src/services/folder.service.ts:69-88 | with the pattern as built, the stored name is the name or `name (1)`, and `name (1)` whenever a sibling matches |
| Naming.AsWrittenMissesSuffixed | src/services/folder.service.ts:69 | the pattern as built never matches `name (n)` |
| Naming.AsWrittenRepeatsDuplicate | src/services/folder.service.ts:67-89 | three creations of "Docs" in one scope give "Docs", "Docs (1)", "Docs (1)" |
| Naming.SuffixedIsRecognised | src/services/folder.service.ts:82-85 | the intended pattern matches `name (n)` and the suffix parser reads back `n` |
| Naming.IntendedResolvesFresh | src/services/folder.service.ts:67-89 | with the intended pattern the stored name differs from every sibling name |
| Folders.SiblingNames | src/services/folder.service.ts:76-80 | exactly the names of folders with the same owner and parent |
| Folders.SiblingNamesIgnoreForeign | src/services/folder.service.ts:70-71 | a folder of another owner or parent does not change the sibling names |
| Folders.CreateFolder | src/services/folder.service.ts:62-94 | appends one folder with the given owner, parent, id and time, and no files. Its name is the requested one when no folder of the scope matches, else `name (n)` with `n` one more than the largest number among the matching folders of the scope (`NextInScope`) |
| Folders.ResolveInScope | src/services/folder.service.ts:74-88 | the resolver applied to the sibling names gives `name (m+1)` for `m` the largest number among the matching folders of the owner/parent scope, or 0 |
| Folders.CreateIgnoresOtherScopes | src/services/folder.service.ts:70-71 | folders outside the owner/parent scope do not change the new folder |
| Folders.CreateIntendedIsFresh | src/services/folder.service.ts:67-92 | with the intended pattern, the new folder's name is not a sibling's name |
| Folders.CreateKeepsValid | src/services/folder.service.ts:91-92 | a fresh id keeps folder and file ids unique |
| Folders.CreateAsWrittenAppendsOne | src/services/folder.service.ts:67-88 | with the pattern as built and any matching sibling, the new name is `name (1)` |
| Folders.CreateAsWrittenDuplicates | src/services/folder.service.ts:67-92 | with `name` and `name (1)` already siblings, the new folder repeats the name `name (1)` |
| Folders.DeleteFolder | src/services/folder.service.ts:161-173 | fails with "Folder not found" exactly when no folder has that id and owner. Otherwise removes one such folder, as a multiset, and leaves all files |
| Folders.DeleteFolderKeepsOthers | src/services/folder.service.ts:161-172 | with unique ids, exactly the folder with that id goes, every other folder stays, and ids stay unique |
| Aggregates.FilesIn | src/services/folder.service.ts:13-18 | the join holds exactly the files whose folder is the given one |
| Aggregates.FilesInCountsFiled | src/services/folder.service.ts:25 | the join's size equals the number of indexes of files filed under the folder |
| Aggregates.ChildrenOf | src/services/folder.service.ts:114-119 | the join holds exactly the folders whose parent is the given one |
| Aggregates.RollupOf | src/services/folder.service.ts:25-32 | the count is the number of files filed under the folder and the total their summed size, 0 when there are none |
| Aggregates.RollupAfterAppend | src/services/file.service.ts:37-47 | a new file adds 1 and its size to its own folder's rollup and leaves every other folder's unchanged |
| Aggregates.RollupAfterRemove | src/services/file.service.ts:76 | removing a file takes 1 and its size from its folder's rollup and leaves the others unchanged |
| Aggregates.SortNewestFirst | src/services/folder.service.ts:39 | the result is ordered by `createdAt` descending and is a permutation of the input |
| Aggregates.OwnedBy | src/services/folder.service.ts:38 | exactly the owner's files |
| Aggregates.RecentFiles | src/services/folder.service.ts:37-40 | `min(owned, 5)` of the owner's files, newest first, none taken twice (a sub-multiset of the owner's files), and no owned file left out is newer than one kept |
| Aggregates.Ancestors | src/services/folder.service.ts:122-129 | the walk starts at the parent and follows parent links. It visits each stored folder at most once (a sub-multiset of the pool), never an id twice when ids are unique, and stops only at a root, a parent no unvisited folder carries, or a start id nobody has (`WalkEnds`) |
| Aggregates.AncestorsFollowChain | src/services/folder.service.ts:122-129 | with unique ids, the walk returns exactly the chain of ancestors up to the root |
| Folders.Summarize | src/services/folder.service.ts:21-33 | keeps id, name, owner and time, and carries the count and total size of the files filed under the folder |
| Folders.Roots | src/services/folder.service.ts:10 | exactly the folders without a parent |
| Folders.SummarizeAll | src/services/folder.service.ts:21-33 | one summary per folder, in order |
| Folders.GetAllUserFolders | src/services/folder.service.ts:6-46 | one summary for every root folder, of any owner. Files: the owner's recent files, at most five |
| Folders.RootListingCoversAllRoots | src/services/folder.service.ts:8-35 | every root folder in the store appears with its rollup, whoever owns it |
| Folders.RootListingLeaksOtherOwners | src/services/folder.service.ts:10 | a store holding only another user's root folder yields a listing showing that folder |
| Folders.OwnedRoots | src/services/folder.service.ts:10 | exactly the root folders of the owner |
| Folders.GetOwnRootFolders | src/services/folder.service.ts:6-46 | every summary belongs to the owner and carries that folder's count and size. The files are the owner's recent files, as in the listing |
| Folders.OwnRootsExactlyOwners | src/services/folder.service.ts:6-46 | a root folder appears in the owner-filtered listing exactly when the user owns it |
| Folders.Breadcrumb | src/services/folder.service.ts:122-141 | the ancestors reversed, with each entry's level its distance from the parent |
| Folders.Detail | src/services/folder.service.ts:131-150 | carries the folder's own fields, its files and subfolders, its breadcrumb, and the count and size of its files |
| Folders.OwnedMatches | src/services/folder.service.ts:103 | exactly the folders with that id and owner |
| Folders.GetSpecificFolder | src/services/folder.service.ts:96-159 | an array of details of folders with that id and owner. It is empty exactly when there is none, never an error |
| Folders.OwnedMatchesUnique | src/services/folder.service.ts:103 | with unique ids at most one folder matches |
| Folders.GetSpecificFolderAtMostOne | src/services/folder.service.ts:101-152 | with unique ids the array has at most one element |
| Folders.BreadcrumbRootFirst | src/services/folder.service.ts:122-141 | for a folder with a finite ancestor chain: the breadcrumb is that chain from the root to the parent, with levels counting down to 0, and does not contain the folder itself |
| Folders.MissingFolderGivesEmptyArray | src/services/folder.service.ts:154-158 | an id the user does not own yields `[]`, while the corrected lookup gives "Folder not found" |
| Folders.GetFolderDetail | src/services/folder.service.ts:96-159 | fails with "Folder not found" exactly when no folder has that id and owner, otherwise gives that folder's detail |
| Folders.DetailAgreesWithArray | src/services/folder.service.ts:101-158 | with unique ids, the array is the corrected detail in a one-element array, or empty when that fails |
| PathNames.LastComponent | src/lib/aws.lib.ts:37-38 | slash-free, the whole path when it has no slash, else the part after the last slash once trailing slashes go |
| PathNames.Ext | src/lib/aws.lib.ts:37 | nonempty exactly when the last component has a dot past its first character and is not `..`; then a final dot segment, shorter than the component |
| PathNames.Base | src/lib/aws.lib.ts:38 | base and extension together are the last component |
| PathNames.ExtOfName | src/lib/aws.lib.ts:37 | the extension of a slash-free name is its final dot segment when something precedes it |
| PathNames.ExtOfTwoDotsExample | src/lib/aws.lib.ts:37-38 | `report.final.pdf` has extension `.pdf` and base `report.final` |
| PathNames.ExtOfPath | src/lib/aws.lib.ts:37 | a final dot segment of the last component, shorter than it, is the extension, unless the component is `..` |
| PathNames.DotFileHasNoExt | src/lib/aws.lib.ts:37-38 | a name whose only dot is its first character has no extension and is its own base |
| PathNames.ExtOfDotsExample | src/lib/aws.lib.ts:37 | `..` has no extension; `notes.` has `.` |
| PathNames.TrailingSlashIgnored | src/lib/aws.lib.ts:37-38 | a trailing slash changes neither the last component, nor the extension, nor the base |
| PathNames.DirectoryDropped | src/lib/aws.lib.ts:37-38 | a path's extension and base are those of its file name, whatever directory precedes it |
| PathNames.LastComponentOf | src/lib/aws.lib.ts:37-38 | the last component of `dir/name`, with or without a trailing slash, is `name` |
| BlobStore.HexEncode | src/lib/aws.lib.ts:36 | two lower-case hex digits per byte |
| BlobStore.HexRoundTrip | src/lib/aws.lib.ts:36 | decoding the hex rendering returns the bytes |
| BlobStore.HexDecodeRendersBack | src/lib/aws.lib.ts:36 | every decodable string is the rendering of what it decodes to |
| BlobStore.Inserted | src/lib/aws.lib.ts:40 | the `-stamp-hash` part has no dot and no slash, and its length is fixed by the stamp and the byte count |
| BlobStore.GenerateUniqueFilename | src/lib/aws.lib.ts:34-41 | slash-free, begins with the base name and a dash, ends with the extension, and has the length the parts add up to |
| BlobStore.SplitStampInverse | src/lib/aws.lib.ts:40 | `base-digits` splits back into the base and the stamp |
| BlobStore.ParseStemInverse | src/lib/aws.lib.ts:40 | `base-stamp-hash` parses back into its three parts |
| BlobStore.GeneratedKeepsExtension | src/lib/aws.lib.ts:34-41 | the stored name has the original's extension exactly when the original's last component is not `..` |
| BlobStore.ParseGenerated | src/lib/aws.lib.ts:34-41 | the stored name determines the original's last component, the timestamp and the 8 random bytes |
| BlobStore.ParseAssembled | src/lib/aws.lib.ts:40 | a name assembled from base, inserted part and its own extension parses back into them |
| BlobStore.StripSlashes | src/lib/aws.lib.ts:53 | removes at most one leading and one trailing slash, and removes each one present |
| BlobStore.StripSlashesExamples | src/lib/aws.lib.ts:53 | `//a//` becomes `/a/`; `/` and `//` become empty |
| BlobStore.BuildObjectKey | src/lib/aws.lib.ts:49-55 | the file name alone without a subfolder, else the stripped subfolder, a slash and the file name |
| BlobStore.KeyEndsInFilename | src/lib/aws.lib.ts:49-55 | the key's last component is the file name, whatever the subfolder |
| BlobStore.KeyKeepsCleanSubfolder | src/lib/aws.lib.ts:49-55 | a subfolder without edge slashes prefixes the key verbatim |
| BlobStore.ErrorText | src/lib/aws.lib.ts:144-149 | an error's message, or the call's fallback text when the thrown value has none |
| BlobStore.UploadFile | src/lib/aws.lib.ts:63-150 | nothing sent to an unconfigured bucket, which yields "Invalid bucket type". Otherwise one put of the buffer and content type under the built key, with the given metadata or none; success exactly when it went through. The file info echoes the put, and only a public object gets a URL |
| BlobStore.UploadKeepsOriginalName | src/lib/aws.lib.ts:94-96 | with the original name kept, the stored name is the original |
| BlobStore.UploadKeyNamesTheOriginal | src/lib/aws.lib.ts:94-128 | the key of a generated upload parses back to the original name, timestamp and random bytes |
| BlobStore.GenerateSignedUrl | src/lib/aws.lib.ts:158-209 | public: the direct URL, never expiring. Private: "Invalid bucket type" without a bucket, else the presigned get with its lifetime (3600 by default) or the presigner's error |
| BlobStore.PublicSignedUrlNeverFails | src/lib/aws.lib.ts:177-183 | a public URL succeeds and has no expiry whatever the configuration, unset settings included |
| BlobStore.EnvText | src/lib/aws.lib.ts:21-27 | a setting renders as its value, or as `undefined` when unset |
| BlobStore.BucketName | src/lib/aws.lib.ts:184-188 | a bucket is refused exactly when its setting is unset or empty; otherwise it is the setting |
| BlobStore.UnsetSettingsReadUndefined | src/lib/aws.lib.ts:21-27 | with no bucket or region set, the public base URL is `https://undefined.s3.undefined.amazonaws.com` |
| BlobStore.SignedUrlOfUpload | src/lib/aws.lib.ts:176-201 | after a successful public upload the signed URL is the upload's own URL, never expiring; after a private one it is a presigned get of the bucket and key the put wrote |
| BlobStore.LaterCallsTargetUpload | src/lib/aws.lib.ts:226-281 | deleting or probing an uploaded object by its bucket type and key addresses the bucket and key of the put |
| BlobStore.StoredNameFor | src/lib/aws.lib.ts:94-96 | the original name when it is to be kept; otherwise a generated name with no slash, the original's base name and a dash in front and its extension at the end |
| BlobStore.DeleteObjectAt | src/lib/aws.lib.ts:217-253 | nothing sent to an unconfigured bucket. Otherwise one delete of the key, succeeding with "File <key> deleted successfully" exactly when it went through |
| BlobStore.FileExists | src/lib/aws.lib.ts:261-296 | exists when the get went through. A `NoSuchKey` error is a successful "no"; any other error is a failure carrying its message |
| FileService.UploadRecordAccepted | src/models/File.ts:15-19 | the record of a stored public blob passes the schema's required fields (`SchemaAccepts`) exactly when the upload has a nonempty name and type |
| FileService.StoreFailureText | src/services/file.service.ts:32-34 | the storage error when it is a nonempty text, else "Failed to upload file" |
| FileService.StoreAndRecord | src/services/file.service.ts:26-47 | a put is sent exactly when the public bucket is configured. After a successful put the record (key, URL, the upload's name, type and size, the user, the folder) is appended exactly when the schema accepts it, else `RecordRejected`. A failed put fails with the storage error's text. A failure leaves the store unchanged |
| FileService.UploadFile | src/services/file.service.ts:7-48 | over the limit: fails first and sends nothing. Then a folder id the user does not own: fails and sends nothing. Past both, a put is sent exactly when the public bucket is configured; a successful put is saved as its record whenever the schema accepts it, filed under the user's own folder or none. `RecordRejected` only follows a successful put; a put not sent or thrown comes out exactly as `StoreFailed`, with the storage error's text. Failures leave the store unchanged |
| FileService.StoragePath | src/services/file.service.ts:27-30 | `<user>/<folder name>` for a folder, with a slash; `drive`, without one, for none |
| FileService.UploadDelegates | src/services/file.service.ts:14-47 | a saved upload is the store-and-record step applied to the user's own folder when a folder id is given, and to no folder otherwise |
| FileService.UploadKeyPath | src/services/file.service.ts:27-30 | the stored key is `drive/<stored name>`, or `<user>/<folder name>/<stored name>` for a plainly named folder |
| FileService.UploadUpdatesRollup | src/services/file.service.ts:37-47 | a saved upload adds 1 and its size to its folder's rollup and changes no other folder's |
| FileService.FindFile | src/services/file.service.ts:67-70 | the first file with that id (and owner, when given); none means no such file |
| FileService.DeleteFile | src/services/file.service.ts:66-78 | strict mode: fails with "File not found" exactly when no file has the id; otherwise removes one such file, whoever owns it. Pass-through mode: always "File not found" |
| FileService.DeleteFileIgnoresOwner | src/services/file.service.ts:67-70 | in strict mode one user deletes another user's file |
| FileService.DeleteFileNeverFindsOwnFile | src/services/file.service.ts:67-74 | in pass-through mode no user can delete even their own file |
| FileService.DeleteOwnFile | src/services/file.service.ts:66-78 | fails exactly when no file has that id and owner; otherwise removes one such file and nothing else |
| FileService.OwnDeletionAgrees | src/services/file.service.ts:66-78 | with unique ids, a user deleting their own file gets the same result from both definitions |
| FileService.DeleteOwnFileUpdatesRollup | src/services/file.service.ts:76 | the deletion takes the file out of its folder's rollup and changes no other |
| FileService.GetAllUserFiles | src/services/file.service.ts:50-52 | strict mode: every file in the store; pass-through mode: none |
| FileService.AllUserFilesLeak | src/services/file.service.ts:51 | in strict mode the listing contains files of other owners |
| FileService.GetOwnFiles | src/services/file.service.ts:50-52 | exactly the user's files |
| FileService.UploadListedForOwner | src/services/file.service.ts:37-51 | a saved upload appears in the uploader's own listing |
| Auth.FindByEmail | src/services/auth.service.ts:14 | the first user with exactly that email; none exactly when no user has it |
| Auth.Register | src/services/auth.service.ts:13-37 | a taken email fails with "User already exists" and changes nothing. Otherwise appends one user with the hashed password and no storage used, and returns its token, id and email |
| Auth.Login | src/services/auth.service.ts:39-59 | succeeds exactly when the first user with the email passes the password check, returning that user's session. Every failure is "Invalid credentials" |
| Auth.RegisterThenLogin | src/services/auth.service.ts:13-59 | logging in after registering with the same password returns the registration's session |
| Auth.RegisterKeepsEmailsUnique | src/services/auth.service.ts:13-27 | registration keeps emails unique |
| Auth.LoginFailuresAlike | src/services/auth.service.ts:40-48 | a wrong password and an unknown email give the same answer |
| Auth.EmailIsCaseSensitive | src/services/auth.service.ts:14-17 | an email differing only in case registers as a new user |
| Gate.FindById | src/middleware/authMiddleware.ts:23 | the user with that id; a missing id finds nobody |
| Common.Split | src/middleware/authMiddleware.ts:20 | at least one part, none containing the separator |
| Common.Decimal | src/services/folder.service.ts:88 | `String(n)`: a nonempty digit string without a leading zero |
| Common.DecimalValueZero | src/services/folder.service.ts:84 | `parseInt(s, 10)` on a digit string (`DecimalValue`) is zero exactly when every digit is 0. `Common.DecimalRoundTrip` states that it reads `Decimal` back |
| Common.SplitJoin | src/middleware/authMiddleware.ts:20 | joining the parts of a split on the same separator gives the string back, so the split loses only the separators |
| Gate.BearerToken | src/middleware/authMiddleware.ts:20 | the token contains no space |
| Gate.BearerTokenOf | src/middleware/authMiddleware.ts:16-20 | the prefix followed by a space-free token yields that token |
| Gate.BearerTokenStopsAtSpace | src/middleware/authMiddleware.ts:20 | text after a second space is dropped |
| Gate.IsAuth | src/middleware/authMiddleware.ts:13-36 | 401 without a `Bearer ` header, for a rejected token, and for an unknown user; 500 for other verification failures and a payload without `user`. It proceeds exactly when the user is found, with that user |
| Gate.LowercaseBearerRefused | src/middleware/authMiddleware.ts:16-18 | a `bearer ` header is refused as missing |

## Left out

- Database, object-storage, bcrypt and JWT libraries are not modelled: their results are parameters. Their own failures (a lost connection, a write error) are not modelled, except where the code reads a storage or presigner error.
- Id casting is not modelled: ids are plain strings, so a malformed id that `findOne` or `new ObjectId` would reject as a cast error is just an id that matches nothing.
- Concurrency is not modelled: two requests creating the same folder name at once, or registering the same email, are out of scope. Each call is modelled alone.
- `Naming.Matches`: names containing regular-expression metacharacters are excluded (`NoRegexMeta`), because the code splices the name into the pattern unescaped and the model does not interpret general regular expressions.
- `Naming.IntendedResolvesFresh`: numbers are unbounded integers. The code reads them with `parseInt` and `Math.max` on IEEE doubles, which are exact only up to 2^53, so with a sibling numbered 9007199254740992 the next number rounds back onto it and a duplicate name is produced. That case is not modelled.
- `Folders.CreateIntendedIsFresh`: assumes unbounded integers, as `Naming.IntendedResolvesFresh` does; the double rounding from 2^53 upward is not modelled.
- `Naming.Resolve`: `m + 1` is exact and `String(m + 1)` is a plain decimal numeral here. In the code the sum is a double, and from 10^21 upward `String` writes it in exponent notation (`1e+21`), which the suffix pattern no longer reads as a number.
- `Common.Decimal`: renders any natural number in plain digits; JavaScript's `String` does so only below 10^21.
- `BlobStore.BucketName`: an unset and an empty bucket setting are both refused, as `!bucketName` refuses both; the message does not say which.
- `Aggregates.Ancestors`: the walk is listed nearest ancestor first. The database does not promise an order for `$graphLookup` output, so the breadcrumb order after `$reverseArray` is the model's reading.
- `Aggregates.SortNewestFirst`: the order among files with equal `createdAt` is not stated, as the database does not fix it either.
- `FileService.UploadFile`: the size-limit failure's message ("File size exceeds the limit of <limit / 1048576>MB") is not modelled, because it prints a floating-point quotient. Only the limit is carried in `TooLarge(limit)`.
- `FileService.UploadFile`: the limit is a parameter; parsing `MAX_FILE_SIZE` from the environment (default 10485760, `DefaultMaxFileSize`) is not modelled.
- `FileService.StoreAndRecord`: a record the schema refuses (an empty required string) fails as `RecordRejected` without the validation message text.
- `FileService.DeleteFile`: the stored object is left in object storage, as in the code. The success message "File deleted successfully" is the `Ok` result.
- `Folders.DeleteFolder`: returns the new store; the "Folder deleted successfully" message object is not modelled.
- `Folders.Detail`: the projected `path` field is not a folder field, so it is absent from every result and not modelled.
- `Gate.IsAuth`: a cast error from `findById` on a malformed id (a 500 in the code) is not modelled, since ids are plain strings.
- `createFile` in the file service is not modelled: no route or service calls it.
- Controllers, routes, request validation and response helpers are not part of this model.
- `updatedAt` timestamps and the user's `storageUsed` counter beyond its initial 0 are not modelled, because nothing in the core reads or updates them.

## Findings

| source | as written | input that shows it | evidently intended | confidence | as-written member | corrected member |
|---|---|---|---|---|---|---|
| src/services/folder.service.ts:69 | the template literal drops the backslashes, so the pattern is `^name(?:s(d+))?$` and never matches `name (n)` | create "Docs" three times under one parent: the third is named "Docs (1)" again | the third is "Docs (2)"; a new name differs from every sibling | high, not executed | Folders.CreateAsWrittenDuplicates (with Naming.AsWrittenRepeatsDuplicate) | Folders.CreateIntendedIsFresh (with Naming.IntendedResolvesFresh) |
| src/services/folder.service.ts:10 | the root listing matches `parent: null` only, with no owner condition | user u lists while the store holds only v's root folder "Private": u sees it | only the caller's root folders are listed | high, not executed | Folders.RootListingLeaksOtherOwners (about Folders.GetAllUserFolders) | Folders.OwnRootsExactlyOwners (about Folders.GetOwnRootFolders) |
| src/services/folder.service.ts:154-156 | `aggregate` returns an array, so `!folder` never holds and a missing folder answers `[]` | user u opens folder "f1" owned by v: the result is `[]`, not "Folder not found" | "Folder not found" for a folder the user does not own | high, not executed | Folders.MissingFolderGivesEmptyArray (about Folders.GetSpecificFolder) | Folders.DetailAgreesWithArray (about Folders.GetFolderDetail) |
| src/services/file.service.ts:51, src/services/file.service.ts:67-70 | file records have `owner`, not `userId`; in strict query mode the filter is dropped | user u deletes v's file "x1", and u's listing shows v's files | match and list on `owner` | medium (depends on the query mode), not executed | FileService.DeleteFileIgnoresOwner (about FileService.DeleteFile), FileService.AllUserFilesLeak (about FileService.GetAllUserFiles) | FileService.OwnDeletionAgrees (about FileService.DeleteOwnFile), FileService.GetOwnFiles |
