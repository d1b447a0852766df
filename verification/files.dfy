/**
 The file service: ingestion of an upload (size limit, folder check, storage
 path, blob first and record second), deletion of a record, and the user's
 file listing. The two queries filter on a `userId` field that file records
 do not have; what that filter does depends on the ODM's query mode.
 */
module FileService {
  import opened Common
  import opened Records
  import opened Aggregates
  import opened Folders
  import opened BlobStore

  /** `MAX_FILE_SIZE` when the environment does not set it: 10 MiB. */
  const DefaultMaxFileSize: nat := 10485760

  const FileNotFound: string := "File not found"
  const UploadFallback: string := "Failed to upload file"
  const FileDeleted: string := "File deleted successfully"

  /** The storage subfolder of unfiled uploads. */
  const DriveFolder: string := "drive"

  // ---------------------------------------------------------------------
  // uploadFile
  // ---------------------------------------------------------------------

  /** Why an upload failed, in the order the checks run. */
  datatype UploadFailure =
    | TooLarge(limit: nat)
    | FolderMissing
    | StoreFailed(message: string)
    | RecordRejected

  datatype Ingested = Saved(file: FileRec) | Failed(failure: UploadFailure)

  /** The outcome, the store after it, and the put sent to object storage, if any. */
  datatype Ingest = Ingest(outcome: Ingested, db: Db, sent: Option<Command>)

  /** The message a failure carries; a size failure's message is left out. */
  function FailureMessage(f: UploadFailure): Option<string> {
    match f
    case TooLarge(_) => None
    case FolderMissing => Some(FolderNotFound)
    case StoreFailed(m) => Some(m)
    case RecordRejected => None
  }

  /** The schema's required string fields: `required` refuses the empty string. */
  predicate SchemaAccepts(f: FileRec) {
    f.name != "" && f.mimetype != "" && f.url != "" && f.s3Uri != ""
  }

  /**
   The record of a stored public blob passes the schema exactly when the
   upload has a name and a type: the URL and a nonempty key always do.
   */
  lemma UploadRecordAccepted(file: Upload, key: string, cfg: BlobConfig, userId: Id, folderRef: Option<Id>,
                             newId: Id, now: nat)
    requires key != ""
    ensures SchemaAccepts(RecordOf(file, key, PublicUrl(cfg, key), userId, folderRef, newId, now))
      <==> file.originalName != "" && file.mimetype != ""
  {
  }

  /** `if (folderId)`: an absent or empty folder id files nothing. */
  predicate FolderGiven(folderId: Option<Id>) {
    folderId.Some? && folderId.value != ""
  }

  /** `${userId}/${folder.name}` for a filed upload, `drive` otherwise. */
  function StoragePath(userId: Id, folder: Option<Folder>): (path: string)
    ensures folder.None? ==> path == DriveFolder && '/' !in path
    ensures folder.Some? ==> '/' in path && StartsWith(path, userId + "/") && path[|userId| + 1..] == folder.value.name
  {
    match folder
    case Some(f) => userId + "/" + f.name
    case None => DriveFolder
  }

  /** The upload options the service passes: the public bucket under the storage path. */
  function StoreOptions(userId: Id, folder: Option<Folder>): UploadOptions {
    UploadOptions(Some(Public), Some(StoragePath(userId, folder)), None, None)
  }

  /** `uploadResult.error || 'Failed to upload file'`. */
  function StoreFailureText(error: Option<string>): (t: string)
    ensures error.Some? && error.value != "" ==> t == error.value
    ensures error.None? || error.value == "" ==> t == UploadFallback
  {
    if error.Some? && error.value != "" then error.value else UploadFallback
  }

  /** The record `new File({...})` builds for a stored blob. */
  function RecordOf(file: Upload, key: string, url: string, userId: Id, folderRef: Option<Id>,
                    newId: Id, now: nat): FileRec {
    FileRec(newId, file.originalName, file.mimetype, file.size, url, key, userId, folderRef, now)
  }

  /**
   The error text of a failed put: the unconfigured bucket's message, or the
   thrown error's text through the upload library and the service's fallback.
   */
  function PutFailureText(sent: Option<Command>, send: Command -> SendOutcome): string {
    match sent
    case None => InvalidBucket(Public)
    case Some(c) =>
      match send(c)
      case Thrown(_, message) => StoreFailureText(Some(ErrorText(message, UnknownUploadError)))
      case Sent => UploadFallback  // a put that went through is no failure
  }

  /** Steps 3 and 4 of an upload, once the folder is known: store the blob, then the record. */
  function StoreAndRecord(db: Db, file: Upload, userId: Id, folder: Option<Folder>, cfg: BlobConfig,
                          stamp: nat, random: seq<byte>, send: Command -> SendOutcome,
                          newId: Id, now: nat): (r: Ingest)
    ensures r.outcome.Failed? ==> r.db == db && (r.outcome.failure.StoreFailed? || r.outcome.failure.RecordRejected?)
    // a put is sent exactly when the public bucket is configured
    ensures r.sent.Some? <==> BucketName(cfg, Public) != ""
    // a successful put is always recorded, unless the schema refuses the record
    ensures r.sent.Some? && send(r.sent.value).Sent? ==>
      var key := r.sent.value.key;
      var rec := RecordOf(file, key, PublicUrl(cfg, key), userId, if folder.Some? then Some(folder.value.id) else None, newId, now);
      && (SchemaAccepts(rec) ==> r.outcome == Saved(rec))
      && (!SchemaAccepts(rec) ==> r.outcome == Failed(RecordRejected))
    ensures r.outcome == Failed(RecordRejected) ==> r.sent.Some? && send(r.sent.value).Sent?
    // a failed put carries the storage error's text
    ensures r.sent.None? || send(r.sent.value).Thrown? <==> r.outcome.Failed? && r.outcome.failure.StoreFailed?
    ensures r.outcome.Failed? && r.outcome.failure.StoreFailed? ==> r.outcome.failure.message == PutFailureText(r.sent, send)
    ensures r.outcome.Failed? && r.outcome.failure.StoreFailed? ==>
      (r.sent.None? && BucketName(cfg, Public) == "") || (r.sent.Some? && send(r.sent.value).Thrown?)
    ensures r.outcome.Saved? ==> var rec := r.outcome.file;
      && r.db == Db(db.folders, db.files + [rec])
      && r.sent.Some? && r.sent.value.PutObject? && send(r.sent.value).Sent?
      && r.sent.value.bucket == BucketName(cfg, Public) && r.sent.value.body == file.buffer
      && rec.s3Uri == r.sent.value.key
      && rec.s3Uri == BuildObjectKey(GenerateUniqueFilename(file.originalName, stamp, random), Some(StoragePath(userId, folder)))
      && rec.url == PublicUrl(cfg, rec.s3Uri)
      && rec.id == newId && rec.createdAt == now
      && rec.owner == userId && rec.name == file.originalName
      && rec.mimetype == file.mimetype && rec.size == file.size
      && rec.folder == (if folder.Some? then Some(folder.value.id) else None)
  {
    var up := BlobStore.UploadFile(file, StoreOptions(userId, folder), cfg, stamp, random, send);
    var res := up.0;
    var sent := up.1;
    if !res.success || res.fileInfo.None? then
      Ingest(Failed(StoreFailed(StoreFailureText(res.error))), db, sent)
    else
      var info := res.fileInfo.value;
      var url := match res.url case Some(u) => u case None => "";
      var folderRef := match folder case Some(f) => Some(f.id) case None => None;
      var rec := RecordOf(file, info.key, url, userId, folderRef, newId, now);
      if !SchemaAccepts(rec) then Ingest(Failed(RecordRejected), db, sent)
      else Ingest(Saved(rec), Db(db.folders, db.files + [rec]), sent)
  }

  /**
   `uploadFile`: refuses a file over the limit, then a folder id the user
   does not own; otherwise puts the blob under the storage path and, only
   if that succeeded, appends a file record for it.
   */
  function UploadFile(db: Db, file: Upload, userId: Id, folderId: Option<Id>, limit: nat, cfg: BlobConfig,
                      stamp: nat, random: seq<byte>, send: Command -> SendOutcome,
                      newId: Id, now: nat): (r: Ingest)
    // the size check comes first; a size equal to the limit passes
    ensures file.size > limit ==> r == Ingest(Failed(TooLarge(limit)), db, None)
    ensures file.size <= limit ==> r.outcome != Failed(TooLarge(limit))
    // then the folder check, before anything is stored
    ensures file.size <= limit && FolderGiven(folderId) && FindOwned(db.folders, folderId.value, userId).None? ==>
      r == Ingest(Failed(FolderMissing), db, None)
    // past both checks, a put is sent exactly when the public bucket is configured
    ensures file.size <= limit && (!FolderGiven(folderId) || FindOwned(db.folders, folderId.value, userId).Some?) ==>
      (r.sent.Some? <==> BucketName(cfg, Public) != "")
    // a successful put is always recorded, unless the schema refuses the record
    ensures r.sent.Some? && send(r.sent.value).Sent? ==>
      var key := r.sent.value.key;
      var rec := RecordOf(file, key, PublicUrl(cfg, key), userId, if FolderGiven(folderId) then folderId else None, newId, now);
      && (SchemaAccepts(rec) ==> r.outcome == Saved(rec))
      && (!SchemaAccepts(rec) ==> r.outcome == Failed(RecordRejected))
    ensures r.outcome == Failed(RecordRejected) ==> r.sent.Some? && send(r.sent.value).Sent?
    // past both checks, a put not sent or thrown is exactly a storage failure, with the storage error's text
    ensures file.size <= limit && (!FolderGiven(folderId) || FindOwned(db.folders, folderId.value, userId).Some?) ==>
      ((r.sent.None? || send(r.sent.value).Thrown?) <==> r.outcome.Failed? && r.outcome.failure.StoreFailed?)
    ensures r.outcome.Failed? && r.outcome.failure.StoreFailed? ==> r.outcome.failure.message == PutFailureText(r.sent, send)
    // a failure leaves the store as it was
    ensures r.outcome.Failed? ==> r.db == db
    ensures r.outcome.Failed? && r.outcome.failure.StoreFailed? ==>
      (r.sent.None? && BucketName(cfg, Public) == "") || (r.sent.Some? && send(r.sent.value).Thrown?)
    // a record exists only for a stored blob, and describes it
    ensures r.outcome.Saved? ==> var rec := r.outcome.file;
      && r.db == Db(db.folders, db.files + [rec])
      && r.sent.Some? && r.sent.value.PutObject? && send(r.sent.value).Sent?
      && r.sent.value.bucket == BucketName(cfg, Public) && r.sent.value.body == file.buffer
      && rec.s3Uri == r.sent.value.key
      && rec.url == PublicUrl(cfg, rec.s3Uri)
      && rec.id == newId && rec.createdAt == now
      && rec.owner == userId && rec.name == file.originalName
      && rec.mimetype == file.mimetype && rec.size == file.size && rec.size <= limit
    // filed under the user's own folder, or unfiled
    ensures r.outcome.Saved? ==> var rec := r.outcome.file;
      && (FolderGiven(folderId) ==> (rec.folder == folderId
            && exists k :: 0 <= k < |db.folders| && IsOwned(db.folders[k], folderId.value, userId)))
      && (!FolderGiven(folderId) ==> rec.folder.None?)
  {
    if file.size > limit then Ingest(Failed(TooLarge(limit)), db, None)
    else if FolderGiven(folderId) then
      match FindOwned(db.folders, folderId.value, userId)
      case None => Ingest(Failed(FolderMissing), db, None)
      case Some(i) => StoreAndRecord(db, file, userId, Some(db.folders[i]), cfg, stamp, random, send, newId, now)
    else StoreAndRecord(db, file, userId, None, cfg, stamp, random, send, newId, now)
  }

  /** A folder name the key keeps verbatim: nonempty, and not ending in a slash. */
  predicate PlainName(name: string) {
    name != "" && name[|name| - 1] != '/'
  }

  /**
   The object key of a stored upload: `drive/<stored name>`, or
   `<userId>/<folder name>/<stored name>` for a plainly named folder.
   */
  lemma UploadKeyPath(db: Db, file: Upload, userId: Id, folderId: Option<Id>, limit: nat, cfg: BlobConfig,
                      stamp: nat, random: seq<byte>, send: Command -> SendOutcome, newId: Id, now: nat)
    requires UploadFile(db, file, userId, folderId, limit, cfg, stamp, random, send, newId, now).outcome.Saved?
    requires userId != "" && userId[0] != '/'
    ensures var key := UploadFile(db, file, userId, folderId, limit, cfg, stamp, random, send, newId, now).outcome.file.s3Uri;
      var stored := GenerateUniqueFilename(file.originalName, stamp, random);
      && (!FolderGiven(folderId) ==> key == DriveFolder + "/" + stored)
      && (FolderGiven(folderId) ==> exists k :: (0 <= k < |db.folders| && IsOwned(db.folders[k], folderId.value, userId)
            && (PlainName(db.folders[k].name) ==> key == userId + "/" + db.folders[k].name + "/" + stored)))
  {
    var ing := UploadFile(db, file, userId, folderId, limit, cfg, stamp, random, send, newId, now);
    var stored := GenerateUniqueFilename(file.originalName, stamp, random);
    var folder := UploadDelegates(db, file, userId, folderId, limit, cfg, stamp, random, send, newId, now);
    assert ing.outcome.file.s3Uri == BuildObjectKey(stored, Some(StoragePath(userId, folder)));
    if FolderGiven(folderId) {
      var i := FindOwned(db.folders, folderId.value, userId).value;
      if PlainName(db.folders[i].name) {
        UserFolderKey(stored, userId, db.folders[i].name);
      }
    } else {
      KeyKeepsCleanSubfolder(stored, DriveFolder);
    }
  }

  /** Past the size check, an upload is the store step with the folder the check found, if any. */
  lemma UploadDelegates(db: Db, file: Upload, userId: Id, folderId: Option<Id>, limit: nat, cfg: BlobConfig,
                        stamp: nat, random: seq<byte>, send: Command -> SendOutcome, newId: Id, now: nat)
    returns (folder: Option<Folder>)
    requires UploadFile(db, file, userId, folderId, limit, cfg, stamp, random, send, newId, now).outcome.Saved?
    ensures UploadFile(db, file, userId, folderId, limit, cfg, stamp, random, send, newId, now)
         == StoreAndRecord(db, file, userId, folder, cfg, stamp, random, send, newId, now)
    ensures FolderGiven(folderId) ==> (FindOwned(db.folders, folderId.value, userId).Some?
      && folder == Some(db.folders[FindOwned(db.folders, folderId.value, userId).value]))
    ensures !FolderGiven(folderId) ==> folder.None?
  {
    if FolderGiven(folderId) {
      folder := Some(db.folders[FindOwned(db.folders, folderId.value, userId).value]);
    } else {
      folder := None;
    }
  }

  /** The key under a user's plainly named folder. */
  lemma UserFolderKey(stored: string, userId: Id, name: string)
    requires userId != "" && userId[0] != '/' && PlainName(name)
    ensures BuildObjectKey(stored, Some(userId + "/" + name)) == userId + "/" + name + "/" + stored
  {
    var path := userId + "/" + name;
    assert path[0] == userId[0];
    assert path[|path| - 1] == name[|name| - 1];
    KeyKeepsCleanSubfolder(stored, path);
  }

  /** An upload into a folder adds one file and its size to that folder's rollup, and no other's. */
  lemma UploadUpdatesRollup(db: Db, file: Upload, userId: Id, folderId: Option<Id>, limit: nat, cfg: BlobConfig,
                            stamp: nat, random: seq<byte>, send: Command -> SendOutcome, newId: Id, now: nat, fid: Id)
    requires UploadFile(db, file, userId, folderId, limit, cfg, stamp, random, send, newId, now).outcome.Saved?
    ensures var after := UploadFile(db, file, userId, folderId, limit, cfg, stamp, random, send, newId, now).db;
      && (FolderGiven(folderId) && folderId.value == fid ==>
            RollupOf(after.files, fid) == Rollup(RollupOf(db.files, fid).fileCount + 1, RollupOf(db.files, fid).totalFileSize + file.size))
      && (!(FolderGiven(folderId) && folderId.value == fid) ==> RollupOf(after.files, fid) == RollupOf(db.files, fid))
  {
    var rec := UploadFile(db, file, userId, folderId, limit, cfg, stamp, random, send, newId, now).outcome.file;
    RollupAfterAppend(db.files, rec, fid);
  }

  // ---------------------------------------------------------------------
  // deleteFile and getAllUserFiles
  // ---------------------------------------------------------------------

  /**
   How the ODM treats a filter on a field the schema lacks: `StrictQuery`
   drops it (the filter then matches as if it were absent), `PassThrough`
   sends it to the database, where no record has the field.
   */
  datatype QueryMode = StrictQuery | PassThrough

  /** The first file with that id, and that owner when one is given. */
  function FindFile(files: seq<FileRec>, id: Id, owner: Option<Id>): (r: Option<nat>)
    ensures r.Some? ==> r.value < |files| && files[r.value].id == id
    ensures r.Some? && owner.Some? ==> files[r.value].owner == owner.value
    ensures r.Some? ==> forall k :: 0 <= k < r.value ==> !(files[k].id == id && (owner.None? || files[k].owner == owner.value))
    ensures r.None? <==> forall k :: 0 <= k < |files| ==> files[k].id != id || (owner.Some? && files[k].owner != owner.value)
  {
    if |files| == 0 then None
    else if files[0].id == id && (owner.None? || files[0].owner == owner.value) then Some(0)
    else match FindFile(files[1..], id, owner)
      case None => None
      case Some(k) => Some(k + 1)
  }

  /**
   `deleteFile` as written: `findOne({ _id, userId })`, then deletion of the
   record found. Storage is not touched: the model takes no storage client.
   Under `StrictQuery` the record is found by id alone, whoever owns it;
   under `PassThrough` it is never found.
   */
  function DeleteFile(db: Db, fileId: Id, userId: Id, mode: QueryMode): (r: Result<Db>)
    ensures mode == PassThrough ==> r == Err(FileNotFound)
    ensures mode == StrictQuery ==> (r.Err? <==> forall k :: 0 <= k < |db.files| ==> db.files[k].id != fileId)
    ensures r.Err? ==> r.message == FileNotFound
    ensures r.Ok? ==> r.value.folders == db.folders && |r.value.files| == |db.files| - 1
    ensures r.Ok? ==> exists i :: (0 <= i < |db.files| && db.files[i].id == fileId
      && multiset(r.value.files) + multiset{db.files[i]} == multiset(db.files))
  {
    match mode
    case PassThrough => Err(FileNotFound)
    case StrictQuery =>
      match FindFile(db.files, fileId, None)
      case None => Err(FileNotFound)
      case Some(i) => Ok(Db(db.folders, RemoveAt(db.files, i)))
  }

  /** So under `StrictQuery` one user deletes another's file. */
  lemma DeleteFileIgnoresOwner(u: Id, v: Id)
    requires u != v
    ensures var db := Db([], [FileRec("x1", "cv.pdf", "application/pdf", 10, "https://b/k", "drive/k", v, None, 0)]);
      DeleteFile(db, "x1", u, StrictQuery) == Ok(Db([], []))
  {
  }

  /** And under `PassThrough` no user deletes any file, not even their own. */
  lemma DeleteFileNeverFindsOwnFile(db: Db, k: nat, mode: QueryMode)
    requires k < |db.files| && mode == PassThrough
    ensures DeleteFile(db, db.files[k].id, db.files[k].owner, mode) == Err(FileNotFound)
  {
  }

  /** The deletion as meant: the record with that id owned by the user. */
  function DeleteOwnFile(db: Db, fileId: Id, userId: Id): (r: Result<Db>)
    ensures r.Err? <==> forall k :: 0 <= k < |db.files| ==> db.files[k].id != fileId || db.files[k].owner != userId
    ensures r.Err? ==> r.message == FileNotFound
    ensures r.Ok? ==> r.value.folders == db.folders && |r.value.files| == |db.files| - 1
    ensures r.Ok? ==> exists i :: (0 <= i < |db.files| && db.files[i].id == fileId && db.files[i].owner == userId
      && multiset(r.value.files) + multiset{db.files[i]} == multiset(db.files))
  {
    match FindFile(db.files, fileId, Some(userId))
    case None => Err(FileNotFound)
    case Some(i) => Ok(Db(db.folders, RemoveAt(db.files, i)))
  }

  /** With unique ids, the owner's own deletion is the same under both definitions. */
  lemma OwnDeletionAgrees(db: Db, fileId: Id, userId: Id)
    requires UniqueFileIds(db.files)
    requires exists k :: 0 <= k < |db.files| && db.files[k].id == fileId && db.files[k].owner == userId
    ensures DeleteFile(db, fileId, userId, StrictQuery) == DeleteOwnFile(db, fileId, userId)
  {
    var i := FindFile(db.files, fileId, None).value;
    var j := FindFile(db.files, fileId, Some(userId)).value;
    assert i == j;
  }

  /** Deleting a file takes it out of its folder's rollup and leaves every other folder's as it was. */
  lemma DeleteOwnFileUpdatesRollup(db: Db, fileId: Id, userId: Id, fid: Id)
    requires DeleteOwnFile(db, fileId, userId).Ok?
    ensures var i := FindFile(db.files, fileId, Some(userId)).value;
      var after := DeleteOwnFile(db, fileId, userId).value;
      && (db.files[i].folder == Some(fid) ==>
            RollupOf(db.files, fid) == Rollup(RollupOf(after.files, fid).fileCount + 1, RollupOf(after.files, fid).totalFileSize + db.files[i].size))
      && (db.files[i].folder != Some(fid) ==> RollupOf(after.files, fid) == RollupOf(db.files, fid))
  {
    var i := FindFile(db.files, fileId, Some(userId)).value;
    RollupAfterRemove(db.files, i, fid);
  }

  /**
   `getAllUserFiles` as written: `find({ userId })`. Under `StrictQuery`
   that is every file in the store; under `PassThrough`, none.
   */
  function GetAllUserFiles(db: Db, userId: Id, mode: QueryMode): (r: seq<FileRec>)
    ensures mode == PassThrough ==> r == []
    ensures mode == StrictQuery ==> r == db.files
  {
    match mode
    case PassThrough => []
    case StrictQuery => db.files
  }

  /** So under `StrictQuery` the listing shows other users' files. */
  lemma AllUserFilesLeak(db: Db, userId: Id, k: nat)
    requires k < |db.files| && db.files[k].owner != userId
    ensures db.files[k] in GetAllUserFiles(db, userId, StrictQuery)
  {
  }

  /** The listing as meant: exactly the user's files, in store order. */
  function GetOwnFiles(db: Db, userId: Id): (r: seq<FileRec>)
    ensures forall k :: 0 <= k < |r| ==> r[k] in db.files && r[k].owner == userId
    ensures forall k :: 0 <= k < |db.files| && db.files[k].owner == userId ==> db.files[k] in r
  {
    OwnedBy(db.files, userId)
  }

  /** A saved upload shows up in the uploader's own listing. */
  lemma UploadListedForOwner(db: Db, file: Upload, userId: Id, folderId: Option<Id>, limit: nat, cfg: BlobConfig,
                             stamp: nat, random: seq<byte>, send: Command -> SendOutcome, newId: Id, now: nat)
    requires UploadFile(db, file, userId, folderId, limit, cfg, stamp, random, send, newId, now).outcome.Saved?
    ensures var ing := UploadFile(db, file, userId, folderId, limit, cfg, stamp, random, send, newId, now);
      ing.outcome.file in GetOwnFiles(ing.db, userId)
  {
    var ing := UploadFile(db, file, userId, folderId, limit, cfg, stamp, random, send, newId, now);
    assert ing.db.files[|db.files|] == ing.outcome.file;
  }
}
