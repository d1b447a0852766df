/**
 The persisted record shapes (the Folder, File and User schemas) and the
 metadata store that holds the folder and file collections in their natural
 (insertion) order.
 */
module Records {
  import opened Common

  /** A folder document; `parent == None` is a root folder (the schema's `null` default). */
  datatype Folder = Folder(id: Id, name: string, owner: Id, parent: Option<Id>, createdAt: nat)

  /** A file document; `folder == None` is an unfiled file. */
  datatype FileRec = FileRec(
    id: Id,
    name: string,
    mimetype: string,
    size: nat,
    url: string,
    s3Uri: string,
    owner: Id,
    folder: Option<Id>,
    createdAt: nat)

  /** A user document; `storageUsed` starts at 0 and nothing updates it. */
  datatype User = User(id: Id, email: string, password: string, storageUsed: nat)

  /** The folder and file collections. */
  datatype Db = Db(folders: seq<Folder>, files: seq<FileRec>)

  ghost predicate UniqueFolderIds(folders: seq<Folder>) {
    forall i, j :: 0 <= i < j < |folders| ==> folders[i].id != folders[j].id
  }

  ghost predicate UniqueFileIds(files: seq<FileRec>) {
    forall i, j :: 0 <= i < j < |files| ==> files[i].id != files[j].id
  }

  /** Every `_id` is unique within its collection, as MongoDB guarantees. */
  ghost predicate Valid(db: Db) {
    UniqueFolderIds(db.folders) && UniqueFileIds(db.files)
  }

  predicate FolderIdUsed(folders: seq<Folder>, id: Id) {
    exists k :: 0 <= k < |folders| && folders[k].id == id
  }

  predicate FileIdUsed(files: seq<FileRec>, id: Id) {
    exists k :: 0 <= k < |files| && files[k].id == id
  }

  /** Removing one element keeps the others, in order. */
  function RemoveAt<T>(s: seq<T>, i: nat): (r: seq<T>)
    requires i < |s|
    ensures |r| == |s| - 1
    ensures multiset(r) + multiset{s[i]} == multiset(s)
    ensures forall k :: 0 <= k < i ==> r[k] == s[k]
    ensures forall k :: i <= k < |r| ==> r[k] == s[k + 1]
  {
    assert s == s[..i] + [s[i]] + s[i + 1..];
    s[..i] + s[i + 1..]
  }
}
