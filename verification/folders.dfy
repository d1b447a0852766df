/**
 The folder service: owner-scoped lookup and delete, creation with sibling
 name resolution, the root listing with per-folder rollups and recent files,
 and the folder detail with its files, subfolders and breadcrumb.
 */
module Folders {
  import opened Common
  import opened Records
  import opened Naming
  import opened Aggregates

  const FolderNotFound: string := "Folder not found"

  predicate IsOwned(f: Folder, id: Id, owner: Id) {
    f.id == id && f.owner == owner
  }

  /** `Folder.findOne({ _id, owner })`: the first folder with that id and owner. */
  function FindOwned(folders: seq<Folder>, id: Id, owner: Id): (r: Option<nat>)
    ensures r.Some? ==> r.value < |folders| && IsOwned(folders[r.value], id, owner)
    ensures r.Some? ==> forall k :: 0 <= k < r.value ==> !IsOwned(folders[k], id, owner)
    ensures r.None? ==> forall k :: 0 <= k < |folders| ==> !IsOwned(folders[k], id, owner)
  {
    if |folders| == 0 then None
    else if IsOwned(folders[0], id, owner) then Some(0)
    else match FindOwned(folders[1..], id, owner)
      case None => None
      case Some(k) => Some(k + 1)
  }

  /** `getFolder`: the folder with that id and owner, or "Folder not found". */
  function GetFolder(db: Db, id: Id, owner: Id): (r: Result<Folder>)
    ensures r.Ok? ==> r.value in db.folders && IsOwned(r.value, id, owner)
    ensures r.Err? <==> forall k :: 0 <= k < |db.folders| ==> !IsOwned(db.folders[k], id, owner)
    ensures r.Err? ==> r.message == FolderNotFound
  {
    match FindOwned(db.folders, id, owner)
    case None => Err(FolderNotFound)
    case Some(i) => Ok(db.folders[i])
  }

  // ---------------------------------------------------------------------
  // createFolder
  // ---------------------------------------------------------------------

  predicate InScope(f: Folder, owner: Id, parent: Option<Id>) {
    f.owner == owner && f.parent == parent
  }

  /** Names of the folders with the same owner and parent, in collection order. */
  function SiblingNames(folders: seq<Folder>, owner: Id, parent: Option<Id>): (r: seq<string>)
    ensures forall k :: 0 <= k < |folders| && InScope(folders[k], owner, parent) ==> folders[k].name in r
    ensures forall s :: s in r ==> exists g :: g in folders && InScope(g, owner, parent) && g.name == s
  {
    if |folders| == 0 then []
    else
      var rest := SiblingNames(folders[1..], owner, parent);
      assert forall k :: 1 <= k < |folders| ==> folders[k] == folders[1..][k - 1];
      assert forall g :: g in folders[1..] ==> g in folders;
      if InScope(folders[0], owner, parent) then [folders[0].name] + rest else rest
  }

  lemma {:induction false} SiblingNamesIgnoreForeign(folders: seq<Folder>, g: Folder, owner: Id, parent: Option<Id>)
    requires !InScope(g, owner, parent)
    ensures SiblingNames(folders + [g], owner, parent) == SiblingNames(folders, owner, parent)
  {
    if |folders| == 0 {
      assert SiblingNames([g], owner, parent) == [];
    } else {
      assert (folders + [g])[0] == folders[0];
      assert (folders + [g])[1..] == folders[1..] + [g];
      SiblingNamesIgnoreForeign(folders[1..], g, owner, parent);
    }
  }

  /**
   `createFolder`: appends a folder for `owner` under `parent` (a missing
   parent is `null`) whose name is the requested one when no folder in that
   sibling scope matches the pattern, and otherwise the name with ` (n)`
   appended, `n >= 1`. The new id and the timestamp come from the database.
   */
  function CreateFolder(db: Db, p: Pattern, name: string, parent: Option<Id>, owner: Id, newId: Id, now: nat): (r: (Db, Folder))
    requires NoRegexMeta(name)
    ensures r.1.id == newId && r.1.owner == owner && r.1.parent == parent && r.1.createdAt == now
    ensures r.0.folders == db.folders + [r.1] && r.0.files == db.files
    ensures (forall k :: 0 <= k < |db.folders| && InScope(db.folders[k], owner, parent) ==> !Matches(p, name, db.folders[k].name))
      ==> r.1.name == name
    ensures (exists k :: 0 <= k < |db.folders| && InScope(db.folders[k], owner, parent) && Matches(p, name, db.folders[k].name))
      ==> NextInScope(db.folders, p, name, owner, parent, r.1.name)
  {
    var siblings := SiblingNames(db.folders, owner, parent);
    var resolved := Resolve(p, name, siblings);
    ResolveInScope(db.folders, p, name, owner, parent);
    var f := Folder(newId, resolved, owner, parent, now);
    (Db(db.folders + [f], db.files), f)
  }

  /**
   `name (n)` with `n` one more than the largest number among the folders of
   the scope that match the pattern (that largest number may be 0).
   */
  ghost predicate NextInScope(folders: seq<Folder>, p: Pattern, name: string, owner: Id, parent: Option<Id>, stored: string) {
    exists n: nat ::
      && n >= 1
      && stored == Suffixed(name, n)
      && (forall k :: 0 <= k < |folders| && InScope(folders[k], owner, parent) && Matches(p, name, folders[k].name) ==>
            NumberOf(folders[k].name) < n)
      && (n == 1 || exists k :: (0 <= k < |folders| && InScope(folders[k], owner, parent)
            && Matches(p, name, folders[k].name) && NumberOf(folders[k].name) == n - 1))
  }

  /** The resolver's rule over the sibling names, read back over the folders of the scope. */
  lemma ResolveInScope(folders: seq<Folder>, p: Pattern, name: string, owner: Id, parent: Option<Id>)
    ensures (exists k :: 0 <= k < |folders| && InScope(folders[k], owner, parent) && Matches(p, name, folders[k].name))
      ==> NextInScope(folders, p, name, owner, parent, Resolve(p, name, SiblingNames(folders, owner, parent)))
  {
    if k0 :| 0 <= k0 < |folders| && InScope(folders[k0], owner, parent) && Matches(p, name, folders[k0].name) {
      ResolveFromMatch(folders, p, name, owner, parent, k0);
    }
  }

  lemma ResolveFromMatch(folders: seq<Folder>, p: Pattern, name: string, owner: Id, parent: Option<Id>, k0: nat)
    requires k0 < |folders| && InScope(folders[k0], owner, parent) && Matches(p, name, folders[k0].name)
    ensures NextInScope(folders, p, name, owner, parent, Resolve(p, name, SiblingNames(folders, owner, parent)))
  {
    var siblings := SiblingNames(folders, owner, parent);
    var found := Matching(p, name, siblings);
    assert folders[k0].name in found;
    var m := MaxNumber(Numbers(found));
    assert Resolve(p, name, siblings) == Suffixed(name, m + 1);
    MaxOfMatches(p, name, siblings);
    BoundInScope(folders, siblings, p, name, owner, parent, m);
    if m != 0 {
      WitnessInScope(folders, siblings, p, name, owner, parent, m);
    }
    NextFromMax(folders, p, name, owner, parent, m);
  }

  lemma NextFromMax(folders: seq<Folder>, p: Pattern, name: string, owner: Id, parent: Option<Id>, m: nat)
    requires forall k :: 0 <= k < |folders| && InScope(folders[k], owner, parent) && Matches(p, name, folders[k].name) ==>
      NumberOf(folders[k].name) <= m
    requires m == 0 || exists k :: (0 <= k < |folders| && InScope(folders[k], owner, parent)
      && Matches(p, name, folders[k].name) && NumberOf(folders[k].name) == m)
    ensures NextInScope(folders, p, name, owner, parent, Suffixed(name, m + 1))
  {
    assert m + 1 - 1 == m;
  }

  lemma BoundInScope(folders: seq<Folder>, siblings: seq<string>, p: Pattern, name: string, owner: Id, parent: Option<Id>, m: nat)
    requires siblings == SiblingNames(folders, owner, parent)
    requires forall j :: 0 <= j < |siblings| && Matches(p, name, siblings[j]) ==> NumberOf(siblings[j]) <= m
    ensures forall k :: 0 <= k < |folders| && InScope(folders[k], owner, parent) && Matches(p, name, folders[k].name) ==>
      NumberOf(folders[k].name) <= m
  {
    forall k | 0 <= k < |folders| && InScope(folders[k], owner, parent) && Matches(p, name, folders[k].name)
      ensures NumberOf(folders[k].name) <= m
    {
      assert folders[k].name in siblings;
      var j :| 0 <= j < |siblings| && siblings[j] == folders[k].name;
      assert Matches(p, name, siblings[j]);
    }
  }

  lemma WitnessInScope(folders: seq<Folder>, siblings: seq<string>, p: Pattern, name: string, owner: Id, parent: Option<Id>, m: nat)
    requires siblings == SiblingNames(folders, owner, parent)
    requires exists j :: 0 <= j < |siblings| && Matches(p, name, siblings[j]) && NumberOf(siblings[j]) == m
    ensures exists k :: (0 <= k < |folders| && InScope(folders[k], owner, parent)
      && Matches(p, name, folders[k].name) && NumberOf(folders[k].name) == m)
  {
    var j :| 0 <= j < |siblings| && Matches(p, name, siblings[j]) && NumberOf(siblings[j]) == m;
    assert siblings[j] in siblings;
    var g :| g in folders && InScope(g, owner, parent) && g.name == siblings[j];
    var k :| 0 <= k < |folders| && folders[k] == g;
  }

  /** Folders of other owners or under other parents never change the stored name. */
  lemma CreateIgnoresOtherScopes(db: Db, g: Folder, p: Pattern, name: string, parent: Option<Id>, owner: Id, newId: Id, now: nat)
    requires NoRegexMeta(name)
    requires g.owner != owner || g.parent != parent
    ensures CreateFolder(Db(db.folders + [g], db.files), p, name, parent, owner, newId, now).1
         == CreateFolder(db, p, name, parent, owner, newId, now).1
  {
    SiblingNamesIgnoreForeign(db.folders, g, owner, parent);
  }

  /** With the intended pattern, a new folder's name differs from every sibling's. */
  lemma CreateIntendedIsFresh(db: Db, name: string, parent: Option<Id>, owner: Id, newId: Id, now: nat)
    requires NoRegexMeta(name)
    ensures forall k :: 0 <= k < |db.folders| && InScope(db.folders[k], owner, parent) ==>
      db.folders[k].name != CreateFolder(db, Intended, name, parent, owner, newId, now).1.name
  {
    var siblings := SiblingNames(db.folders, owner, parent);
    IntendedResolvesFresh(name, siblings);
  }

  /** A fresh id keeps every id unique. */
  lemma CreateKeepsValid(db: Db, p: Pattern, name: string, parent: Option<Id>, owner: Id, newId: Id, now: nat)
    requires Valid(db) && NoRegexMeta(name)
    requires !FolderIdUsed(db.folders, newId)
    ensures Valid(CreateFolder(db, p, name, parent, owner, newId, now).0)
  {
  }

  /**
   Under the pattern as written, once any sibling matches, the new folder is
   always named `name (1)`.
   */
  lemma CreateAsWrittenAppendsOne(db: Db, name: string, parent: Option<Id>, owner: Id, newId: Id, now: nat)
    requires NoRegexMeta(name)
    requires exists k :: 0 <= k < |db.folders| && InScope(db.folders[k], owner, parent) && Matches(AsWritten, name, db.folders[k].name)
    ensures CreateFolder(db, AsWritten, name, parent, owner, newId, now).1.name == Suffixed(name, 1)
  {
    var siblings := SiblingNames(db.folders, owner, parent);
    var k :| 0 <= k < |db.folders| && InScope(db.folders[k], owner, parent) && Matches(AsWritten, name, db.folders[k].name);
    assert db.folders[k].name in siblings;
    AsWrittenAlwaysAppendsOne(name, siblings);
  }

  /**
   So with `name` and `name (1)` already in the scope (the state after two
   creations of the same name), a third creation stores a second `name (1)`.
   */
  lemma CreateAsWrittenDuplicates(db: Db, name: string, parent: Option<Id>, owner: Id, newId: Id, now: nat, i: nat, j: nat)
    requires NoRegexMeta(name)
    requires i < |db.folders| && InScope(db.folders[i], owner, parent) && db.folders[i].name == name
    requires j < |db.folders| && InScope(db.folders[j], owner, parent) && db.folders[j].name == Suffixed(name, 1)
    ensures db.folders[j].name == CreateFolder(db, AsWritten, name, parent, owner, newId, now).1.name
  {
    assert Body(AsWritten, name, db.folders[i].name);
    CreateAsWrittenAppendsOne(db, name, parent, owner, newId, now);
  }

  // ---------------------------------------------------------------------
  // deleteFolder
  // ---------------------------------------------------------------------

  /**
   `deleteFolder`: removes the one folder with that id and owner, leaving
   every other folder and every file (its children included) in place.
   */
  function DeleteFolder(db: Db, id: Id, owner: Id): (r: Result<Db>)
    ensures r.Err? <==> forall k :: 0 <= k < |db.folders| ==> !IsOwned(db.folders[k], id, owner)
    ensures r.Err? ==> r.message == FolderNotFound
    ensures r.Ok? ==> r.value.files == db.files && |r.value.folders| == |db.folders| - 1
    ensures r.Ok? ==> exists i :: (0 <= i < |db.folders| && IsOwned(db.folders[i], id, owner)
      && multiset(r.value.folders) + multiset{db.folders[i]} == multiset(db.folders))
  {
    match FindOwned(db.folders, id, owner)
    case None => Err(FolderNotFound)
    case Some(i) => Ok(Db(RemoveAt(db.folders, i), db.files))
  }

  /** With unique ids, exactly the folder with that id goes; its children stay, still pointing at it. */
  lemma DeleteFolderKeepsOthers(db: Db, id: Id, owner: Id)
    requires Valid(db) && DeleteFolder(db, id, owner).Ok?
    ensures var after := DeleteFolder(db, id, owner).value;
      && Valid(after)
      && !FolderIdUsed(after.folders, id)
      && (forall g :: g in db.folders && g.id != id ==> g in after.folders)
      && (forall g :: g in after.folders ==> g in db.folders)
  {
    var i := FindOwned(db.folders, id, owner).value;
    var after := RemoveAt(db.folders, i);
    forall g | g in db.folders && g.id != id
      ensures g in after
    {
      SurvivesRemoval(db.folders, i, g);
    }
    forall g | g in after
      ensures g in db.folders
    {
      assert g in multiset(after);
    }
    RemoveAtKeepsUnique(db.folders, i);
    forall k | 0 <= k < |after|
      ensures after[k].id != id
    {
      var k' := if k < i then k else k + 1;
      assert after[k] == db.folders[k'] && k' != i;
    }
  }

  // ---------------------------------------------------------------------
  // getAllUserFolders
  // ---------------------------------------------------------------------

  /** A projected root folder with its file rollup. */
  datatype FolderSummary = FolderSummary(
    id: Id, name: string, owner: Id, createdAt: nat, fileCount: nat, totalFileSize: nat)

  datatype RootListing = RootListing(folders: seq<FolderSummary>, files: seq<FileRec>)

  function Summarize(f: Folder, files: seq<FileRec>): (s: FolderSummary)
    ensures s.id == f.id && s.name == f.name && s.owner == f.owner && s.createdAt == f.createdAt
    ensures s.fileCount == |FilesIn(files, f.id)| && s.totalFileSize == SumSizes(FilesIn(files, f.id))
  {
    var roll := RollupOf(files, f.id);
    FolderSummary(f.id, f.name, f.owner, f.createdAt, roll.fileCount, roll.totalFileSize)
  }

  /** `$match: { parent: null }`: the root folders, in collection order. */
  function Roots(folders: seq<Folder>): (r: seq<Folder>)
    ensures forall k :: 0 <= k < |r| ==> r[k] in folders && r[k].parent == None
    ensures forall k :: 0 <= k < |folders| && folders[k].parent == None ==> folders[k] in r
  {
    if |folders| == 0 then []
    else
      var rest := Roots(folders[1..]);
      assert forall k :: 1 <= k < |folders| ==> folders[k] == folders[1..][k - 1];
      if folders[0].parent == None then [folders[0]] + rest else rest
  }

  /** The `$project` stage over a sequence of folders. */
  function SummarizeAll(folders: seq<Folder>, files: seq<FileRec>): (r: seq<FolderSummary>)
    ensures |r| == |folders|
    ensures forall k :: 0 <= k < |r| ==> r[k] == Summarize(folders[k], files)
  {
    if |folders| == 0 then []
    else [Summarize(folders[0], files)] + SummarizeAll(folders[1..], files)
  }

  /**
   `getAllUserFolders`: a summary of every root folder, whoever owns it, each
   with the count and total size of the files filed under it; and the
   owner's five newest files.
   */
  function GetAllUserFolders(db: Db, owner: Id): (r: RootListing)
    ensures |r.folders| == |Roots(db.folders)|
    ensures forall k :: 0 <= k < |r.folders| ==> r.folders[k] == Summarize(Roots(db.folders)[k], db.files)
    ensures |r.files| <= RecentLimit
    ensures forall k :: 0 <= k < |r.files| ==> r.files[k] in db.files && r.files[k].owner == owner
    ensures r.files == RecentFiles(db.files, owner)
  {
    RootListing(SummarizeAll(Roots(db.folders), db.files), RecentFiles(db.files, owner))
  }

  /**
   Every root folder in the store, of any owner, is in the listing, with its
   file count and total size.
   */
  lemma RootListingCoversAllRoots(db: Db, owner: Id, g: Folder)
    requires g in db.folders && g.parent == None
    ensures exists k :: (0 <= k < |GetAllUserFolders(db, owner).folders| &&
      GetAllUserFolders(db, owner).folders[k] == Summarize(g, db.files))
  {
    var roots := Roots(db.folders);
    var j :| 0 <= j < |db.folders| && db.folders[j] == g;
    var k :| 0 <= k < |roots| && roots[k] == g;
    assert GetAllUserFolders(db, owner).folders[k] == Summarize(g, db.files);
  }

  /** So the listing shows another owner's root folder: nothing filters folders by owner. */
  lemma RootListingLeaksOtherOwners(u: Id, v: Id)
    requires u != v
    ensures var db := Db([Folder("f1", "Private", v, None, 0)], []);
      exists k :: 0 <= k < |GetAllUserFolders(db, u).folders| && GetAllUserFolders(db, u).folders[k].owner == v
  {
    var db := Db([Folder("f1", "Private", v, None, 0)], []);
    RootListingCoversAllRoots(db, u, db.folders[0]);
  }

  /** The owner's root folders only, as the listing was meant to return. */
  function OwnedRoots(folders: seq<Folder>, owner: Id): (r: seq<Folder>)
    ensures forall k :: 0 <= k < |r| ==> r[k] in folders && r[k].parent == None && r[k].owner == owner
    ensures forall k :: 0 <= k < |folders| && folders[k].parent == None && folders[k].owner == owner ==> folders[k] in r
  {
    if |folders| == 0 then []
    else
      var rest := OwnedRoots(folders[1..], owner);
      assert forall k :: 1 <= k < |folders| ==> folders[k] == folders[1..][k - 1];
      if folders[0].parent == None && folders[0].owner == owner then [folders[0]] + rest else rest
  }

  /** The root listing with the owner predicate on the folder match as well. */
  function GetOwnRootFolders(db: Db, owner: Id): (r: RootListing)
    ensures forall k :: 0 <= k < |r.folders| ==> r.folders[k].owner == owner
    ensures forall k :: 0 <= k < |r.folders| ==>
      && r.folders[k].fileCount == |FilesIn(db.files, r.folders[k].id)|
      && r.folders[k].totalFileSize == SumSizes(FilesIn(db.files, r.folders[k].id))
    ensures r.files == RecentFiles(db.files, owner)
  {
    var roots := OwnedRoots(db.folders, owner);
    var summaries := SummarizeAll(roots, db.files);
    assert forall k :: 0 <= k < |summaries| ==> summaries[k].owner == roots[k].owner;
    RootListing(summaries, RecentFiles(db.files, owner))
  }

  /** The corrected listing holds exactly the owner's root folders. */
  lemma OwnRootsExactlyOwners(db: Db, owner: Id, g: Folder)
    requires g in db.folders && g.parent == None
    ensures g.owner == owner <==>
      exists k :: 0 <= k < |GetOwnRootFolders(db, owner).folders| && GetOwnRootFolders(db, owner).folders[k] == Summarize(g, db.files)
  {
    var roots := OwnedRoots(db.folders, owner);
    var r := GetOwnRootFolders(db, owner).folders;
    if g.owner == owner {
      var j :| 0 <= j < |db.folders| && db.folders[j] == g;
      var k :| 0 <= k < |roots| && roots[k] == g;
      assert r[k] == Summarize(g, db.files);
    }
  }

  // ---------------------------------------------------------------------
  // getSpecificFolder
  // ---------------------------------------------------------------------

  /** One breadcrumb entry with the `level` the lookup records (0 = the parent). */
  datatype Crumb = Crumb(folder: Folder, level: nat)

  datatype FolderDetail = FolderDetail(
    id: Id,
    name: string,
    owner: Id,
    createdAt: nat,
    files: seq<FileRec>,
    subFolders: seq<Folder>,
    breadcrumb: seq<Crumb>,
    fileCount: nat,
    totalFileSize: nat)

  /** `$reverseArray` of the ancestors walked from `start`: farthest first, parent last. */
  function Breadcrumb(folders: seq<Folder>, start: Option<Id>): (r: seq<Crumb>)
    ensures |r| == |Ancestors(folders, start)|
    ensures forall k :: 0 <= k < |r| ==>
      r[k] == Crumb(Ancestors(folders, start)[|r| - 1 - k], |r| - 1 - k)
  {
    var anc := Ancestors(folders, start);
    seq(|anc|, k requires 0 <= k < |anc| => Crumb(anc[|anc| - 1 - k], |anc| - 1 - k))
  }

  function Detail(f: Folder, db: Db): (d: FolderDetail)
    ensures d.id == f.id && d.name == f.name && d.owner == f.owner && d.createdAt == f.createdAt
    ensures d.files == FilesIn(db.files, f.id) && d.subFolders == ChildrenOf(db.folders, f.id)
    ensures d.breadcrumb == Breadcrumb(db.folders, f.parent)
    ensures d.fileCount == |d.files| && d.totalFileSize == SumSizes(d.files)
  {
    var roll := RollupOf(db.files, f.id);
    FolderDetail(f.id, f.name, f.owner, f.createdAt,
      FilesIn(db.files, f.id), ChildrenOf(db.folders, f.id), Breadcrumb(db.folders, f.parent),
      roll.fileCount, roll.totalFileSize)
  }

  /** `$match: { _id, owner }`. */
  function OwnedMatches(folders: seq<Folder>, id: Id, owner: Id): (r: seq<Folder>)
    ensures forall k :: 0 <= k < |r| ==> r[k] in folders && IsOwned(r[k], id, owner)
    ensures forall k :: 0 <= k < |folders| && IsOwned(folders[k], id, owner) ==> folders[k] in r
    ensures (forall k :: 0 <= k < |folders| ==> !IsOwned(folders[k], id, owner)) ==> r == []
  {
    if |folders| == 0 then []
    else
      var rest := OwnedMatches(folders[1..], id, owner);
      assert forall k :: 1 <= k < |folders| ==> folders[k] == folders[1..][k - 1];
      if IsOwned(folders[0], id, owner) then [folders[0]] + rest else rest
  }

  /**
   `getSpecificFolder`: the aggregation result, an array with one detail per
   folder matching id and owner. The `!folder` test on that array never
   fires, so no match gives the empty array rather than "Folder not found".
   */
  function GetSpecificFolder(db: Db, id: Id, owner: Id): (r: seq<FolderDetail>)
    ensures (forall k :: 0 <= k < |db.folders| ==> !IsOwned(db.folders[k], id, owner)) <==> r == []
    ensures forall k :: 0 <= k < |r| ==> r[k].id == id && r[k].owner == owner
    ensures forall k :: 0 <= k < |r| ==> exists g :: g in db.folders && IsOwned(g, id, owner) && r[k] == Detail(g, db)
  {
    var matches := OwnedMatches(db.folders, id, owner);
    seq(|matches|, k requires 0 <= k < |matches| => Detail(matches[k], db))
  }

  lemma {:induction false} OwnedMatchesUnique(folders: seq<Folder>, id: Id, owner: Id)
    requires UniqueFolderIds(folders)
    ensures |OwnedMatches(folders, id, owner)| <= 1
  {
    if |folders| > 0 {
      var tail := folders[1..];
      OwnedMatchesUnique(tail, id, owner);
      if IsOwned(folders[0], id, owner) {
        forall k | 0 <= k < |tail|
          ensures !IsOwned(tail[k], id, owner)
        {
          assert tail[k] == folders[k + 1];
        }
      }
    }
  }

  /** With unique ids the result holds at most one detail. */
  lemma GetSpecificFolderAtMostOne(db: Db, id: Id, owner: Id)
    requires Valid(db)
    ensures |GetSpecificFolder(db, id, owner)| <= 1
  {
    OwnedMatchesUnique(db.folders, id, owner);
  }

  /**
   For a folder `d` levels deep in a tree with unique ids, the breadcrumb has
   `d` entries: the root first, the folder's parent last, levels counting
   down to 0, the folder itself not among them.
   */
  lemma BreadcrumbRootFirst(db: Db, f: Folder, anc: seq<Folder>)
    requires Valid(db)
    requires AncestorChain(db.folders, f.parent, anc)
    requires forall k :: 0 <= k < |anc| ==> anc[k].id != f.id
    ensures var b := Breadcrumb(db.folders, f.parent);
      && |b| == |anc|
      && (forall k :: 0 <= k < |b| ==> b[k].folder == anc[|anc| - 1 - k] && b[k].level == |anc| - 1 - k)
      && (|b| > 0 ==> b[0].folder.parent == None && f.parent == Some(b[|b| - 1].folder.id))
      && (forall k :: 0 <= k < |b| ==> b[k].folder.id != f.id)
  {
    AncestorsFollowChain(db.folders, f.parent, anc);
  }

  /** The detail lookup as meant: the matching folder's detail, or "Folder not found". */
  function GetFolderDetail(db: Db, id: Id, owner: Id): (r: Result<FolderDetail>)
    ensures r.Err? <==> forall k :: 0 <= k < |db.folders| ==> !IsOwned(db.folders[k], id, owner)
    ensures r.Err? ==> r.message == FolderNotFound
    ensures r.Ok? ==> exists g :: g in db.folders && IsOwned(g, id, owner) && r.value == Detail(g, db)
  {
    match FindOwned(db.folders, id, owner)
    case None => Err(FolderNotFound)
    case Some(i) => Ok(Detail(db.folders[i], db))
  }

  /** An id nobody owns: the detail lookup as written answers `[]`, the corrected one "Folder not found". */
  lemma MissingFolderGivesEmptyArray(u: Id, v: Id)
    requires u != v
    ensures var db := Db([Folder("f1", "Docs", v, None, 0)], []);
      GetSpecificFolder(db, "f1", u) == [] && GetFolderDetail(db, "f1", u) == Err(FolderNotFound)
  {
  }

  /** With unique ids, the array the source returns is the corrected result, or empty. */
  lemma DetailAgreesWithArray(db: Db, id: Id, owner: Id)
    requires Valid(db)
    ensures GetFolderDetail(db, id, owner).Ok? ==> GetSpecificFolder(db, id, owner) == [GetFolderDetail(db, id, owner).value]
    ensures GetFolderDetail(db, id, owner).Err? ==> GetSpecificFolder(db, id, owner) == []
  {
    OwnedMatchesUnique(db.folders, id, owner);
    var matches := OwnedMatches(db.folders, id, owner);
    var found := FindOwned(db.folders, id, owner);
    if found.Some? {
      var g := db.folders[found.value];
      assert g in matches;
      assert |matches| == 1 && matches[0] == g;
      assert GetSpecificFolder(db, id, owner)[0] == Detail(g, db);
    } else {
      assert |matches| == 0;
    }
  }
}
