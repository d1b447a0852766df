/**
 The in-memory counterparts of the aggregation stages the folder service
 runs: the `$lookup` of a folder's files and subfolders, the `$size` and
 `$sum` rollups, the `sort({createdAt: -1}).limit(5)` of recent files, and
 the `$graphLookup` ancestor walk behind the breadcrumb.
 */
module Aggregates {
  import opened Common
  import opened Records

  // ---------------------------------------------------------------------
  // Joins
  // ---------------------------------------------------------------------

  /** `$lookup` of files whose `folder` is `fid`, in collection order. */
  function FilesIn(files: seq<FileRec>, fid: Id): (r: seq<FileRec>)
    ensures |r| <= |files|
    ensures forall k :: 0 <= k < |r| ==> r[k] in files && r[k].folder == Some(fid)
    ensures forall k :: 0 <= k < |files| && files[k].folder == Some(fid) ==> files[k] in r
  {
    if |files| == 0 then []
    else
      var rest := FilesIn(files[1..], fid);
      assert forall k :: 1 <= k < |files| ==> files[k] == files[1..][k - 1];
      if files[0].folder == Some(fid) then [files[0]] + rest else rest
  }

  /** `$lookup` of folders whose `parent` is `fid`, in collection order. */
  function ChildrenOf(folders: seq<Folder>, fid: Id): (r: seq<Folder>)
    ensures |r| <= |folders|
    ensures forall k :: 0 <= k < |r| ==> r[k] in folders && r[k].parent == Some(fid)
    ensures forall k :: 0 <= k < |folders| && folders[k].parent == Some(fid) ==> folders[k] in r
  {
    if |folders| == 0 then []
    else
      var rest := ChildrenOf(folders[1..], fid);
      assert forall k :: 1 <= k < |folders| ==> folders[k] == folders[1..][k - 1];
      if folders[0].parent == Some(fid) then [folders[0]] + rest else rest
  }

  /** `$sum` of the `size` field. */
  function SumSizes(files: seq<FileRec>): nat {
    if |files| == 0 then 0 else files[0].size + SumSizes(files[1..])
  }

  lemma SumSizesAppend(a: seq<FileRec>, b: seq<FileRec>)
    ensures SumSizes(a + b) == SumSizes(a) + SumSizes(b)
  {
    if |a| == 0 {
      assert a + b == b;
    } else {
      assert (a + b)[1..] == a[1..] + b;
      SumSizesAppend(a[1..], b);
    }
  }

  /** The indexes of the files filed under `fid`: an independent count of them. */
  ghost function FiledIndexes(files: seq<FileRec>, fid: Id): set<nat> {
    set k: nat | k < |files| && files[k].folder == Some(fid)
  }

  /** The join holds exactly one entry per file filed under the folder. */
  lemma {:induction false} FilesInCountsFiled(files: seq<FileRec>, fid: Id)
    ensures |FilesIn(files, fid)| == |FiledIndexes(files, fid)|
    decreases |files|
  {
    if |files| > 0 {
      var init := files[..|files| - 1];
      var last := files[|files| - 1];
      assert files == init + [last];
      FilesInCountsFiled(init, fid);
      FilesInAppend(init, last, fid);
      FiledIndexesAppend(init, last, fid);
    }
  }

  /** Appending a file adds its index exactly when it is filed under the folder. */
  lemma FiledIndexesAppend(init: seq<FileRec>, last: FileRec, fid: Id)
    ensures last.folder == Some(fid) ==>
      FiledIndexes(init + [last], fid) == FiledIndexes(init, fid) + {|init|}
    ensures last.folder == Some(fid) ==> |init| !in FiledIndexes(init, fid)
    ensures last.folder != Some(fid) ==> FiledIndexes(init + [last], fid) == FiledIndexes(init, fid)
  {
    var files := init + [last];
    var before := FiledIndexes(init, fid);
    var after := FiledIndexes(files, fid);
    forall k | k in before
      ensures k in after
    {
      assert files[k] == init[k];
    }
    forall k | k in after && k != |init|
      ensures k in before
    {
      assert files[k] == init[k];
    }
  }

  /**
   The `fileCount`/`totalFileSize` pair of a folder: the number of files
   filed under it and the sum of their sizes (both 0 without files).
   */
  datatype Rollup = Rollup(fileCount: nat, totalFileSize: nat)

  function RollupOf(files: seq<FileRec>, fid: Id): (r: Rollup)
    ensures r.fileCount == |FilesIn(files, fid)|
    ensures r.totalFileSize == SumSizes(FilesIn(files, fid))
    ensures r.fileCount == 0 ==> r.totalFileSize == 0
  {
    var direct := FilesIn(files, fid);
    Rollup(|direct|, if |direct| > 0 then SumSizes(direct) else 0)
  }

  /** Appending a file filed under `fid` adds one to its count and its size to its total. */
  lemma {:induction false} RollupAfterAppend(files: seq<FileRec>, f: FileRec, fid: Id)
    ensures f.folder == Some(fid) ==>
      RollupOf(files + [f], fid) == Rollup(RollupOf(files, fid).fileCount + 1, RollupOf(files, fid).totalFileSize + f.size)
    ensures f.folder != Some(fid) ==> RollupOf(files + [f], fid) == RollupOf(files, fid)
  {
    FilesInAppend(files, f, fid);
    if f.folder == Some(fid) {
      SumSizesAppend(FilesIn(files, fid), [f]);
    } else {
      assert FilesIn(files, fid) + [] == FilesIn(files, fid);
    }
  }

  lemma FilesInAppend(files: seq<FileRec>, f: FileRec, fid: Id)
    ensures FilesIn(files + [f], fid) == FilesIn(files, fid) + (if f.folder == Some(fid) then [f] else [])
  {
    FilesInConcat(files, [f], fid);
  }

  /** Removing a file filed under `fid` takes one from its count and its size from its total. */
  lemma RollupAfterRemove(files: seq<FileRec>, i: nat, fid: Id)
    requires i < |files|
    ensures files[i].folder == Some(fid) ==>
      RollupOf(files, fid) == Rollup(RollupOf(RemoveAt(files, i), fid).fileCount + 1,
                                    RollupOf(RemoveAt(files, i), fid).totalFileSize + files[i].size)
    ensures files[i].folder != Some(fid) ==> RollupOf(RemoveAt(files, i), fid) == RollupOf(files, fid)
  {
    FilesInAroundRemoval(files, i, fid);
    if files[i].folder == Some(fid) {
      SumSizesAround(FilesIn(files[..i], fid), files[i], FilesIn(files[i + 1..], fid));
    }
  }

  /** A file between two runs adds its size to their sum. */
  lemma SumSizesAround(a: seq<FileRec>, x: FileRec, b: seq<FileRec>)
    ensures SumSizes(a + [x] + b) == SumSizes(a + b) + x.size
  {
    SumSizesAppend(a, b);
    SumSizesAppend(a + [x], b);
    SumSizesAppend(a, [x]);
    assert SumSizes([x]) == x.size by {
      assert [x][1..] == [];
    }
  }

  /** The join before and after a removal, split around the removed file. */
  lemma {:induction false} FilesInAroundRemoval(files: seq<FileRec>, i: nat, fid: Id)
    requires i < |files|
    ensures FilesIn(RemoveAt(files, i), fid) == FilesIn(files[..i], fid) + FilesIn(files[i + 1..], fid)
    ensures files[i].folder == Some(fid) ==>
      FilesIn(files, fid) == FilesIn(files[..i], fid) + [files[i]] + FilesIn(files[i + 1..], fid)
    ensures files[i].folder != Some(fid) ==>
      FilesIn(files, fid) == FilesIn(files[..i], fid) + FilesIn(files[i + 1..], fid)
  {
    var pre := files[..i];
    var post := files[i + 1..];
    var x := files[i];
    assert files == (pre + [x]) + post;
    assert RemoveAt(files, i) == pre + post;
    FilesInConcat(pre + [x], post, fid);
    FilesInAppend(pre, x, fid);
    FilesInConcat(pre, post, fid);
    if x.folder != Some(fid) {
      assert FilesIn(pre + [x], fid) == FilesIn(pre, fid);
    }
  }

  lemma {:induction false} FilesInConcat(a: seq<FileRec>, b: seq<FileRec>, fid: Id)
    ensures FilesIn(a + b, fid) == FilesIn(a, fid) + FilesIn(b, fid)
  {
    if |a| == 0 {
      assert a + b == b;
    } else {
      assert (a + b)[0] == a[0];
      assert (a + b)[1..] == a[1..] + b;
      FilesInConcat(a[1..], b, fid);
    }
  }

  // ---------------------------------------------------------------------
  // Recent files: sort by createdAt descending, keep the first five
  // ---------------------------------------------------------------------

  ghost predicate NewestFirst(s: seq<FileRec>) {
    forall i, j :: 0 <= i < j < |s| ==> s[i].createdAt >= s[j].createdAt
  }

  function InsertNewestFirst(f: FileRec, s: seq<FileRec>): (r: seq<FileRec>)
    requires NewestFirst(s)
    ensures NewestFirst(r)
    ensures multiset(r) == multiset(s) + multiset{f}
  {
    if |s| == 0 || f.createdAt >= s[0].createdAt then [f] + s
    else
      var rest := InsertNewestFirst(f, s[1..]);
      assert s == [s[0]] + s[1..];
      BoundedByHead(s, f, rest);
      Prepend(s[0], rest);
      [s[0]] + rest
  }

  lemma BoundedByHead(s: seq<FileRec>, f: FileRec, rest: seq<FileRec>)
    requires |s| > 0 && NewestFirst(s) && f.createdAt < s[0].createdAt
    requires multiset(rest) == multiset(s[1..]) + multiset{f}
    ensures forall k :: 0 <= k < |rest| ==> rest[k].createdAt <= s[0].createdAt
  {
    forall k | 0 <= k < |rest|
      ensures rest[k].createdAt <= s[0].createdAt
    {
      assert rest[k] in multiset(rest);
      if rest[k] != f {
        assert rest[k] in multiset(s[1..]);
        var j :| 0 <= j < |s[1..]| && s[1..][j] == rest[k];
        assert s[j + 1] == rest[k];
      }
    }
  }

  lemma Prepend(x: FileRec, rest: seq<FileRec>)
    requires NewestFirst(rest)
    requires forall k :: 0 <= k < |rest| ==> rest[k].createdAt <= x.createdAt
    ensures NewestFirst([x] + rest)
  {
    var r := [x] + rest;
    forall i, j | 0 <= i < j < |r|
      ensures r[i].createdAt >= r[j].createdAt
    {
      assert r[j] == rest[j - 1];
      if i > 0 {
        assert r[i] == rest[i - 1];
      }
    }
  }

  /** `sort({ createdAt: -1 })`; the order among equal timestamps is not promised. */
  function SortNewestFirst(s: seq<FileRec>): (r: seq<FileRec>)
    ensures NewestFirst(r)
    ensures multiset(r) == multiset(s)
  {
    if |s| == 0 then []
    else
      assert s == [s[0]] + s[1..];
      InsertNewestFirst(s[0], SortNewestFirst(s[1..]))
  }

  function OwnedBy(files: seq<FileRec>, owner: Id): (r: seq<FileRec>)
    ensures forall k :: 0 <= k < |r| ==> r[k] in files && r[k].owner == owner
    ensures forall k :: 0 <= k < |files| && files[k].owner == owner ==> files[k] in r
    ensures |r| <= |files|
  {
    if |files| == 0 then []
    else
      var rest := OwnedBy(files[1..], owner);
      assert forall k :: 1 <= k < |files| ==> files[k] == files[1..][k - 1];
      if files[0].owner == owner then [files[0]] + rest else rest
  }

  /** The limit `getAllUserFolders` applies to recent files. */
  const RecentLimit: nat := 5

  /**
   `File.find({ owner }).sort({ createdAt: -1 }).limit(5)`: at most five of the
   owner's files, newest first, and no file of the owner left out is newer
   than one kept.
   */
  function RecentFiles(files: seq<FileRec>, owner: Id): (r: seq<FileRec>)
    ensures |r| <= RecentLimit
    ensures |r| == if |OwnedBy(files, owner)| < RecentLimit then |OwnedBy(files, owner)| else RecentLimit
    ensures forall k :: 0 <= k < |r| ==> r[k] in files && r[k].owner == owner
    ensures NewestFirst(r)
    ensures forall g, k :: g in files && g.owner == owner && g !in r && 0 <= k < |r| ==>
      r[k].createdAt >= g.createdAt
    // no document twice: each kept file is taken from the owner's files
    ensures multiset(r) <= multiset(OwnedBy(files, owner))
  {
    var owned := OwnedBy(files, owner);
    var sorted := SortNewestFirst(owned);
    assert |sorted| == |owned| by {
      assert |multiset(sorted)| == |multiset(owned)|;
    }
    var n := if |sorted| < RecentLimit then |sorted| else RecentLimit;
    PrefixOfSorted(files, owner, owned, sorted, n);
    PrefixIsSubMultiset(sorted, n);
    sorted[..n]
  }

  lemma PrefixIsSubMultiset<T>(s: seq<T>, n: nat)
    requires n <= |s|
    ensures multiset(s[..n]) <= multiset(s)
  {
    assert s == s[..n] + s[n..];
  }

  /** The first `n` of a newest-first permutation of the owner's files are the newest `n`. */
  lemma PrefixOfSorted(files: seq<FileRec>, owner: Id, owned: seq<FileRec>, sorted: seq<FileRec>, n: nat)
    requires owned == OwnedBy(files, owner)
    requires NewestFirst(sorted) && multiset(sorted) == multiset(owned)
    requires n <= |sorted|
    ensures forall k :: 0 <= k < n ==> sorted[k] in files && sorted[k].owner == owner
    ensures NewestFirst(sorted[..n])
    ensures forall g, k :: g in files && g.owner == owner && g !in sorted[..n] && 0 <= k < n ==>
      sorted[..n][k].createdAt >= g.createdAt
  {
    var r := sorted[..n];
    forall k | 0 <= k < n
      ensures sorted[k] in files && sorted[k].owner == owner
    {
      assert sorted[k] in multiset(sorted);
      assert sorted[k] in owned;
    }
    forall g, k | g in files && g.owner == owner && g !in r && 0 <= k < n
      ensures r[k].createdAt >= g.createdAt
    {
      var m :| 0 <= m < |files| && files[m] == g;
      assert g in owned;
      assert g in multiset(sorted);
      var j :| 0 <= j < |sorted| && sorted[j] == g;
      if j < n {
        assert r[j] == g;
      }
    }
  }

  // ---------------------------------------------------------------------
  // Ancestors: the `$graphLookup` from `parent` to `_id`
  // ---------------------------------------------------------------------

  /** Index of the first folder with the given id. */
  function IndexOfFolder(folders: seq<Folder>, id: Id): (r: Option<nat>)
    ensures r.Some? ==> r.value < |folders| && folders[r.value].id == id
    ensures r.None? ==> forall k :: 0 <= k < |folders| ==> folders[k].id != id
  {
    if |folders| == 0 then None
    else if folders[0].id == id then Some(0)
    else match IndexOfFolder(folders[1..], id)
      case None => None
      case Some(k) => Some(k + 1)
  }

  /**
   Where the walk stops: with nothing found, `start` is no stored id; after
   the last folder found, that folder is a root or no folder left unvisited
   carries its parent's id (the parent is missing, or was already visited).
   */
  ghost predicate WalkEnds(pool: seq<Folder>, start: Option<Id>, r: seq<Folder>) {
    && (|r| == 0 ==> start.None? || forall k :: 0 <= k < |pool| ==> pool[k].id != start.value)
    && (|r| > 0 ==>
          (r[|r| - 1].parent.None? || forall g :: g in multiset(pool) - multiset(r) ==> g.id != r[|r| - 1].parent.value))
  }

  /**
   The ancestors reached from `start`, nearest first. Each folder taken is
   removed from the pool, as the lookup never visits an `_id` twice, so the
   walk ends at a root, at a parent that no longer exists, or where the
   parent links close a cycle.
   */
  function Ancestors(pool: seq<Folder>, start: Option<Id>): (r: seq<Folder>)
    ensures |r| <= |pool|
    ensures forall k :: 0 <= k < |r| ==> r[k] in pool
    ensures |r| > 0 ==> start == Some(r[0].id)
    ensures forall k :: 0 <= k < |r| - 1 ==> r[k].parent == Some(r[k + 1].id)
    ensures start.Some? && (exists k :: 0 <= k < |pool| && pool[k].id == start.value) ==> |r| > 0
    // each stored folder is visited at most once, and with unique ids no id twice
    ensures multiset(r) <= multiset(pool)
    ensures UniqueFolderIds(pool) ==> UniqueFolderIds(r)
    ensures WalkEnds(pool, start, r)
    decreases |pool|
  {
    match start
    case None => []
    case Some(pid) =>
      match IndexOfFolder(pool, pid)
      case None => []
      case Some(i) =>
        var rest := Ancestors(RemoveAt(pool, i), pool[i].parent);
        forall k | 0 <= k < |rest|
          ensures rest[k] in pool
        {
          RemovedFromPool(pool, i, rest[k]);
        }
        ExtendWalk(pool, i, rest);
        [pool[i]] + rest
  }

  /** The walk's guarantees carry over from the rest of the pool to the whole pool. */
  lemma ExtendWalk(pool: seq<Folder>, i: nat, rest: seq<Folder>)
    requires i < |pool|
    requires multiset(rest) <= multiset(RemoveAt(pool, i))
    requires UniqueFolderIds(RemoveAt(pool, i)) ==> UniqueFolderIds(rest)
    requires WalkEnds(RemoveAt(pool, i), pool[i].parent, rest)
    ensures multiset([pool[i]] + rest) <= multiset(pool)
    ensures UniqueFolderIds(pool) ==> UniqueFolderIds([pool[i]] + rest)
    ensures WalkEnds(pool, Some(pool[i].id), [pool[i]] + rest)
  {
    assert multiset([pool[i]] + rest) == multiset{pool[i]} + multiset(rest);
    if UniqueFolderIds(pool) {
      RemoveAtKeepsUnique(pool, i);
      ExtendUnique(pool, i, rest);
    }
    ExtendEnds(pool, i, rest);
  }

  lemma ExtendUnique(pool: seq<Folder>, i: nat, rest: seq<Folder>)
    requires i < |pool| && UniqueFolderIds(pool) && UniqueFolderIds(rest)
    requires multiset(rest) <= multiset(RemoveAt(pool, i))
    ensures UniqueFolderIds([pool[i]] + rest)
  {
    forall k | 0 <= k < |rest|
      ensures rest[k].id != pool[i].id
    {
      assert rest[k] in multiset(rest);
      OtherIdsDiffer(pool, i, rest[k]);
    }
    ConsUnique(pool[i], rest);
  }

  lemma ConsUnique(x: Folder, rest: seq<Folder>)
    requires UniqueFolderIds(rest)
    requires forall k :: 0 <= k < |rest| ==> rest[k].id != x.id
    ensures UniqueFolderIds([x] + rest)
  {
    var r := [x] + rest;
    forall a, b | 0 <= a < b < |r|
      ensures r[a].id != r[b].id
    {
      assert r[b] == rest[b - 1];
      if a > 0 {
        assert r[a] == rest[a - 1];
      }
    }
  }

  lemma ExtendEnds(pool: seq<Folder>, i: nat, rest: seq<Folder>)
    requires i < |pool|
    requires WalkEnds(RemoveAt(pool, i), pool[i].parent, rest)
    ensures WalkEnds(pool, Some(pool[i].id), [pool[i]] + rest)
  {
    var others := RemoveAt(pool, i);
    var r := [pool[i]] + rest;
    assert multiset(pool) - multiset(r) == multiset(others) - multiset(rest) by {
      assert multiset(r) == multiset{pool[i]} + multiset(rest);
    }
    if |rest| == 0 && pool[i].parent.Some? {
      forall g: Folder | g in multiset(others)
        ensures g.id != pool[i].parent.value
      {
        assert g in others;
      }
    } else if |rest| > 0 {
      assert r[|r| - 1] == rest[|rest| - 1];
    }
  }

  /** With unique ids, no folder left after a removal shares the removed folder's id. */
  lemma OtherIdsDiffer(pool: seq<Folder>, i: nat, g: Folder)
    requires i < |pool| && UniqueFolderIds(pool) && g in multiset(RemoveAt(pool, i))
    ensures g.id != pool[i].id
  {
    var others := RemoveAt(pool, i);
    var m :| 0 <= m < |others| && others[m] == g;
    if m < i {
      assert others[m] == pool[m];
    } else {
      assert others[m] == pool[m + 1];
    }
  }

  lemma RemovedFromPool(pool: seq<Folder>, i: nat, x: Folder)
    requires i < |pool| && x in RemoveAt(pool, i)
    ensures x in pool
  {
    assert x in multiset(RemoveAt(pool, i));
  }

  /**
   A chain of `d` distinct ancestors ending at a root: `anc[0]` is the parent,
   each next entry the parent of the previous one, the last one a root.
   */
  ghost predicate AncestorChain(folders: seq<Folder>, start: Option<Id>, anc: seq<Folder>) {
    && (|anc| == 0 ==> start == None)
    && (|anc| > 0 ==> start == Some(anc[0].id) && anc[|anc| - 1].parent == None)
    && (forall k :: 0 <= k < |anc| ==> anc[k] in folders)
    && (forall k :: 0 <= k < |anc| - 1 ==> anc[k].parent == Some(anc[k + 1].id))
    && (forall i, j :: 0 <= i < j < |anc| ==> anc[i].id != anc[j].id)
  }

  lemma RemoveAtKeepsUnique(pool: seq<Folder>, i: nat)
    requires i < |pool| && UniqueFolderIds(pool)
    ensures UniqueFolderIds(RemoveAt(pool, i))
  {
    var rest := RemoveAt(pool, i);
    forall a, b | 0 <= a < b < |rest|
      ensures rest[a].id != rest[b].id
    {
      var a' := if a < i then a else a + 1;
      var b' := if b < i then b else b + 1;
      assert rest[a] == pool[a'] && rest[b] == pool[b'];
    }
  }

  /** A folder whose id differs from the removed one's survives the removal. */
  lemma SurvivesRemoval(pool: seq<Folder>, i: nat, g: Folder)
    requires i < |pool| && g in pool && g.id != pool[i].id
    ensures g in RemoveAt(pool, i)
  {
    var m :| 0 <= m < |pool| && pool[m] == g;
    var m' := if m < i then m else m - 1;
    assert RemoveAt(pool, i)[m'] == pool[m];
  }

  /** With unique ids, the walk finds exactly the chain up to the root. */
  lemma {:induction false} AncestorsFollowChain(pool: seq<Folder>, start: Option<Id>, anc: seq<Folder>)
    requires UniqueFolderIds(pool)
    requires AncestorChain(pool, start, anc)
    ensures Ancestors(pool, start) == anc
    decreases |anc|
  {
    if |anc| > 0 {
      FindMember(pool, anc[0]);
      var i := IndexOfFolder(pool, anc[0].id).value;
      ChainAfterRemoval(pool, i, start, anc);
      AncestorsFollowChain(RemoveAt(pool, i), anc[0].parent, anc[1..]);
      AncestorsStep(pool, anc[0].id, i);
      assert anc == [anc[0]] + anc[1..];
    }
  }

  /** With unique ids, looking a member's id up finds that member. */
  lemma FindMember(pool: seq<Folder>, g: Folder)
    requires UniqueFolderIds(pool) && g in pool
    ensures IndexOfFolder(pool, g.id).Some? && pool[IndexOfFolder(pool, g.id).value] == g
  {
    var j :| 0 <= j < |pool| && pool[j] == g;
    var i := IndexOfFolder(pool, g.id).value;
    assert pool[i].id == pool[j].id;
  }

  /** One step of the walk: the folder found, then the walk from its parent without it. */
  lemma AncestorsStep(pool: seq<Folder>, pid: Id, i: nat)
    requires IndexOfFolder(pool, pid) == Some(i)
    ensures Ancestors(pool, Some(pid)) == [pool[i]] + Ancestors(RemoveAt(pool, i), pool[i].parent)
  {
  }

  /** Taking the first ancestor out of the pool leaves the rest of the chain. */
  lemma ChainAfterRemoval(pool: seq<Folder>, i: nat, start: Option<Id>, anc: seq<Folder>)
    requires UniqueFolderIds(pool)
    requires AncestorChain(pool, start, anc)
    requires |anc| > 0 && i < |pool| && pool[i] == anc[0]
    ensures UniqueFolderIds(RemoveAt(pool, i))
    ensures AncestorChain(RemoveAt(pool, i), anc[0].parent, anc[1..])
  {
    var rest := RemoveAt(pool, i);
    RemoveAtKeepsUnique(pool, i);
    var tail := anc[1..];
    forall k | 0 <= k < |tail|
      ensures tail[k] in rest
    {
      assert anc[k + 1] == tail[k];
      SurvivesRemoval(pool, i, tail[k]);
    }
    forall a, b | 0 <= a < b < |tail|
      ensures tail[a].id != tail[b].id
    {
      assert tail[a] == anc[a + 1] && tail[b] == anc[b + 1];
    }
  }
}
