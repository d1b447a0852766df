/**
 The two POSIX path helpers the storage layer names its objects with:
 `path.extname` and `path.basename(p, ext)`, as Node.js defines them. Both
 look only at the last path component, after trailing slashes are dropped.
 */
module PathNames {
  import opened Common

  /** Index of the last `c` in `s`, if any. */
  function LastIndex(s: string, c: char): (r: Option<nat>)
    ensures r.Some? ==> r.value < |s| && s[r.value] == c
    ensures r.Some? ==> forall k :: r.value < k < |s| ==> s[k] != c
    ensures r.None? <==> c !in s
  {
    if |s| == 0 then None
    else if s[|s| - 1] == c then Some(|s| - 1)
    else
      assert s == s[..|s| - 1] + [s[|s| - 1]];
      LastIndex(s[..|s| - 1], c)
  }

  /** `p` without its trailing run of slashes. */
  function TrimTrailingSlashes(p: string): (r: string)
    ensures |r| <= |p| && r == p[..|r|]
    ensures forall k :: |r| <= k < |p| ==> p[k] == '/'
    ensures |r| > 0 ==> r[|r| - 1] != '/'
  {
    if |p| == 0 || p[|p| - 1] != '/' then p else TrimTrailingSlashes(p[..|p| - 1])
  }

  /**
   The last component of `p`: what follows the last slash once trailing
   slashes are dropped. Empty for the empty path and for a path of slashes.
   */
  function LastComponent(p: string): (r: string)
    ensures '/' !in r
    ensures '/' !in p ==> r == p
    ensures |r| <= |p|
    ensures var t := TrimTrailingSlashes(p);
      EndsWith(t, r) && (|r| < |t| ==> t[|t| - |r| - 1] == '/')
  {
    var t := TrimTrailingSlashes(p);
    match LastIndex(t, '/')
    case None => t
    case Some(i) =>
      t[i + 1..]
  }

  /** A component has a dot that can start an extension: one past its first character. */
  predicate HasInnerDot(c: string) {
    exists d :: 0 < d < |c| && c[d] == '.'
  }

  /** `e` is a final `.xyz` segment: a dot followed by no other dot. */
  predicate IsDotSegment(e: string) {
    |e| >= 1 && e[0] == '.' && '.' !in e[1..]
  }

  /** The extension of one path component: from its last dot, unless that dot is its first character. */
  function ComponentExt(c: string): (e: string)
    ensures e != "" <==> HasInnerDot(c) && c != ".."
    ensures e != "" ==> IsDotSegment(e) && EndsWith(c, e) && |e| < |c|
    ensures '/' !in c ==> '/' !in e
  {
    match LastIndex(c, '.')
    case None => ""
    case Some(d) =>
      if d == 0 || c == ".." then ""
      else
        assert forall k :: 0 <= k < |c[d..]| ==> c[d..][k] == c[d + k];
        c[d..]
  }

  /** The component without its extension. */
  function ComponentBase(c: string): (b: string)
    ensures b + ComponentExt(c) == c
  {
    var e := ComponentExt(c);
    assert c == c[..|c| - |e|] + e;
    c[..|c| - |e|]
  }

  /**
   `path.extname(p)`: from the last dot of the last component to its end;
   empty when the component has no dot past its first character, and for `..`.
   */
  function Ext(p: string): (e: string)
    ensures e != "" <==> HasInnerDot(LastComponent(p)) && LastComponent(p) != ".."
    ensures e != "" ==> IsDotSegment(e) && EndsWith(LastComponent(p), e) && |e| < |LastComponent(p)|
    ensures '/' !in e
  {
    ComponentExt(LastComponent(p))
  }

  /** `path.basename(p, path.extname(p))`: the last component without its extension. */
  function Base(p: string): (b: string)
    ensures b + Ext(p) == LastComponent(p)
    ensures '/' !in b
  {
    var b := ComponentBase(LastComponent(p));
    assert forall k :: 0 <= k < |b| ==> b[k] == LastComponent(p)[k];
    b
  }

  /** A string ends with at most one dot segment: two such suffixes are equal. */
  lemma DotSegmentUnique(x: string, e1: string, e2: string)
    requires IsDotSegment(e1) && EndsWith(x, e1)
    requires IsDotSegment(e2) && EndsWith(x, e2)
    ensures e1 == e2
  {
  }

  /** The extension is any final dot segment of the last component with something before it. */
  lemma ExtOfPath(p: string, e: string)
    requires LastComponent(p) != ".."
    requires IsDotSegment(e) && EndsWith(LastComponent(p), e) && |e| < |LastComponent(p)|
    ensures Ext(p) == e
  {
    var c := LastComponent(p);
    assert c[|c| - |e|] == '.';
    assert HasInnerDot(c);
    DotSegmentUnique(c, Ext(p), e);
  }

  /** For a slash-free name, the extension is any final dot segment with something before it. */
  lemma ExtOfName(x: string, e: string)
    requires '/' !in x && x != ".."
    requires IsDotSegment(e) && EndsWith(x, e) && |e| < |x|
    ensures Ext(x) == e
  {
    ExtOfPath(x, e);
  }

  /** Only the last dot starts the extension. */
  lemma ExtOfTwoDotsExample()
    ensures Ext("report.final.pdf") == ".pdf" && Base("report.final.pdf") == "report.final"
  {
    ExtOfName("report.final.pdf", ".pdf");
  }

  /** A dot file (a name whose only dot is its first character) has no extension. */
  lemma DotFileHasNoExt(x: string)
    requires '/' !in x && |x| > 0 && x[0] == '.' && '.' !in x[1..]
    ensures Ext(x) == "" && Base(x) == x
  {
    forall d | 0 < d < |x|
      ensures x[d] != '.'
    {
      assert x[d] == x[1..][d - 1];
    }
    assert Base(x) + "" == x;
  }

  /** Neither has `..`, but a trailing dot is an extension. */
  lemma ExtOfDotsExample()
    ensures Ext("..") == ""
    ensures Ext("notes.") == "."
  {
    ExtOfName("notes.", ".");
  }

  /** A trailing slash is ignored. */
  lemma TrailingSlashIgnored(p: string)
    ensures LastComponent(p + "/") == LastComponent(p)
    ensures Ext(p + "/") == Ext(p) && Base(p + "/") == Base(p)
  {
    assert (p + "/")[..|p|] == p;
    assert TrimTrailingSlashes(p + "/") == TrimTrailingSlashes(p);
    SameComponentSameParts(p + "/", p);
  }

  /** Extension and base depend on the last component only. */
  lemma SameComponentSameParts(p: string, q: string)
    requires LastComponent(p) == LastComponent(q)
    ensures Ext(p) == Ext(q) && Base(p) == Base(q)
  {
  }

  /** The directory part is dropped. */
  lemma DirectoryDropped(dir: string, name: string)
    requires name != "" && '/' !in name
    ensures Ext(dir + "/" + name) == Ext(name) && Base(dir + "/" + name) == Base(name)
  {
    LastComponentOf(dir, name);
    SameComponentSameParts(dir + "/" + name, name);
  }

  /** The last component of `dir/name`, with or without a trailing slash, is `name`. */
  lemma LastComponentOf(dir: string, name: string)
    requires name != "" && '/' !in name
    ensures LastComponent(dir + "/" + name) == name
    ensures LastComponent(dir + "/" + name + "/") == name
  {
    var p := dir + "/" + name;
    assert p[|p| - 1] == name[|name| - 1];
    assert TrimTrailingSlashes(p) == p;
    assert (p + "/")[..|p|] == p;
    assert TrimTrailingSlashes(p + "/") == p;
    var i := LastIndex(p, '/');
    assert p[|dir|] == '/';
    forall k | |dir| < k < |p|
      ensures p[k] != '/'
    {
      assert p[k] == name[k - |dir| - 1];
    }
    assert i == Some(|dir|);
    assert p[|dir| + 1..] == name;
  }
}
