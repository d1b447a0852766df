/**
 The sibling-name collision resolver of folder creation.

 The source builds its pattern with a template literal,
 `^${name}(?:\s\(\d+\))?$`. Inside a template literal `\s`, `\(`, `\d` and
 `\)` are not escapes, so the string handed to `RegExp` is
 `^name(?:s(d+))?$`: the name alone or followed by `s` and one or more `d`.
 `AsWritten` is that pattern; `Intended` is the pattern the code was meant to
 build, with the name taken literally. The name is spliced into the pattern
 unescaped, so the model treats names free of regex metacharacters only.
 */
module Naming {
  import opened Common

  datatype Pattern =
    | AsWritten   // `^name(?:s(d+))?$`
    | Intended    // `^name(?:\s\(\d+\))?$`

  predicate IsRegexMeta(c: char) {
    c in "\\^$.|?*+()[]{}"
  }

  predicate NoRegexMeta(name: string) {
    forall k :: 0 <= k < |name| ==> !IsRegexMeta(name[k])
  }

  /** The characters `\s` stands for in the database's regex engine. */
  predicate IsRegexSpace(c: char) {
    c as int in {9, 10, 11, 12, 13, 32}
  }

  /** What the optional group after the name accepts. */
  predicate GroupMatches(p: Pattern, t: string) {
    match p
    case AsWritten =>
      |t| >= 2 && t[0] == 's' && forall k :: 1 <= k < |t| ==> t[k] == 'd'
    case Intended =>
      |t| >= 4 && IsRegexSpace(t[0]) && t[1] == '(' && t[|t| - 1] == ')'
      && AllDigits(t[2..|t| - 1])
  }

  /** The pattern between its anchors: the name, optionally followed by the group. */
  predicate Body(p: Pattern, name: string, s: string) {
    s == name || (StartsWith(s, name) && GroupMatches(p, s[|name|..]))
  }

  /** The anchored match; the engine's `$` also matches just before a final newline. */
  predicate Matches(p: Pattern, name: string, candidate: string) {
    || Body(p, name, candidate)
    || (|candidate| > 0 && candidate[|candidate| - 1] == '\n'
        && Body(p, name, candidate[..|candidate| - 1]))
  }

  /** The requested name always matches, and every match begins with it. */
  lemma MatchBeginsWithName(p: Pattern, name: string, candidate: string)
    ensures Matches(p, name, name)
    ensures Matches(p, name, candidate) ==> StartsWith(candidate, name)
  {
  }

  /** The number `/\((\d+)\)$/` captures from a name, if it ends with one in parentheses. */
  function SuffixNumber(s: string): (r: Option<nat>)
    ensures r.Some? ==>
      exists i :: 0 <= i < |s| - 2 && s[i] == '(' && s[|s| - 1] == ')'
        && AllDigits(s[i + 1..|s| - 1]) && r.value == DecimalValue(s[i + 1..|s| - 1])
    ensures r.None? ==>
      forall i :: 0 <= i < |s| - 2 && s[|s| - 1] == ')' && AllDigits(s[i + 1..|s| - 1]) ==> s[i] != '('
  {
    if |s| == 0 || s[|s| - 1] != ')' then None
    else
      var body := s[..|s| - 1];
      var n := TrailingDigits(body);
      if n == 0 || n == |body| || body[|body| - n - 1] != '(' then
        NoParenBeforeDigits(s, n);
        None
      else
        assert s[|body| - n..|s| - 1] == body[|body| - n..];
        Some(DecimalValue(body[|body| - n..]))
  }

  /**
   With the maximal digit run before the final `)` of length `n` and not
   preceded by `(`, no digit run before the final `)` is.
   */
  lemma NoParenBeforeDigits(s: string, n: nat)
    requires |s| > 0
    requires n == TrailingDigits(s[..|s| - 1])
    requires n == 0 || n == |s| - 1 || s[|s| - n - 2] != '('
    ensures forall i :: 0 <= i < |s| - 2 && AllDigits(s[i + 1..|s| - 1]) ==> s[i] != '('
  {
    var body := s[..|s| - 1];
    forall i | 0 <= i < |s| - 2 && AllDigits(s[i + 1..|s| - 1])
      ensures s[i] != '('
    {
      if i >= |body| - n {
        var run := body[|body| - n..];
        assert run[i - (|body| - n)] == s[i];
        assert IsDigit(s[i]);
      } else if i < |body| - n - 1 {
        assert false;
      }
    }
  }

  /** The number a matching name contributes; no suffix counts as 0. */
  function NumberOf(s: string): nat {
    match SuffixNumber(s)
    case Some(v) => v
    case None => 0
  }

  /** `name (n)`, the disambiguated form. */
  function Suffixed(name: string, n: nat): string {
    name + " (" + Decimal(n) + ")"
  }

  /** `names.map(...)`: the number each name contributes. */
  function Numbers(names: seq<string>): (r: seq<nat>)
    ensures |r| == |names|
    ensures forall k :: 0 <= k < |r| ==> r[k] == NumberOf(names[k])
  {
    seq(|names|, k requires 0 <= k < |names| => NumberOf(names[k]))
  }

  /** `Math.max(...numbers, 0)`. */
  function MaxNumber(numbers: seq<nat>): (m: nat)
    ensures forall k :: 0 <= k < |numbers| ==> numbers[k] <= m
    ensures m == 0 || exists k :: 0 <= k < |numbers| && numbers[k] == m
  {
    if |numbers| == 0 then 0
    else
      var rest := MaxNumber(numbers[1..]);
      assert forall k :: 1 <= k < |numbers| ==> numbers[k] == numbers[1..][k - 1];
      if numbers[0] >= rest then numbers[0] else rest
  }

  /** The sibling names the pattern matches, in order. */
  function Matching(p: Pattern, name: string, siblings: seq<string>): (r: seq<string>)
    ensures forall k :: 0 <= k < |r| ==> r[k] in siblings && Matches(p, name, r[k])
    ensures forall k :: 0 <= k < |siblings| && Matches(p, name, siblings[k]) ==> siblings[k] in r
  {
    if |siblings| == 0 then []
    else
      var rest := Matching(p, name, siblings[1..]);
      assert forall k :: 1 <= k < |siblings| ==> siblings[k] == siblings[1..][k - 1];
      if Matches(p, name, siblings[0]) then [siblings[0]] + rest else rest
  }

  /**
   The stored name: the requested name when no sibling matches, otherwise the
   name with ` (m+1)` appended, `m` the largest number among the matches.
   */
  function Resolve(p: Pattern, name: string, siblings: seq<string>): (r: string)
    ensures (forall k :: 0 <= k < |siblings| ==> !Matches(p, name, siblings[k])) ==> r == name
    ensures (exists k :: 0 <= k < |siblings| && Matches(p, name, siblings[k])) ==>
      exists n: nat ::
        && n >= 1
        && r == Suffixed(name, n)
        && (forall k :: 0 <= k < |siblings| && Matches(p, name, siblings[k]) ==> NumberOf(siblings[k]) < n)
        && (n == 1 || exists k :: 0 <= k < |siblings| && Matches(p, name, siblings[k]) && NumberOf(siblings[k]) == n - 1)
  {
    var found := Matching(p, name, siblings);
    if |found| == 0 then name
    else
      var m := MaxNumber(Numbers(found));
      MaxOfMatches(p, name, siblings);
      Suffixed(name, m + 1)
  }

  /** The largest number among the matches bounds them all and, unless 0, is one of them. */
  lemma MaxOfMatches(p: Pattern, name: string, siblings: seq<string>)
    ensures var m := MaxNumber(Numbers(Matching(p, name, siblings)));
      && (forall k :: 0 <= k < |siblings| && Matches(p, name, siblings[k]) ==> NumberOf(siblings[k]) <= m)
      && (m != 0 ==> exists k :: 0 <= k < |siblings| && Matches(p, name, siblings[k]) && NumberOf(siblings[k]) == m)
  {
    var found := Matching(p, name, siblings);
    var numbers := Numbers(found);
    var m := MaxNumber(numbers);
    forall k | 0 <= k < |siblings| && Matches(p, name, siblings[k])
      ensures NumberOf(siblings[k]) <= m
    {
      var j :| 0 <= j < |found| && found[j] == siblings[k];
      assert numbers[j] == NumberOf(siblings[k]);
    }
    if m != 0 {
      var j :| 0 <= j < |numbers| && numbers[j] == m;
      var k :| 0 <= k < |siblings| && siblings[k] == found[j];
      assert Matches(p, name, siblings[k]) && NumberOf(siblings[k]) == m;
    }
  }

  // ---------------------------------------------------------------------
  // The pattern as written
  // ---------------------------------------------------------------------

  /** A name the broken pattern accepts never ends in a parenthesised number. */
  lemma AsWrittenMatchHasNoNumber(name: string, candidate: string)
    requires NoRegexMeta(name)
    requires Matches(AsWritten, name, candidate)
    ensures NumberOf(candidate) == 0
  {
    if |candidate| > 0 && candidate[|candidate| - 1] == ')' {
      if candidate == name {
        assert false;
      }
    }
  }

  /** Under the broken pattern the appended number is always 1. */
  lemma AsWrittenAlwaysAppendsOne(name: string, siblings: seq<string>)
    requires NoRegexMeta(name)
    ensures Resolve(AsWritten, name, siblings) == name
         || Resolve(AsWritten, name, siblings) == Suffixed(name, 1)
    ensures (exists k :: 0 <= k < |siblings| && Matches(AsWritten, name, siblings[k])) ==>
      Resolve(AsWritten, name, siblings) == Suffixed(name, 1)
  {
    forall k | 0 <= k < |siblings| && Matches(AsWritten, name, siblings[k])
      ensures NumberOf(siblings[k]) == 0
    {
      AsWrittenMatchHasNoNumber(name, siblings[k]);
    }
  }

  /** The broken pattern does not recognise the names it produces. */
  lemma AsWrittenMissesSuffixed(name: string, n: nat)
    ensures !Matches(AsWritten, name, Suffixed(name, n))
  {
    var s := Suffixed(name, n);
    assert s[|name|] == ' ';
    assert s[|s| - 1] == ')';
    if StartsWith(s, name) {
      assert s[|name|..][0] == ' ';
    }
  }

  /**
   Creating "Docs" three times in one scope: the second gets "Docs (1)", and so
   does the third, because the pattern does not see "Docs (1)".
   */
  lemma AsWrittenRepeatsDuplicate()
    ensures Resolve(AsWritten, "Docs", []) == "Docs"
    ensures Resolve(AsWritten, "Docs", ["Docs"]) == "Docs (1)"
    ensures Resolve(AsWritten, "Docs", ["Docs", "Docs (1)"]) == "Docs (1)"
  {
    var one := Suffixed("Docs", 1);
    assert Decimal(1) == "1";
    assert one == "Docs (1)";
    var first := ["Docs"];
    assert Matches(AsWritten, "Docs", first[0]);
    AsWrittenAlwaysAppendsOne("Docs", first);
    var second := ["Docs", one];
    assert Matches(AsWritten, "Docs", second[0]);
    AsWrittenAlwaysAppendsOne("Docs", second);
  }

  // ---------------------------------------------------------------------
  // The intended pattern
  // ---------------------------------------------------------------------

  /** `name (n)` matches the intended pattern and contributes exactly `n`. */
  lemma SuffixedIsRecognised(name: string, n: nat)
    ensures Matches(Intended, name, Suffixed(name, n))
    ensures NumberOf(Suffixed(name, n)) == n
  {
    var d := Decimal(n);
    var s := Suffixed(name, n);
    assert s[|name|..] == " (" + d + ")";
    assert s[|name|..][2..|s[|name|..]| - 1] == d;
    assert Body(Intended, name, s);
    var body := s[..|s| - 1];
    assert body == name + " (" + d;
    var t := TrailingDigits(body);
    assert body[|body| - |d| - 1] == '(';
    DigitsRunIsMaximal(body, |d|);
    assert body[|body| - t..] == d;
    DecimalRoundTrip(n);
  }

  /** Under the intended pattern the stored name never equals a sibling's name. */
  lemma IntendedResolvesFresh(name: string, siblings: seq<string>)
    ensures Resolve(Intended, name, siblings) !in siblings
  {
    var r := Resolve(Intended, name, siblings);
    if r in siblings {
      var k :| 0 <= k < |siblings| && siblings[k] == r;
      if forall j :: 0 <= j < |siblings| ==> !Matches(Intended, name, siblings[j]) {
        assert Body(Intended, name, siblings[k]);
      } else {
        var n: nat :| n >= 1 && r == Suffixed(name, n)
          && (forall j :: 0 <= j < |siblings| && Matches(Intended, name, siblings[j]) ==> NumberOf(siblings[j]) < n);
        SuffixedIsRecognised(name, n);
      }
    }
  }
}
