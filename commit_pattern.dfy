/**
 * The commit-header pattern of githelper.py, matched against the whole message:
 *
 *   <type>[(<scope>)][!]: <subject>
 *
 * where the type is one or more of `a`-`z`, the scope one or more of `a`-`z`, `0`-`9`
 * and `-`, the breaking marker a single `!`, and the subject one or more characters
 * other than a line feed (Python's `.`).
 *
 * Two descriptions of the same language are given: a declarative one (`ValidGroups`
 * and `Assemble`: the string is what some legal choice of groups spells out) and a
 * deterministic left-to-right scanner (`FullMatch`) that stands in for the regex
 * engine. The contract of `FullMatch` (soundness) and `FullMatchComplete` show that they
 * agree and that the groups of a match are unique, so the engine's backtracking order
 * never matters: each optional group is followed by a character that the alternative
 * without it cannot accept.
 */
module CommitPattern {
  import opened Wrappers

  /** The two character classes of the pattern: `[a-z]` and `[a-z0-9-]`. */
  datatype CharClass = Lower | ScopeChar

  predicate InClass(c: char, cls: CharClass) {
    match cls
    case Lower => 'a' <= c <= 'z'
    case ScopeChar => 'a' <= c <= 'z' || '0' <= c <= '9' || c == '-'
  }

  predicate AllIn(s: string, cls: CharClass) {
    forall k :: 0 <= k < |s| ==> InClass(s[k], cls)
  }

  /** The named groups of a match, as `match.groupdict()` hands them over. */
  datatype Groups = Groups(typ: string, scope: Option<string>, breaking: Option<string>, subject: string)

  /**
   * What each group of the pattern may hold. The scope text of a legal choice is never
   * the empty `()`, and the marker text is one character at most.
   */
  predicate ValidGroups(g: Groups)
    ensures ValidGroups(g) ==> ScopeText(g.scope) != "()" && |BangText(g.breaking)| <= 1
  {
    && |g.typ| > 0 && AllIn(g.typ, Lower)
    && (g.scope.Some? ==> |g.scope.value| > 0 && AllIn(g.scope.value, ScopeChar))
    && (g.breaking.Some? ==> g.breaking.value == "!")
    && |g.subject| > 0 && '\n' !in g.subject
  }

  /** The text of the optional `(<scope>)` group. */
  function ScopeText(scope: Option<string>): string {
    match scope
    case None => ""
    case Some(sc) => "(" + sc + ")"
  }

  /** The text of the optional `!` group. */
  function BangText(breaking: Option<string>): string {
    match breaking
    case None => ""
    case Some(b) => b
  }

  /** The text that a match with these groups spans: it starts with the type and ends with `: ` and the subject. */
  function Assemble(g: Groups): (s: string)
    ensures |s| == |g.typ| + |ScopeText(g.scope)| + |BangText(g.breaking)| + 2 + |g.subject|
    ensures s[..|g.typ|] == g.typ
    ensures s[|s| - |g.subject| - 2..] == ": " + g.subject
  {
    g.typ + ScopeText(g.scope) + BangText(g.breaking) + ": " + g.subject
  }

  /** The whole string matches the pattern; such a string starts with `a`-`z` and is at least `t: x` long. */
  ghost predicate Matches(s: string)
    ensures Matches(s) ==> |s| >= 4 && InClass(s[0], Lower)
  {
    exists g :: ValidGroups(g) && Assemble(g) == s
  }

  /** The end of the longest run of `cls` characters starting at `i`. */
  function Run(s: string, i: nat, cls: CharClass): (j: nat)
    requires i <= |s|
    ensures i <= j <= |s|
    ensures forall k :: i <= k < j ==> InClass(s[k], cls)
    ensures j < |s| ==> !InClass(s[j], cls)
    decreases |s| - i
  {
    if i < |s| && InClass(s[i], cls) then Run(s, i + 1, cls) else i
  }

  /** The optional group `(\((?P<scope>[a-z0-9-]+)\))?` tried at `i`: its value and where scanning resumes. */
  function ScanScope(s: string, i: nat): (r: (Option<string>, nat))
    requires i <= |s|
    ensures i <= r.1 <= |s| && s[i..r.1] == ScopeText(r.0)
    ensures r.0.Some? ==> |r.0.value| > 0 && AllIn(r.0.value, ScopeChar)
  {
    if i < |s| && s[i] == '(' then
      var e := Run(s, i + 1, ScopeChar);
      if i + 1 < e < |s| && s[e] == ')' then
        assert s[i..e + 1] == [s[i]] + s[i + 1..e] + [s[e]];
        (Some(s[i + 1..e]), e + 1)
      else (None, i)
    else (None, i)
  }

  /** The optional group `(?P<breaking>!)?` tried at `i`. */
  function ScanBang(s: string, i: nat): (r: (Option<string>, nat))
    requires i <= |s|
    ensures i <= r.1 <= |s| && s[i..r.1] == BangText(r.0)
    ensures r.0.Some? ==> r.0.value == "!"
  {
    if i < |s| && s[i] == '!' then (Some("!"), i + 1) else (None, i)
  }

  /** `COMMIT_PAT.fullmatch(s)`: the groups of the match, or None when there is none. */
  function FullMatch(s: string): (r: Option<Groups>)
    ensures r.Some? ==> ValidGroups(r.value) && Assemble(r.value) == s
  {
    var t := Run(s, 0, Lower);
    if t == 0 then None
    else
      var (scope, i) := ScanScope(s, t);
      var (bang, j) := ScanBang(s, i);
      if j + 2 < |s| && s[j] == ':' && s[j + 1] == ' ' && '\n' !in s[j + 2..] then
        SplitHeader(s, t, i, j);
        Some(Groups(s[..t], scope, bang, s[j + 2..]))
      else None
  }

  /** A string cut at `t <= i <= j` with `: ` at `j` is the concatenation of its pieces. */
  lemma SplitHeader(s: string, t: nat, i: nat, j: nat)
    requires t <= i <= j && j + 2 <= |s| && s[j] == ':' && s[j + 1] == ' '
    ensures s == s[..t] + s[t..i] + s[i..j] + ": " + s[j + 2..]
  {
    assert s[j..j + 2] == ": ";
    assert s == s[..t] + s[t..i] + s[i..j] + s[j..j + 2] + s[j + 2..];
  }

  /** A run of `cls` characters from `i` that ends at `n` is what `Run` finds. */
  lemma RunStopsAt(s: string, i: nat, n: nat, cls: CharClass)
    requires i <= n <= |s|
    requires forall k :: i <= k < n ==> InClass(s[k], cls)
    requires n < |s| ==> !InClass(s[n], cls)
    ensures Run(s, i, cls) == n
  {
  }

  /** The scope group is found when the text at `i` is `(`, a legal scope, `)`. */
  lemma ScanScopeFinds(s: string, i: nat, x: string)
    requires |x| > 0 && AllIn(x, ScopeChar)
    requires i + |x| + 2 <= |s| && s[i..i + |x| + 2] == "(" + x + ")"
    ensures ScanScope(s, i) == (Some(x), i + |x| + 2)
  {
    var e := i + 1 + |x|;
    ScopeWindow(s, i, x);
    RunStopsAt(s, i + 1, e, ScopeChar);
    assert ScanScope(s, i) == (Some(s[i + 1..e]), e + 1);
  }

  /** Reading `(`, a scope and `)` off the string at `i`. */
  lemma ScopeWindow(s: string, i: nat, x: string)
    requires i + |x| + 2 <= |s| && s[i..i + |x| + 2] == "(" + x + ")"
    ensures s[i] == '(' && s[i + 1 + |x|] == ')' && s[i + 1..i + 1 + |x|] == x
  {
    var w := "(" + x + ")";
    assert s[i] == w[0];
    assert s[i + 1 + |x|] == w[1 + |x|];
    forall k | 0 <= k < |x|
      ensures s[i + 1..i + 1 + |x|][k] == x[k]
    {
      assert s[i + 1 + k] == w[1 + k];
    }
  }

  /** Where each group of an assembled string sits. */
  lemma AssembleParts(g: Groups)
    ensures var s := Assemble(g);
      var t := |g.typ|; var i := t + |ScopeText(g.scope)|; var j := i + |BangText(g.breaking)|;
      && j + 2 + |g.subject| == |s|
      && s[..t] == g.typ && s[t..i] == ScopeText(g.scope) && s[i..j] == BangText(g.breaking)
      && s[j..j + 2] == ": " && s[j + 2..] == g.subject
  {
  }

  /** The type run of an assembled string ends where the type does. */
  lemma TypeRunOfAssemble(g: Groups)
    requires ValidGroups(g)
    ensures Run(Assemble(g), 0, Lower) == |g.typ|
  {
    var s := Assemble(g);
    var t := |g.typ|;
    AssembleParts(g);
    var rest := ScopeText(g.scope) + BangText(g.breaking) + ": " + g.subject;
    assert s == g.typ + rest;
    assert s[t] == rest[0];
    match g.scope {
      case Some(x) =>
        assert rest[0] == ("(" + x + ")")[0] == '(';
      case None =>
        if g.breaking.Some? {
          assert rest[0] == "!"[0];
        } else {
          assert rest[0] == ": "[0];
        }
    }
    forall k | 0 <= k < t
      ensures InClass(s[k], Lower)
    {
      assert s[k] == s[..t][k];
    }
    RunStopsAt(s, 0, t, Lower);
  }

  /** After the type, the scope group of an assembled string is read back. */
  lemma ScopeScanOfAssemble(g: Groups)
    requires g.scope.Some? ==> |g.scope.value| > 0 && AllIn(g.scope.value, ScopeChar)
    requires g.breaking.Some? ==> g.breaking.value == "!"
    ensures var t := |g.typ|; ScanScope(Assemble(g), t) == (g.scope, t + |ScopeText(g.scope)|)
  {
    var s := Assemble(g);
    var t := |g.typ|;
    AssembleParts(g);
    match g.scope {
      case Some(x) =>
        ScanScopeFinds(s, t, x);
      case None =>
        var rest := BangText(g.breaking) + ": " + g.subject;
        assert s == g.typ + rest;
        assert s[t] == rest[0];
    }
  }

  /** After the scope, the marker group of an assembled string is read back. */
  lemma BangScanOfAssemble(g: Groups)
    requires g.breaking.Some? ==> g.breaking.value == "!"
    ensures var i := |g.typ| + |ScopeText(g.scope)|;
      ScanBang(Assemble(g), i) == (g.breaking, i + |BangText(g.breaking)|)
  {
    var s := Assemble(g);
    var i := |g.typ| + |ScopeText(g.scope)|;
    AssembleParts(g);
    var rest := BangText(g.breaking) + ": " + g.subject;
    assert s == g.typ + ScopeText(g.scope) + rest;
    assert s[i] == rest[0];
  }

  /** Every string a legal choice of groups spells out is matched, with exactly those groups. */
  lemma FullMatchComplete(g: Groups)
    requires ValidGroups(g)
    ensures FullMatch(Assemble(g)) == Some(g)
  {
    AssembleParts(g);
    TypeRunOfAssemble(g);
    ScopeScanOfAssemble(g);
    BangScanOfAssemble(g);
  }

  /** `FullMatch` finds a match exactly when the string is in the pattern's language. */
  lemma FullMatchIff(s: string)
    ensures FullMatch(s).Some? <==> Matches(s)
  {
    if Matches(s) {
      var g :| ValidGroups(g) && Assemble(g) == s;
      FullMatchComplete(g);
    }
  }

  /** A string matches with at most one choice of groups. */
  lemma GroupsUnique(g1: Groups, g2: Groups)
    requires ValidGroups(g1) && ValidGroups(g2)
    requires Assemble(g1) == Assemble(g2)
    ensures g1 == g2
  {
    FullMatchComplete(g1);
    FullMatchComplete(g2);
  }

  /** The characters that can occur before the `: ` of a match. */
  predicate HeaderChar(c: char) {
    InClass(c, ScopeChar) || c == '(' || c == ')' || c == '!'
  }

  /**
   * How a matched string is laid out: the header (type, scope, marker) is made of
   * `HeaderChar`s only, so it holds no colon, no upper-case letter and no line feed;
   * it is followed by the first `: ` of the string, and everything after that is the
   * subject. A `!` can only be the last header character, and it is there exactly
   * when the breaking group matched.
   */
  lemma AssembleLayout(g: Groups)
    requires ValidGroups(g)
    ensures var s := Assemble(g); var h := |s| - |g.subject| - 2;
      && 0 < h && s[h..h + 2] == ": " && s[h + 2..] == g.subject
      && (forall k :: 0 <= k < h ==> HeaderChar(s[k]))
      && (forall k :: 0 <= k < h - 1 ==> s[k] != '!')
      && (g.breaking.Some? <==> s[h - 1] == '!')
  {
    var s := Assemble(g);
    var sc, bg := ScopeText(g.scope), BangText(g.breaking);
    var t := |g.typ|;
    var i := t + |sc|;
    var h := i + |bg|;
    assert s == ((g.typ + sc) + bg) + (": " + g.subject);
    forall k | 0 <= k < h
      ensures HeaderChar(s[k]) && (k < h - 1 ==> s[k] != '!')
    {
      if k < t {
        assert s[k] == g.typ[k];
      } else if k < i {
        assert s[k] == sc[k - t];
        if g.scope.Some? {
          var x := g.scope.value;
          assert sc == "(" + x + ")";
          if t < k < i - 1 {
            assert sc[k - t] == x[k - t - 1];
          }
        }
      } else {
        assert s[k] == bg[k - i] == '!';
      }
    }
    if g.breaking.None? {
      assert h == i;
      if g.scope.Some? {
        assert s[h - 1] == sc[|sc| - 1] == ')';
      } else {
        assert s[h - 1] == g.typ[t - 1];
      }
    }
  }

  /** A matched string never contains a line feed. */
  lemma AssembleHasNoNewline(g: Groups)
    requires ValidGroups(g)
    ensures '\n' !in Assemble(g)
  {
  }
}
