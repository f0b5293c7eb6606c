/**
 * `Utils`: presence tests, the glob-to-regex conversion built on the multi-pattern
 * `replaceEach`, and the whitelist test `match`.
 */
module Utils {
  import opened Wrappers
  import opened Strings
  import opened Regex

  /** `isPresent(String)`: not null and not empty. */
  predicate IsPresent(s: Option<string>) {
    s.Some? && |s.value| > 0
  }

  /** `isBlank(String)` is the negation of `isPresent`. */
  function IsBlank(s: Option<string>): (r: bool)
    ensures r <==> s.None? || s.value == []
  {
    !IsPresent(s)
  }

  /** `isPresent(Iterator)`: not null and has a next element; an iterator is the sequence it still yields. */
  predicate IteratorIsPresent(it: Option<seq<bool>>) {
    it.Some? && |it.value| > 0
  }

  function IteratorIsBlank(it: Option<seq<bool>>): (r: bool)
    ensures r <==> it.None? || it.value == []
  {
    !IteratorIsPresent(it)
  }

  // ---------------------------------------------------------------------------
  // replaceEach / SearchTracker
  // ---------------------------------------------------------------------------

  /** The search strings must be non-empty (an empty one never advances) and as many as the replacements. */
  predicate ValidSearch(searches: seq<string>, replacements: seq<string>) {
    |searches| == |replacements| && forall k :: 0 <= k < |searches| ==> |searches[k]| > 0
  }

  /**
   * `hasNextMatch(start)` restricted to the first `n` patterns, visited in list order:
   * the match index and pattern position of the earliest occurrence at or after `start`,
   * an earlier-visited pattern winning a tie. Dropping patterns that no longer occur
   * (the tracker's `pendingPatterns`) does not change the answer, as `start` only grows.
   */
  function Earliest(text: string, searches: seq<string>, start: nat, n: nat): Option<(nat, nat)>
    requires n <= |searches|
  {
    if n == 0 then None
    else
      var best := Earliest(text, searches, start, n - 1);
      match IndexOfFrom(text, searches[n - 1], start)
      case None => best
      case Some(m) => if best.None? || m < best.value.0 then Some((m, n - 1)) else best
  }

  /**
   * The tracker's answer is an occurrence of one of the first `n` searches, none of which
   * occurs earlier; it is absent exactly when none of them occurs at or after `start`.
   */
  lemma EarliestSpec(text: string, searches: seq<string>, start: nat, n: nat)
    requires n <= |searches|
    ensures var r := Earliest(text, searches, start, n);
      (r.Some? ==> r.value.1 < n && IndexOfFrom(text, searches[r.value.1], start) == Some(r.value.0)) &&
      (r.Some? ==> forall k :: 0 <= k < n && IndexOfFrom(text, searches[k], start).Some? ==>
                     r.value.0 <= IndexOfFrom(text, searches[k], start).value) &&
      (r.None? <==> forall k :: 0 <= k < n ==> IndexOfFrom(text, searches[k], start).None?)
  {
    EarliestFound(text, searches, start, n);
    EarliestNone(text, searches, start, n);
  }

  lemma {:induction false} EarliestFound(text: string, searches: seq<string>, start: nat, n: nat)
    requires n <= |searches|
    ensures var r := Earliest(text, searches, start, n);
      r.Some? ==> r.value.1 < n && IndexOfFrom(text, searches[r.value.1], start) == Some(r.value.0) &&
                  forall k :: 0 <= k < n && IndexOfFrom(text, searches[k], start).Some? ==>
                    r.value.0 <= IndexOfFrom(text, searches[k], start).value
  {
    if n > 0 {
      EarliestFound(text, searches, start, n - 1);
      EarliestNone(text, searches, start, n - 1);
      var r := Earliest(text, searches, start, n);
      var best := Earliest(text, searches, start, n - 1);
      if r.Some? {
        assert r == best || (IndexOfFrom(text, searches[n - 1], start) == Some(r.value.0) && r.value.1 == n - 1);
        forall k | 0 <= k < n && IndexOfFrom(text, searches[k], start).Some?
          ensures r.value.0 <= IndexOfFrom(text, searches[k], start).value
        {
          if k < n - 1 {
            assert best.Some?;
          }
        }
      }
    }
  }

  lemma {:induction false} EarliestNone(text: string, searches: seq<string>, start: nat, n: nat)
    requires n <= |searches|
    ensures Earliest(text, searches, start, n).None? <==> forall k :: 0 <= k < n ==> IndexOfFrom(text, searches[k], start).None?
  {
    if n > 0 {
      EarliestNone(text, searches, start, n - 1);
      EarliestFound(text, searches, start, n - 1);
    }
  }

  function NextMatch(text: string, searches: seq<string>, start: nat): Option<(nat, nat)> {
    Earliest(text, searches, start, |searches|)
  }

  /** The `do … while (hasNextMatch(start))` loop of `replaceEach` from `start` on, plus the tail it appends. */
  function ReplaceFrom(text: string, searches: seq<string>, replacements: seq<string>, start: nat): string
    requires ValidSearch(searches, replacements)
    requires start <= |text|
    decreases |text| - start, 1
  {
    ReplaceWith(text, searches, replacements, start, NextMatch(text, searches, start))
  }

  /** One turn of that loop, given the tracker's answer `m` at `start`. */
  function ReplaceWith(text: string, searches: seq<string>, replacements: seq<string>, start: nat, m: Option<(nat, nat)>): string
    requires ValidSearch(searches, replacements)
    requires start <= |text|
    requires m == NextMatch(text, searches, start)
    decreases |text| - start, 0
  {
    if m.None? then text[start..]
    else
      var i, k := m.value.0, m.value.1;
      NextMatchBounds(text, searches, start, i, k);
      text[start..i] + replacements[k] + ReplaceFrom(text, searches, replacements, i + |searches[k]|)
  }

  lemma NextMatchBounds(text: string, searches: seq<string>, start: nat, i: nat, k: nat)
    requires NextMatch(text, searches, start) == Some((i, k))
    ensures k < |searches| && start <= i && i + |searches[k]| <= |text|
  {
    EarliestSpec(text, searches, start, |searches|);
  }

  /** `replaceEach(text, searchList, replacementList)`. */
  function ReplaceEach(text: string, searches: seq<string>, replacements: seq<string>): (r: string)
    requires ValidSearch(searches, replacements)
    ensures (forall k :: 0 <= k < |searches| ==> !Contains(text, searches[k])) ==> r == text
  {
    EarliestSpec(text, searches, 0, |searches|);
    if NextMatch(text, searches, 0).None? then text else ReplaceFrom(text, searches, replacements, 0)
  }

  const GlobSearches: seq<string> := [".", "?", "*", "+"]
  const GlobReplacements: seq<string> := ["\\.", ".?", ".*", ".+"]

  /** `convertToPatternString`: the regex text of a glob rule. */
  function ConvertToPatternString(input: string): string {
    ReplaceEach(input, GlobSearches, GlobReplacements)
  }

  /** The escape placed before a glob character: a backslash before `.`, a dot before a quantifier. */
  function GlobLead(c: char): char {
    if c == '.' then '\\' else '.'
  }

  /** The replacement of a single character, as a per-character reference for the conversion. */
  function ConvertChar(c: char): string {
    if IsGlobChar(c) then [GlobLead(c), c] else [c]
  }

  function ConvertByChar(s: string): string {
    if |s| == 0 then [] else ConvertChar(s[0]) + ConvertByChar(s[1..])
  }

  predicate IsGlobChar(c: char) {
    c == '.' || c == '?' || c == '*' || c == '+'
  }

  lemma {:induction false} ConvertByCharAppend(a: string, b: string)
    ensures ConvertByChar(a + b) == ConvertByChar(a) + ConvertByChar(b)
  {
    if |a| > 0 {
      assert (a + b)[1..] == a[1..] + b;
      ConvertByCharAppend(a[1..], b);
    } else {
      assert a + b == b;
    }
  }

  lemma {:induction false} ConvertByCharPlain(s: string)
    requires forall i :: 0 <= i < |s| ==> !IsGlobChar(s[i])
    ensures ConvertByChar(s) == s
  {
    if |s| > 0 {
      ConvertByCharPlain(s[1..]);
    }
  }

  /** The position of a glob character in the search table. */
  function GlobKey(c: char): nat
    requires IsGlobChar(c)
  {
    if c == '.' then 0 else if c == '?' then 1 else if c == '*' then 2 else 3
  }

  /**
   * What the proofs below need of the glob search table, stated without its literal value:
   * the search at `GlobKey(c)` is the one-character string `c`, and every search is replaced
   * by its character's regex form.
   */
  predicate GlobTable(searches: seq<string>, replacements: seq<string>) {
    |searches| == 4 && |replacements| == 4 &&
    searches[0] == ['.'] && searches[1] == ['?'] && searches[2] == ['*'] && searches[3] == ['+'] &&
    (forall k :: 0 <= k < 4 ==> |searches[k]| == 1 && IsGlobChar(searches[k][0]) && replacements[k] == ConvertChar(searches[k][0]))
  }

  lemma GlobTableHolds()
    ensures GlobTable(GlobSearches, GlobReplacements)
  {
  }

  /** Where the tracker stops: the first glob character at or after `start`, and which search string it is. */
  lemma NextGlobMatch(text: string, searches: seq<string>, replacements: seq<string>, start: nat)
    requires GlobTable(searches, replacements)
    requires start <= |text|
    ensures var r := NextMatch(text, searches, start);
      (r.None? <==> forall j :: start <= j < |text| ==> !IsGlobChar(text[j])) &&
      (r.Some? ==> start <= r.value.0 < |text| && r.value.1 < |searches| && searches[r.value.1] == [text[r.value.0]] &&
                   forall j :: start <= j < r.value.0 ==> !IsGlobChar(text[j]))
  {
    EarliestSpec(text, searches, start, |searches|);
    var r := NextMatch(text, searches, start);
    forall j | start <= j < |text| && IsGlobChar(text[j])
      ensures r.Some? && r.value.0 <= j
    {
      var k := GlobKey(text[j]);
      assert searches[k] == [text[j]];
      OccursAtSingle(text, text[j], j);
    }
    if r.Some? {
      var i, k := r.value.0, r.value.1;
      assert OccursAt(text, searches[k], i);
      OccursAtSingle(text, searches[k][0], i);
      assert searches[k] == [searches[k][0]];
    }
  }

  lemma ConvertCons(c: char, s: string)
    ensures ConvertByChar([c] + s) == ConvertChar(c) + ConvertByChar(s)
  {
    assert ([c] + s)[1..] == s;
  }

  /** Converting a text whose first glob character sits at `i` copies the text before it. */
  lemma ConvertAt(t: string, i: nat)
    requires i < |t|
    requires forall j :: 0 <= j < i ==> !IsGlobChar(t[j])
    ensures ConvertByChar(t) == t[..i] + ConvertChar(t[i]) + ConvertByChar(t[i + 1..])
  {
    var pre, post, rest := t[..i], t[i..], t[i + 1..];
    SplitAround(t, i);
    ConvertByCharAppend(pre, post);
    ConvertByCharPlain(pre);
    ConvertCons(t[i], rest);
    AppendAssoc(pre, ConvertChar(t[i]), ConvertByChar(rest));
  }

  /** `t` is the text before `i`, the character at `i`, and the text after it. */
  lemma SplitAround(t: string, i: nat)
    requires i < |t|
    ensures t == t[..i] + t[i..] && t[i..] == [t[i]] + t[i + 1..]
    ensures forall j :: 0 <= j < i ==> t[..i][j] == t[j]
  {
  }

  lemma AppendAssoc(a: string, b: string, c: string)
    ensures a + (b + c) == a + b + c
  {
  }

  /** One turn of the loop: the text up to the match, the replacement, then the rest from just past the match. */
  lemma ReplaceFromStep(text: string, searches: seq<string>, replacements: seq<string>, start: nat, i: nat, k: nat)
    requires ValidSearch(searches, replacements) && start <= |text|
    requires NextMatch(text, searches, start) == Some((i, k))
    requires k < |searches| && start <= i && i + |searches[k]| <= |text|
    ensures ReplaceFrom(text, searches, replacements, start) ==
            text[start..i] + replacements[k] + ReplaceFrom(text, searches, replacements, i + |searches[k]|)
  {
  }

  /** A turn of the loop over a glob table replaces one glob character by its regex form. */
  lemma GlobStep(text: string, searches: seq<string>, replacements: seq<string>, start: nat, i: nat, k: nat)
    requires GlobTable(searches, replacements) && start <= |text|
    requires NextMatch(text, searches, start) == Some((i, k))
    requires start <= i < |text| && k < |searches| && searches[k] == [text[i]]
    ensures ValidSearch(searches, replacements)
    ensures ReplaceFrom(text, searches, replacements, start) ==
            text[start..i] + ConvertChar(text[i]) + ReplaceFrom(text, searches, replacements, i + 1)
  {
    assert |searches[k]| == 1 && replacements[k] == ConvertChar(searches[k][0]);
    ReplaceFromStep(text, searches, replacements, start, i, k);
  }

  /** `ConvertAt` for the suffix of `text` from `start`. */
  lemma ConvertSuffixAt(text: string, start: nat, i: nat)
    requires start <= i < |text|
    requires forall j :: start <= j < i ==> !IsGlobChar(text[j])
    ensures ConvertByChar(text[start..]) == text[start..i] + ConvertChar(text[i]) + ConvertByChar(text[i + 1..])
  {
    SuffixFacts(text, start, i);
    ConvertAt(text[start..], i - start);
  }

  lemma SuffixFacts(text: string, start: nat, i: nat)
    requires start <= i < |text|
    ensures var t := text[start..];
      i - start < |t| && t[..i - start] == text[start..i] && t[i - start + 1..] == text[i + 1..] && t[i - start] == text[i] &&
      forall j :: 0 <= j < i - start ==> t[j] == text[start + j]
  {
  }

  lemma {:induction false} ReplaceFromByChar(text: string, searches: seq<string>, replacements: seq<string>, start: nat)
    requires GlobTable(searches, replacements)
    requires start <= |text|
    ensures ValidSearch(searches, replacements)
    ensures ReplaceFrom(text, searches, replacements, start) == ConvertByChar(text[start..])
    decreases |text| - start
  {
    if NextMatch(text, searches, start).None? {
      GlobNone(text, searches, replacements, start);
    } else {
      var i := GlobNext(text, searches, replacements, start);
      ReplaceFromByChar(text, searches, replacements, i + 1);
      GlobSome(text, searches, replacements, start, i);
    }
  }

  /** With no glob character left, the rest is copied, as the per-character conversion does. */
  lemma GlobNone(text: string, searches: seq<string>, replacements: seq<string>, start: nat)
    requires GlobTable(searches, replacements) && start <= |text|
    requires NextMatch(text, searches, start).None?
    ensures ValidSearch(searches, replacements)
    ensures ReplaceFrom(text, searches, replacements, start) == ConvertByChar(text[start..])
  {
    NextGlobMatch(text, searches, replacements, start);
    assert forall j :: 0 <= j < |text[start..]| ==> text[start..][j] == text[start + j];
    ConvertByCharPlain(text[start..]);
  }

  /** Where the next glob character is, when there is one. */
  lemma GlobNext(text: string, searches: seq<string>, replacements: seq<string>, start: nat) returns (i: nat)
    requires GlobTable(searches, replacements) && start <= |text|
    requires NextMatch(text, searches, start).Some?
    ensures i == NextMatch(text, searches, start).value.0 && start <= i < |text|
  {
    NextGlobMatch(text, searches, replacements, start);
    i := NextMatch(text, searches, start).value.0;
  }

  /** A glob character at `i` is converted, and the conversions of the rest agree. */
  lemma GlobSome(text: string, searches: seq<string>, replacements: seq<string>, start: nat, i: nat)
    requires GlobTable(searches, replacements) && start <= i < |text|
    requires NextMatch(text, searches, start).Some? && NextMatch(text, searches, start).value.0 == i
    requires ReplaceFrom(text, searches, replacements, i + 1) == ConvertByChar(text[i + 1..])
    ensures ReplaceFrom(text, searches, replacements, start) == ConvertByChar(text[start..])
  {
    NextGlobMatch(text, searches, replacements, start);
    var k := NextMatch(text, searches, start).value.1;
    GlobStep(text, searches, replacements, start, i, k);
    ConvertSuffixAt(text, start, i);
  }

  /** `convertToPatternString` replaces each glob character by its regex form and copies every other character. */
  lemma ConvertIsPerChar(s: string)
    ensures ConvertToPatternString(s) == ConvertByChar(s)
  {
    GlobTableHolds();
    NextGlobMatch(s, GlobSearches, GlobReplacements, 0);
    ReplaceFromByChar(s, GlobSearches, GlobReplacements, 0);
    assert s[0..] == s;
    if NextMatch(s, GlobSearches, 0).None? {
      ConvertByCharPlain(s);
    }
  }

  /** Converting a concatenation converts the parts: matches are never searched for inside replacement text. */
  lemma ConvertAppend(a: string, b: string)
    ensures ConvertToPatternString(a + b) == ConvertToPatternString(a) + ConvertToPatternString(b)
  {
    ConvertIsPerChar(a + b);
    ConvertIsPerChar(a);
    ConvertIsPerChar(b);
    ConvertByCharAppend(a, b);
  }

  // ---------------------------------------------------------------------------
  // Compiled glob rules
  // ---------------------------------------------------------------------------

  /** Rules are restricted to characters that are not otherwise special in a regex. */
  predicate SupportedRule(rule: string) {
    forall i :: 0 <= i < |rule| ==> rule[i] != '\\' && !IsOutsideFragment(rule[i])
  }

  /** The regex piece a single glob character stands for. */
  function GlobPiece(c: char): Piece {
    if c == '?' then Piece(AnyChar, Opt)
    else if c == '*' then Piece(AnyChar, Star)
    else if c == '+' then Piece(AnyChar, Plus)
    else Piece(Lit(c), One)
  }

  function GlobPattern(rule: string): (ps: seq<Piece>)
    ensures |ps| == |rule|
  {
    if |rule| == 0 then [] else [GlobPiece(rule[0])] + GlobPattern(rule[1..])
  }

  lemma ConvertHead(s: string)
    requires |s| > 0
    ensures !IsQuantifier(ConvertByChar(s)[0])
  {
    var a := ConvertChar(s[0]);
    assert |a| > 0 && !IsQuantifier(a[0]);
    assert s == [s[0]] + s[1..];
    ConvertCons(s[0], s[1..]);
    assert (a + ConvertByChar(s[1..]))[0] == a[0];
  }

  /** One step of `Parse` over an atom without a quantifier, followed by the text `t`. */
  lemma ParseOne(r: string, p: Piece, n: nat, t: string, ps: seq<Piece>)
    requires |r| > 0 && ParseAtom(r) == Some((p.atom, n)) && p.q == One && r[n..] == t
    requires |t| > 0 ==> !IsQuantifier(t[0])
    requires Parse(t) == Some(ps)
    ensures Parse(r) == Some([p] + ps)
  {
  }

  /** One step of `Parse` over a quantified atom, followed by the text `t`. */
  lemma ParseQuantified(r: string, p: Piece, n: nat, t: string, ps: seq<Piece>)
    requires |r| > 0 && ParseAtom(r) == Some((p.atom, n))
    requires |r[n..]| > 0 && IsQuantifier(r[n..][0]) && p.q == QuantOf(r[n..][0]) && r[n..][1..] == t
    requires |t| > 0 ==> !IsQuantifier(t[0])
    requires Parse(t) == Some(ps)
    ensures Parse(r) == Some([p] + ps)
  {
  }

  /** Parsing one converted character in front of an already parsed text adds that character's piece. */
  lemma ParseConvertCons(c: char, t: string, ps: seq<Piece>)
    requires c != '\\' && !IsOutsideFragment(c)
    requires Parse(t) == Some(ps)
    requires |t| > 0 ==> !IsQuantifier(t[0])
    ensures Parse(ConvertChar(c) + t) == Some([GlobPiece(c)] + ps)
  {
    if c == '.' {
      ParseEscapedDot(t, ps);
    } else if IsGlobChar(c) {
      ParseWildcard(c, t, ps);
    } else {
      ParseLiteral(c, t, ps);
    }
  }

  lemma ParseEscapedDot(t: string, ps: seq<Piece>)
    requires Parse(t) == Some(ps)
    requires |t| > 0 ==> !IsQuantifier(t[0])
    ensures Parse(ConvertChar('.') + t) == Some([GlobPiece('.')] + ps)
  {
    DotShape(t);
    ParseOne(ConvertChar('.') + t, GlobPiece('.'), 2, t, ps);
  }

  lemma DotShape(t: string)
    ensures var r := ConvertChar('.') + t; var p := GlobPiece('.');
      |r| > 0 && ParseAtom(r) == Some((p.atom, 2)) && p.q == One && r[2..] == t
  {
    PairFacts(GlobLead('.'), '.', t);
  }

  lemma ParseWildcard(c: char, t: string, ps: seq<Piece>)
    requires IsGlobChar(c) && c != '.'
    requires Parse(t) == Some(ps)
    requires |t| > 0 ==> !IsQuantifier(t[0])
    ensures Parse(ConvertChar(c) + t) == Some([GlobPiece(c)] + ps)
  {
    var r := ConvertChar(c) + t;
    assert ParseAtom(r) == Some((AnyChar, 1)) && |r[1..]| > 0 && r[1..][0] == c && r[1..][1..] == t by {
      PairFacts(GlobLead(c), c, t);
    }
    ParseQuantified(r, GlobPiece(c), 1, t, ps);
  }

  lemma ParseLiteral(c: char, t: string, ps: seq<Piece>)
    requires !IsGlobChar(c) && c != '\\' && !IsOutsideFragment(c)
    requires Parse(t) == Some(ps)
    requires |t| > 0 ==> !IsQuantifier(t[0])
    ensures Parse(ConvertChar(c) + t) == Some([GlobPiece(c)] + ps)
  {
    var r := ConvertChar(c) + t;
    assert ParseAtom(r) == Some((Lit(c), 1)) && r[1..] == t by {
      SingleFacts(c, t);
    }
    ParseOne(r, GlobPiece(c), 1, t, ps);
  }

  lemma PairFacts(x: char, y: char, t: string)
    ensures var r := [x, y] + t; |r| >= 2 && r[0] == x && r[1..][0] == y && r[1] == y && r[2..] == t && r[1..][1..] == t
  {
  }

  lemma SingleFacts(x: char, t: string)
    ensures var r := [x] + t; |r| >= 1 && r[0] == x && r[1..] == t
  {
  }

  lemma {:induction false} ParseConvertByChar(rule: string)
    requires SupportedRule(rule)
    ensures Parse(ConvertByChar(rule)) == Some(GlobPattern(rule))
  {
    if |rule| > 0 {
      var t := ConvertByChar(rule[1..]);
      assert SupportedRule(rule[1..]) by {
        forall i | 0 <= i < |rule[1..]| ensures rule[1..][i] != '\\' && !IsOutsideFragment(rule[1..][i]) {
          assert rule[1..][i] == rule[i + 1];
        }
      }
      ParseConvertByChar(rule[1..]);
      if |t| > 0 {
        ConvertHead(rule[1..]);
      }
      ParseConvertCons(rule[0], t, GlobPattern(rule[1..]));
    }
  }

  /** A supported rule compiles to its glob pattern: `?` is an optional dot, `*` and `+` are starred and plussed dots, and every other character is a literal. */
  lemma CompileRule(rule: string)
    requires SupportedRule(rule)
    ensures Parse(ConvertToPatternString(rule)) == Some(GlobPattern(rule))
  {
    ConvertIsPerChar(rule);
    ParseConvertByChar(rule);
  }

  /** `Pattern.compile(convertToPatternString(rule)).matcher(s).matches()`. */
  predicate GlobMatches(rule: string, s: string)
    requires SupportedRule(rule)
  {
    CompileRule(rule);
    Matches(GlobPattern(rule), s)
  }

  lemma {:induction false} GlobPatternAppend(a: string, b: string)
    ensures GlobPattern(a + b) == GlobPattern(a) + GlobPattern(b)
  {
    if |a| > 0 {
      assert (a + b)[1..] == a[1..] + b;
      GlobPatternAppend(a[1..], b);
    } else {
      assert a + b == b;
    }
  }

  predicate IsLiteral(p: string) {
    forall i :: 0 <= i < |p| ==> p[i] != '?' && p[i] != '*' && p[i] != '+'
  }

  /** A literal head matches itself and nothing else. */
  lemma {:induction false} LiteralPrefix(p: string, ps: seq<Piece>, s: string)
    requires IsLiteral(p)
    ensures Matches(GlobPattern(p) + ps, s) <==> p <= s && Matches(ps, s[|p|..])
  {
    if |p| > 0 {
      var g := GlobPattern(p) + ps;
      assert g[0] == Piece(Lit(p[0]), One);
      assert g[1..] == GlobPattern(p[1..]) + ps;
      assert IsLiteral(p[1..]) by {
        forall i | 0 <= i < |p[1..]| ensures p[1..][i] != '?' && p[1..][i] != '*' && p[1..][i] != '+' {
          assert p[1..][i] == p[i + 1];
        }
      }
      if |s| > 0 {
        LiteralPrefix(p[1..], ps, s[1..]);
        if |p| <= |s| {
          assert s[1..][|p| - 1..] == s[|p|..];
        }
        if p <= s {
          assert p[1..] <= s[1..];
        }
        if s[0] == p[0] && p[1..] <= s[1..] {
          assert p == [p[0]] + p[1..];
        }
      }
    } else {
      assert GlobPattern(p) + ps == ps;
      assert s[0..] == s;
    }
  }

  /** A rule without wildcards matches exactly itself (a `.` in it is a literal dot). */
  lemma LiteralRule(rule: string, s: string)
    requires SupportedRule(rule) && IsLiteral(rule)
    ensures GlobMatches(rule, s) <==> s == rule
  {
    LiteralPrefix(rule, [], s);
    assert GlobPattern(rule) + [] == GlobPattern(rule);
  }

  /**
   * A rule `p*q` with literal `p` and `q` (such as the signature-file rules under META-INF) matches exactly the texts that
   * start with `p`, end with `q` without overlap, and have no line terminator in between.
   */
  lemma PrefixStarSuffix(p: string, q: string, s: string)
    requires SupportedRule(p + "*" + q) && IsLiteral(p) && IsLiteral(q)
    ensures GlobMatches(p + "*" + q, s) <==>
      |p| + |q| <= |s| && s[..|p|] == p && s[|s| - |q|..] == q && NoLineTerminator(s[|p|..|s| - |q|])
  {
    GlobStarSplit(p, q);
    LiteralPrefix(p, [Piece(AnyChar, Star)] + GlobPattern(q), s);
    if |p| <= |s| {
      StarTailFacts(p, q, s);
      StarLiteral(q, s[|p|..]);
    }
  }

  lemma GlobStarSplit(p: string, q: string)
    ensures GlobPattern(p + "*" + q) == GlobPattern(p) + ([Piece(AnyChar, Star)] + GlobPattern(q))
  {
    GlobPatternAppend(p + "*", q);
    GlobPatternAppend(p, "*");
    assert GlobPattern("*") == [Piece(AnyChar, Star)];
  }

  lemma StarTailFacts(p: string, q: string, s: string)
    requires |p| <= |s|
    ensures var u := s[|p|..];
      (p <= s <==> s[..|p|] == p) &&
      (|q| <= |u| <==> |p| + |q| <= |s|) &&
      (|q| <= |u| ==> u[|u| - |q|..] == s[|s| - |q|..] && u[..|u| - |q|] == s[|p|..|s| - |q|])
  {
  }

  /** A rule without wildcards accepts exactly its own text. */
  lemma LiteralExact(q: string, v: string)
    requires IsLiteral(q)
    ensures Matches(GlobPattern(q), v) <==> v == q
  {
    LiteralPrefix(q, [], v);
    assert GlobPattern(q) + [] == GlobPattern(q);
  }

  /** A starred dot followed by a literal accepts the texts ending in that literal with no line terminator before it. */
  lemma StarLiteral(q: string, u: string)
    requires IsLiteral(q)
    ensures Matches([Piece(AnyChar, Star)] + GlobPattern(q), u) <==>
      |q| <= |u| && u[|u| - |q|..] == q && NoLineTerminator(u[..|u| - |q|])
  {
    StarAny(GlobPattern(q), u);
    if Matches([Piece(AnyChar, Star)] + GlobPattern(q), u) {
      StarLiteralSplit(q, u);
    }
    if |q| <= |u| && u[|u| - |q|..] == q && NoLineTerminator(u[..|u| - |q|]) {
      LiteralExact(q, u[|u| - |q|..]);
    }
  }

  /** The only split a starred dot leaves for a literal tail is the one just before it. */
  lemma StarLiteralSplit(q: string, u: string)
    requires IsLiteral(q)
    requires exists i :: 0 <= i <= |u| && NoLineTerminator(u[..i]) && Matches(GlobPattern(q), u[i..])
    ensures |q| <= |u| && u[|u| - |q|..] == q && NoLineTerminator(u[..|u| - |q|])
  {
    var i :| 0 <= i <= |u| && NoLineTerminator(u[..i]) && Matches(GlobPattern(q), u[i..]);
    LiteralExact(q, u[i..]);
  }

  /** A possibly absent rule collection whose rules all lie in the supported fragment. */
  predicate SupportedRules(patterns: Option<seq<string>>) {
    patterns.Some? ==> forall i :: 0 <= i < |patterns.value| ==> SupportedRule(patterns.value[i])
  }

  /** `match(str, patterns)`: true for a null set, false as soon as some pattern matches the whole text. */
  function Match(str: string, patterns: Option<seq<string>>): (r: bool)
    requires SupportedRules(patterns)
    ensures patterns.None? ==> r
    ensures patterns.Some? ==> (r <==> forall i :: 0 <= i < |patterns.value| ==> !GlobMatches(patterns.value[i], str))
    decreases if patterns.Some? then |patterns.value| else 0
  {
    match patterns
    case None => true
    case Some(ps) =>
      if |ps| == 0 then true
      else if GlobMatches(ps[0], str) then false
      else Match(str, Some(ps[1..]))
  }
}
