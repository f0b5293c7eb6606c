/**
 * The parts of `java.lang.String` the modelled code relies on: substring search,
 * single-character `split`, `replace`, `trim`, and decimal rendering of integers.
 */
module Strings {
  import opened Wrappers

  /** `p` occurs in `s` starting at index `i`. */
  predicate OccursAt(s: string, p: string, i: nat) {
    i + |p| <= |s| && s[i..i + |p|] == p
  }

  /** `s.contains(p)`. */
  predicate Contains(s: string, p: string) {
    exists i: nat | i <= |s| :: OccursAt(s, p, i)
  }

  lemma OccursAtSingle(s: string, c: char, i: nat)
    ensures OccursAt(s, [c], i) <==> i < |s| && s[i] == c
  {
    if i < |s| && s[i] == c {
      assert s[i..i + 1] == [c];
    }
  }

  /** A char occurs in `s` exactly when `s.contains` of the one-char string holds. */
  lemma ContainsSingle(s: string, c: char)
    ensures Contains(s, [c]) <==> c in s
  {
    if c in s {
      var i :| 0 <= i < |s| && s[i] == c;
      OccursAtSingle(s, c, i);
    }
    if Contains(s, [c]) {
      var i: nat :| OccursAt(s, [c], i);
      OccursAtSingle(s, c, i);
    }
  }

  /** `s.indexOf(p, from)`: the first occurrence at or after `from`. */
  function IndexOfFrom(s: string, p: string, from: nat): (r: Option<nat>)
    decreases |s| + 1 - from
    ensures r.Some? ==> from <= r.value && OccursAt(s, p, r.value)
    ensures r.Some? ==> forall j: nat :: from <= j < r.value ==> !OccursAt(s, p, j)
    ensures r.None? ==> forall j: nat :: from <= j ==> !OccursAt(s, p, j)
  {
    if from + |p| > |s| then None
    else if OccursAt(s, p, from) then Some(from)
    else IndexOfFrom(s, p, from + 1)
  }

  /** `s.indexOf(p)`, with -1 written as `None`. */
  function IndexOf(s: string, p: string): (r: Option<nat>)
    ensures r.Some? ==> OccursAt(s, p, r.value) && forall j: nat :: j < r.value ==> !OccursAt(s, p, j)
    ensures r.None? <==> !Contains(s, p)
  {
    IndexOfFrom(s, p, 0)
  }

  /** The last occurrence of `p` that starts before `end`. */
  function LastIndexBefore(s: string, p: string, end: nat): (r: Option<nat>)
    ensures r.Some? ==> r.value < end && OccursAt(s, p, r.value)
    ensures r.Some? ==> forall j: nat :: r.value < j < end ==> !OccursAt(s, p, j)
    ensures r.None? ==> forall j: nat :: j < end ==> !OccursAt(s, p, j)
  {
    if end == 0 then None
    else if OccursAt(s, p, end - 1) then Some(end - 1)
    else LastIndexBefore(s, p, end - 1)
  }

  /** `s.lastIndexOf(p)`, with -1 written as `None`. */
  function LastIndexOf(s: string, p: string): (r: Option<nat>)
    ensures r.Some? ==> OccursAt(s, p, r.value) && forall j: nat :: r.value < j ==> !OccursAt(s, p, j)
    ensures r.None? <==> !Contains(s, p)
  {
    LastIndexBefore(s, p, |s| + 1)
  }

  /** An occurrence with none after it is the last one. */
  lemma LastIndexOfIs(s: string, p: string, i: nat)
    requires OccursAt(s, p, i)
    requires forall j: nat :: i < j ==> !OccursAt(s, p, j)
    ensures LastIndexOf(s, p) == Some(i)
  {
  }

  /** An occurrence with none before it is the first one. */
  lemma IndexOfIs(s: string, p: string, i: nat)
    requires OccursAt(s, p, i)
    requires forall j: nat :: j < i ==> !OccursAt(s, p, j)
    ensures IndexOf(s, p) == Some(i)
  {
  }

  /** `s.replace(a, b)` for single characters. */
  function ReplaceChar(s: string, a: char, b: char): (r: string)
    ensures |r| == |s|
    ensures forall i :: 0 <= i < |s| ==> r[i] == if s[i] == a then b else s[i]
  {
    if |s| == 0 then [] else [if s[0] == a then b else s[0]] + ReplaceChar(s[1..], a, b)
  }

  /** Every piece between separators `c`, empty ones included (what a split keeps before trimming). */
  function Tokens(s: string, c: char): (r: seq<string>)
    ensures |r| >= 1
    ensures forall i :: 0 <= i < |r| ==> c !in r[i]
  {
    if |s| == 0 then [[]]
    else
      var t := Tokens(s[1..], c);
      if s[0] == c then [[]] + t else [[s[0]] + t[0]] + t[1..]
  }

  /** Java's `split` removes trailing empty strings. */
  function DropTrailingEmpty(t: seq<string>): (r: seq<string>)
    ensures r <= t
    ensures |r| > 0 ==> r[|r| - 1] != []
    ensures forall i :: |r| <= i < |t| ==> t[i] == []
  {
    if |t| == 0 then t
    else if t[|t| - 1] == [] then DropTrailingEmpty(t[..|t| - 1])
    else t
  }

  /** `s.split(String.valueOf(c))` for a character that is not a regex metacharacter. */
  function Split(s: string, c: char): seq<string> {
    if c !in s then [s] else DropTrailingEmpty(Tokens(s, c))
  }

  /** Joining the tokens back with the separator gives the input. */
  function Join(t: seq<string>, c: char): string
    requires |t| >= 1
  {
    if |t| == 1 then t[0] else t[0] + [c] + Join(t[1..], c)
  }

  lemma {:induction false} TokensJoin(s: string, c: char)
    ensures Join(Tokens(s, c), c) == s
  {
    if |s| > 0 {
      var t := Tokens(s[1..], c);
      TokensJoin(s[1..], c);
      if s[0] == c {
        assert Tokens(s, c) == [[]] + t;
        assert s == [c] + s[1..];
      } else {
        var r := Tokens(s, c);
        assert r == [[s[0]] + t[0]] + t[1..];
        if |t| == 1 {
          assert Join(r, c) == [s[0]] + t[0];
        } else {
          assert r[1..] == t[1..];
          assert Join(r, c) == [s[0]] + t[0] + [c] + Join(t[1..], c);
          assert Join(t, c) == t[0] + [c] + Join(t[1..], c);
        }
        assert s == [s[0]] + s[1..];
      }
    }
  }

  /** The first token is the text before the first separator (all of `s` when there is none). */
  lemma {:induction false} TokensHead(s: string, c: char)
    ensures Tokens(s, c)[0] <= s
    ensures |Tokens(s, c)[0]| < |s| ==> s[|Tokens(s, c)[0]|] == c
    ensures |Tokens(s, c)| == 1 <==> c !in s
  {
    if |s| > 0 {
      TokensHead(s[1..], c);
    }
  }

  /** The last token is the text after the last separator. */
  lemma {:induction false} TokensLast(s: string, c: char)
    ensures var t := Tokens(s, c); var l := t[|t| - 1];
      |l| <= |s| && l == s[|s| - |l|..] && (|l| < |s| ==> s[|s| - |l| - 1] == c) && (|t| > 1 ==> |l| < |s|)
  {
    if |s| > 0 {
      TokensLast(s[1..], c);
      var t := Tokens(s[1..], c);
      var r := Tokens(s, c);
      if s[0] != c && |t| == 1 {
        TokensHead(s[1..], c);
        assert t[0] == s[1..];
        assert r == [[s[0]] + t[0]];
        assert [s[0]] + s[1..] == s;
      } else {
        assert r[|r| - 1] == t[|t| - 1];
        assert |r| > 1;
        assert s[1..][|s[1..]| - |t[|t| - 1]|..] == s[|s| - |t[|t| - 1]|..];
      }
    }
  }

  /** Every token is empty. */
  predicate AllEmpty(t: seq<string>) {
    forall i :: 0 <= i < |t| ==> t[i] == []
  }

  /** Every character is the separator `c`. */
  predicate AllSeparators(s: string, c: char) {
    forall i :: 0 <= i < |s| ==> s[i] == c
  }

  /** The tokens are all empty exactly when the text is made only of separators. */
  lemma {:induction false} TokensAllEmpty(s: string, c: char)
    ensures AllEmpty(Tokens(s, c)) <==> AllSeparators(s, c)
  {
    if |s| > 0 {
      TokensAllEmpty(s[1..], c);
      var t := Tokens(s[1..], c);
      var r := Tokens(s, c);
      AllOfCons(s, c);
      if s[0] != c {
        assert r[0] == [s[0]] + t[0] && r[0] != [];
        assert !AllEmpty(r);
      } else {
        assert r == [[]] + t;
        AllEmptyCons(t);
      }
    }
  }

  lemma AllOfCons(s: string, c: char)
    requires |s| > 0
    ensures AllSeparators(s, c) <==> s[0] == c && AllSeparators(s[1..], c)
  {
    if s[0] == c && AllSeparators(s[1..], c) {
      forall i | 0 <= i < |s| ensures s[i] == c {
        if i > 0 { assert s[i] == s[1..][i - 1]; }
      }
    }
  }

  lemma AllEmptyCons(t: seq<string>)
    ensures AllEmpty([[]] + t) <==> AllEmpty(t)
  {
    var r: seq<string> := [[]] + t;
    if AllEmpty(t) {
      forall i | 0 <= i < |r| ensures r[i] == [] {
        if i > 0 { assert r[i] == t[i - 1]; }
      }
    }
    if AllEmpty(r) {
      forall i | 0 <= i < |t| ensures t[i] == [] {
        assert t[i] == r[i + 1];
      }
    }
  }

  lemma DropTrailingEmptyNonEmpty(t: seq<string>)
    ensures |DropTrailingEmpty(t)| == 0 <==> forall i :: 0 <= i < |t| ==> t[i] == []
  {
    var r := DropTrailingEmpty(t);
    if |r| > 0 {
      assert r[|r| - 1] == t[|r| - 1];
    }
  }

  /** `split` returns an empty array exactly for a non-empty text made only of separators. */
  lemma SplitEmpty(s: string, c: char)
    ensures |Split(s, c)| == 0 <==> (c in s && forall i :: 0 <= i < |s| ==> s[i] == c)
  {
    if c in s {
      TokensAllEmpty(s, c);
      DropTrailingEmptyNonEmpty(Tokens(s, c));
      assert Split(s, c) == DropTrailingEmpty(Tokens(s, c));
    } else {
      assert |Split(s, c)| == 1;
    }
  }

  /** When `split` returns something, its first element is the text before the first separator. */
  lemma SplitHead(s: string, c: char)
    requires |Split(s, c)| > 0
    ensures Split(s, c)[0] == Tokens(s, c)[0]
  {
    if c !in s {
      TokensHead(s, c);
    }
  }

  /** When the text does not end with the separator, `split` keeps every token. */
  lemma SplitNoTrailing(s: string, c: char)
    requires |s| > 0 && s[|s| - 1] != c
    ensures Split(s, c) == Tokens(s, c)
  {
    TokensLast(s, c);
    TokensHead(s, c);
    var t := Tokens(s, c);
    assert t[|t| - 1] != [];
  }

  /** Splitting joined slash-free names at the slashes gives the names back. */
  lemma {:induction false} TokensOfJoin(names: seq<string>)
    requires |names| >= 1
    requires forall i :: 0 <= i < |names| ==> '/' !in names[i]
    ensures Tokens(Join(names, '/'), '/') == names
  {
    if |names| == 1 {
      TokensOfPlain(names[0]);
    } else {
      TokensOfJoin(names[1..]);
      TokensCons(names[0], Join(names[1..], '/'));
    }
  }

  /** A slash-free text is a single token. */
  lemma {:induction false} TokensOfPlain(s: string)
    requires '/' !in s
    ensures Tokens(s, '/') == [s]
  {
    if |s| > 0 {
      TokensOfPlain(s[1..]);
      assert [s[0]] + s[1..] == s;
    }
  }

  /** A slash-free word followed by a slash puts that word in front of the tokens of the rest. */
  lemma {:induction false} TokensCons(w: string, rest: string)
    requires '/' !in w
    ensures Tokens(w + "/" + rest, '/') == [w] + Tokens(rest, '/')
  {
    if |w| == 0 {
      assert w + "/" + rest == "/" + rest;
      assert ("/" + rest)[1..] == rest;
    } else {
      var s := w + "/" + rest;
      assert s[1..] == w[1..] + "/" + rest;
      TokensCons(w[1..], rest);
      assert [w[0]] + w[1..] == w;
    }
  }

  /** Joining all names is joining all but the last, a slash, and the last. */
  lemma {:induction false} JoinSnoc(t: seq<string>, c: char)
    requires |t| >= 2
    ensures Join(t, c) == Join(t[..|t| - 1], c) + [c] + t[|t| - 1]
  {
    if |t| > 2 {
      JoinSnoc(t[1..], c);
      assert t[1..][..|t[1..]| - 1] == t[..|t| - 1][1..];
    }
  }

  /** The last piece of a split at slashes: non-empty, slash-free, and the text after the last slash when the text does not end with one. */
  lemma SplitLast(s: string)
    requires |Split(s, '/')| > 0
    ensures var v := Split(s, '/'); var n := v[|v| - 1];
      '/' !in n
      && ('/' in s ==> n != [])
      && ('/' in s && s[|s| - 1] != '/' ==> |n| < |s| && n == s[|s| - |n|..] && s[|s| - |n| - 1] == '/' && OccursAt(s, n, |s| - |n|))
  {
    if '/' !in s {
      return;
    }
    var t := Tokens(s, '/');
    var v := Split(s, '/');
    assert v == DropTrailingEmpty(t);
    assert v[|v| - 1] == t[|v| - 1];
    if s[|s| - 1] != '/' {
      SplitNoTrailing(s, '/');
      TokensLast(s, '/');
      TokensHead(s, '/');
    }
  }

  /** `s.replace(".", "/").split("/")`: the pieces between dots and slashes, trailing empty ones dropped. */
  function SplitDotsAndSlashes(s: string): seq<string> {
    Split(ReplaceChar(s, '.', '/'), '/')
  }

  /** A character absent from the text is absent from every token. */
  lemma {:induction false} TokensAvoid(s: string, c: char, d: char)
    requires d !in s
    ensures forall i :: 0 <= i < |Tokens(s, c)| ==> d !in Tokens(s, c)[i]
  {
    if |s| > 0 {
      assert d !in s[1..];
      TokensAvoid(s[1..], c, d);
    }
  }

  /** The pieces are free of both separators. */
  lemma DotPiecesPlain(s: string)
    ensures forall i :: 0 <= i < |SplitDotsAndSlashes(s)| ==>
      '.' !in SplitDotsAndSlashes(s)[i] && '/' !in SplitDotsAndSlashes(s)[i]
  {
    var x := ReplaceChar(s, '.', '/');
    var v := SplitDotsAndSlashes(s);
    assert '.' !in x;
    if '/' in x {
      var t := Tokens(x, '/');
      TokensAvoid(x, '/', '.');
      assert v <= t;
    }
  }

  /** The splitting leaves nothing exactly when the text is made only of dots and slashes (and is not empty). */
  lemma DotSplitEmpty(s: string)
    ensures |SplitDotsAndSlashes(s)| == 0 <==> |s| > 0 && forall i :: 0 <= i < |s| ==> s[i] == '.' || s[i] == '/'
  {
    var x := ReplaceChar(s, '.', '/');
    SplitEmpty(x, '/');
    if |s| > 0 && forall i :: 0 <= i < |s| ==> s[i] == '.' || s[i] == '/' {
      assert x[0] == '/';
    }
  }

  /** The first piece is the text before the first dot or slash. */
  lemma DotSplitHead(s: string)
    requires |SplitDotsAndSlashes(s)| > 0
    ensures var h := SplitDotsAndSlashes(s)[0];
      |h| <= |s| && h == s[..|h|] && '.' !in h && '/' !in h && (|h| < |s| ==> s[|h|] == '.' || s[|h|] == '/')
  {
    var x := ReplaceChar(s, '.', '/');
    SplitHead(x, '/');
    TokensHead(x, '/');
    var h := Tokens(x, '/')[0];
    assert '/' !in h;
    forall i | 0 <= i < |h| ensures h[i] == s[i] && s[i] != '.' && s[i] != '/' {
      assert h[i] == x[i];
    }
  }

  /** Java's `trim`: strip leading and trailing characters up to U+0020. */
  function TrimLeft(s: string): (r: string)
    ensures |r| <= |s| && r == s[|s| - |r|..]
    ensures forall i :: 0 <= i < |s| - |r| ==> s[i] <= ' '
  {
    if |s| > 0 && s[0] <= ' ' then TrimLeft(s[1..]) else s
  }

  function TrimRight(s: string): (r: string)
    ensures r <= s
    ensures forall i :: |r| <= i < |s| ==> s[i] <= ' '
  {
    if |s| > 0 && s[|s| - 1] <= ' ' then TrimRight(s[..|s| - 1]) else s
  }

  function Trim(s: string): string {
    TrimRight(TrimLeft(s))
  }

  /** No leading or trailing character that `trim` would strip. */
  predicate IsTrimmed(s: string) {
    |s| == 0 || (s[0] > ' ' && s[|s| - 1] > ' ')
  }

  predicate AllBlank(w: string) {
    forall i :: 0 <= i < |w| ==> w[i] <= ' '
  }

  lemma {:induction false} TrimLeftBlank(w: string, s: string)
    requires AllBlank(w)
    requires |s| == 0 || s[0] > ' '
    ensures TrimLeft(w + s) == s
  {
    if |w| > 0 {
      assert (w + s)[1..] == w[1..] + s;
      TrimLeftBlank(w[1..], s);
    } else {
      assert w + s == s;
    }
  }

  lemma {:induction false} TrimRightBlank(s: string, w: string)
    requires AllBlank(w)
    requires |s| == 0 || s[|s| - 1] > ' '
    ensures TrimRight(s + w) == s
  {
    if |w| > 0 {
      assert (s + w)[..|s + w| - 1] == s + w[..|w| - 1];
      TrimRightBlank(s, w[..|w| - 1]);
    } else {
      assert s + w == s;
    }
  }

  /** Trimming a trimmed text padded with blanks on both sides gives the text back. */
  lemma TrimPadded(w1: string, s: string, w2: string)
    requires AllBlank(w1) && AllBlank(w2) && IsTrimmed(s)
    ensures Trim(w1 + s + w2) == s
  {
    if |s| == 0 {
      var w := w1 + w2;
      assert AllBlank(w) by {
        forall i | 0 <= i < |w| ensures w[i] <= ' ' {
          if i < |w1| { assert w[i] == w1[i]; } else { assert w[i] == w2[i - |w1|]; }
        }
      }
      assert w1 + s + w2 == w + [];
      TrimLeftBlank(w, []);
    } else {
      assert w1 + s + w2 == w1 + (s + w2);
      TrimLeftBlank(w1, s + w2);
      TrimRightBlank(s, w2);
    }
  }

  /** A trimmed text with one space after, before, or on both sides trims back to itself. */
  lemma TrimSpaced(s: string)
    requires IsTrimmed(s)
    ensures Trim(s + " ") == s && Trim(" " + s) == s && Trim(" " + s + " ") == s
  {
    TrimSpaceAfter(s);
    TrimSpaceBefore(s);
    TrimPadded(" ", s, " ");
  }

  lemma TrimSpaceBefore(s: string)
    requires IsTrimmed(s)
    ensures Trim(" " + s) == s
  {
    TrimLeftBlank(" ", s);
    assert TrimRight(s) == s;
  }

  lemma TrimSpaceAfter(s: string)
    requires IsTrimmed(s)
    ensures Trim(s + " ") == s
  {
    if |s| == 0 {
      assert s + " " == " " && TrimLeft(" ") == TrimLeft("");
    } else {
      assert (s + " ")[0] == s[0];
      TrimRightBlank(s, " ");
    }
  }

  /** Characters matched by the regex class `\s`. */
  predicate IsRegexSpace(c: char) {
    c == ' ' || c == '\t' || c == '\n' || c == '\U{000B}' || c == '\U{000C}' || c == '\r'
  }

  /** Characters the regex `.` refuses without DOTALL (the Java line terminators). */
  predicate IsLineTerminator(c: char) {
    c == '\n' || c == '\r' || c == '\U{0085}' || c == '\U{2028}' || c == '\U{2029}'
  }

  predicate IsDigit(c: char) {
    '0' <= c <= '9'
  }

  function DigitChar(d: nat): (c: char)
    requires d < 10
    ensures IsDigit(c)
  {
    ('0' as int + d) as char
  }

  /** Decimal rendering of a non-negative integer, as `Long.toString`. */
  function NatToString(n: nat): (r: string)
    ensures |r| >= 1
    ensures forall i :: 0 <= i < |r| ==> IsDigit(r[i])
    ensures n > 0 ==> r[0] != '0'
  {
    if n < 10 then [DigitChar(n)] else NatToString(n / 10) + [DigitChar(n % 10)]
  }

  /** Reads a run of decimal digits back. */
  function ParseDigits(s: string): nat
    requires forall i :: 0 <= i < |s| ==> IsDigit(s[i])
  {
    if |s| == 0 then 0
    else
      assert IsDigit(s[|s| - 1]);
      ParseDigits(s[..|s| - 1]) * 10 + (s[|s| - 1] as int - '0' as int)
  }

  lemma {:induction false} ParseNatToString(n: nat)
    ensures ParseDigits(NatToString(n)) == n
  {
    if n >= 10 {
      var r := NatToString(n);
      assert r[..|r| - 1] == NatToString(n / 10);
      ParseNatToString(n / 10);
    }
  }

  /** Decimal rendering is injective, so the text identifies the number. */
  lemma NatToStringInjective(m: nat, n: nat)
    requires NatToString(m) == NatToString(n)
    ensures m == n
  {
    ParseNatToString(m);
    ParseNatToString(n);
  }

  /** Decimal rendering of any integer (Java `long` concatenation into a string). */
  function IntToString(i: int): (r: string)
    ensures |r| >= 1
    ensures i >= 0 ==> r == NatToString(i)
    ensures i < 0 ==> r == "-" + NatToString(-i)
  {
    if i < 0 then "-" + NatToString(-i) else NatToString(i)
  }
}
