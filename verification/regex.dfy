/**
 * The fragment of `java.util.regex` that compiled glob rules use: literal characters,
 * the any-character dot, and the greedy quantifiers `?`, `*` and `+` on a single atom.
 * `Parse` reads a pattern string of that fragment; `Matches` is `Matcher.matches()`,
 * that is, a match of the whole input.
 */
module Regex {
  import opened Wrappers
  import opened Strings

  datatype Atom = Lit(c: char) | AnyChar

  datatype Quant = One | Opt | Star | Plus

  datatype Piece = Piece(atom: Atom, q: Quant)

  predicate IsQuantifier(c: char) {
    c == '?' || c == '*' || c == '+'
  }

  /** Characters that start a construct outside the fragment (classes, groups, anchors, bounds, alternation). */
  predicate IsOutsideFragment(c: char) {
    c == '[' || c == ']' || c == '(' || c == ')' || c == '{' || c == '}' || c == '^' || c == '$' || c == '|'
  }

  predicate IsAsciiAlnum(c: char) {
    ('a' <= c <= 'z') || ('A' <= c <= 'Z') || ('0' <= c <= '9')
  }

  /** Without DOTALL, `.` accepts every character except a line terminator. */
  predicate AtomAccepts(a: Atom, c: char) {
    match a
    case Lit(d) => c == d
    case AnyChar => !IsLineTerminator(c)
  }

  /**
   * The atom at the head of `r` and how many characters it takes. A backslash before a
   * character that is not a letter or digit quotes it; `None` is everything outside the fragment.
   */
  function ParseAtom(r: string): (res: Option<(Atom, nat)>)
    requires |r| > 0
    ensures res.Some? ==> 1 <= res.value.1 <= |r|
  {
    if r[0] == '\\' then
      if |r| >= 2 && !IsAsciiAlnum(r[1]) then Some((Lit(r[1]), 2)) else None
    else if r[0] == '.' then Some((AnyChar, 1))
    else if IsQuantifier(r[0]) || IsOutsideFragment(r[0]) then None
    else Some((Lit(r[0]), 1))
  }

  function QuantOf(c: char): Quant
    requires IsQuantifier(c)
  {
    if c == '?' then Opt else if c == '*' then Star else Plus
  }

  /** Reads a pattern of the fragment; a quantifier directly after a quantifier (lazy or possessive forms) is outside it. */
  function Parse(r: string): Option<seq<Piece>>
    decreases |r|
  {
    if |r| == 0 then Some([])
    else
      match ParseAtom(r)
      case None => None
      case Some((a, n)) =>
        var rest := r[n..];
        if |rest| > 0 && IsQuantifier(rest[0]) then
          var after := rest[1..];
          if |after| > 0 && IsQuantifier(after[0]) then None
          else
            match Parse(after)
            case None => None
            case Some(ps) => Some([Piece(a, QuantOf(rest[0]))] + ps)
        else
          match Parse(rest)
          case None => None
          case Some(ps) => Some([Piece(a, One)] + ps)
  }

  /** The pieces accept the whole of `s`. */
  predicate Matches(ps: seq<Piece>, s: string)
    decreases |s|, |ps|
  {
    if |ps| == 0 then |s| == 0
    else
      var a := ps[0].atom;
      match ps[0].q
      case One => |s| > 0 && AtomAccepts(a, s[0]) && Matches(ps[1..], s[1..])
      case Opt => Matches(ps[1..], s) || (|s| > 0 && AtomAccepts(a, s[0]) && Matches(ps[1..], s[1..]))
      case Star => Matches(ps[1..], s) || (|s| > 0 && AtomAccepts(a, s[0]) && Matches(ps, s[1..]))
      case Plus => |s| > 0 && AtomAccepts(a, s[0]) && Matches([Piece(a, Star)] + ps[1..], s[1..])
  }

  /** `s` contains no line terminator, so `.` accepts each of its characters. */
  predicate NoLineTerminator(s: string) {
    forall i :: 0 <= i < |s| ==> !IsLineTerminator(s[i])
  }

  /** A starred dot followed by `ps` accepts `s` exactly when some prefix without line terminators is followed by a match of `ps`. */
  lemma {:induction false} StarAny(ps: seq<Piece>, s: string)
    ensures Matches([Piece(AnyChar, Star)] + ps, s) <==>
            exists i :: 0 <= i <= |s| && NoLineTerminator(s[..i]) && Matches(ps, s[i..])
  {
    var sp := [Piece(AnyChar, Star)] + ps;
    assert sp[1..] == ps;
    if Matches(sp, s) {
      if Matches(ps, s) {
        assert s[..0] == [] && s[0..] == s;
      } else {
        assert |s| > 0 && !IsLineTerminator(s[0]) && Matches(sp, s[1..]);
        StarAny(ps, s[1..]);
        var i :| 0 <= i <= |s[1..]| && NoLineTerminator(s[1..][..i]) && Matches(ps, s[1..][i..]);
        assert s[1..][i..] == s[i + 1..];
        var pre := s[..i + 1];
        assert NoLineTerminator(pre) by {
          forall j | 0 <= j < i + 1 ensures !IsLineTerminator(pre[j]) {
            if j > 0 { assert pre[j] == s[1..][..i][j - 1]; }
          }
        }
      }
    }
    if exists i :: 0 <= i <= |s| && NoLineTerminator(s[..i]) && Matches(ps, s[i..]) {
      var i :| 0 <= i <= |s| && NoLineTerminator(s[..i]) && Matches(ps, s[i..]);
      if i == 0 {
        assert s[0..] == s;
      } else {
        assert !IsLineTerminator(s[..i][0]);
        var pre := s[1..][..i - 1];
        assert NoLineTerminator(pre) by {
          forall j | 0 <= j < i - 1 ensures !IsLineTerminator(pre[j]) {
            assert pre[j] == s[..i][j + 1];
          }
        }
        assert s[1..][i - 1..] == s[i..];
        StarAny(ps, s[1..]);
      }
    }
  }
}
