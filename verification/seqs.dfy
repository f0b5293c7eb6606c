/** Order-preserving filtering and duplicate-freedom of sequences, shared by the list manipulations of the model. */
module Seqs {
  import opened Wrappers

  function Elems<T>(s: seq<T>): set<T> {
    set x | x in s
  }

  predicate Distinct<T(==)>(s: seq<T>) {
    forall i, j :: 0 <= i < j < |s| ==> s[i] != s[j]
  }

  /** The elements of `s` that `keep` accepts, in their original order (`List.removeIf` of the complement). */
  function Filter<T(==)>(s: seq<T>, keep: T -> bool): (r: seq<T>)
    ensures |r| <= |s|
    ensures forall i :: 0 <= i < |r| ==> r[i] in s && keep(r[i])
    ensures forall i :: 0 <= i < |s| && keep(s[i]) ==> s[i] in r
  {
    if |s| == 0 then [] else (if keep(s[0]) then [s[0]] else []) + Filter(s[1..], keep)
  }

  lemma {:induction false} FilterAppend<T>(a: seq<T>, b: seq<T>, keep: T -> bool)
    ensures Filter(a + b, keep) == Filter(a, keep) + Filter(b, keep)
  {
    if |a| == 0 {
      assert a + b == b;
    } else {
      assert (a + b)[1..] == a[1..] + b;
      FilterAppend(a[1..], b, keep);
    }
  }

  lemma {:induction false} FilterAll<T>(s: seq<T>, keep: T -> bool)
    requires forall i :: 0 <= i < |s| ==> keep(s[i])
    ensures Filter(s, keep) == s
  {
    if |s| > 0 {
      FilterAll(s[1..], keep);
    }
  }

  lemma {:induction false} FilterDistinct<T>(s: seq<T>, keep: T -> bool)
    requires Distinct(s)
    ensures Distinct(Filter(s, keep))
  {
    if |s| > 0 {
      DistinctTail(s);
      FilterDistinct(s[1..], keep);
      var t := Filter(s[1..], keep);
      if keep(s[0]) {
        DistinctCons(s[0], t);
        assert Filter(s, keep) == [s[0]] + t;
      } else {
        assert Filter(s, keep) == t;
      }
    }
  }

  lemma DistinctCons<T>(x: T, t: seq<T>)
    requires Distinct(t) && x !in t
    ensures Distinct([x] + t)
  {
    var r := [x] + t;
    forall i, j | 0 <= i < j < |r| ensures r[i] != r[j] {
      assert r[j] == t[j - 1];
      if i > 0 {
        assert r[i] == t[i - 1];
      }
    }
  }

  lemma ElemsCons<T>(x: T, t: seq<T>)
    ensures Elems([x] + t) == {x} + Elems(t)
  {
  }

  lemma DistinctTail<T>(s: seq<T>)
    requires Distinct(s) && |s| > 0
    ensures Distinct(s[1..]) && s[0] !in s[1..]
  {
    var t := s[1..];
    forall i, j | 0 <= i < j < |t| ensures t[i] != t[j] {
      assert t[i] == s[i + 1] && t[j] == s[j + 1];
    }
    forall i | 0 <= i < |t| ensures t[i] != s[0] {
      assert t[i] == s[i + 1];
    }
  }

  /** Dropping the members of `out` from a duplicate-free sequence removes exactly as many elements as `out` shares with it. */
  lemma {:induction false} FilterOutCount<T>(s: seq<T>, keep: T -> bool, out: set<T>)
    requires Distinct(s)
    requires forall x :: keep(x) <==> x !in out
    ensures |Filter(s, keep)| + |out * Elems(s)| == |s|
  {
    if |s| == 0 {
      assert out * Elems(s) == {};
    } else {
      var x, t := s[0], s[1..];
      DistinctTail(s);
      assert s == [x] + t;
      FilterOutCount(t, keep, out);
      SharedCons(x, t, out);
      if x in out {
        assert Filter(s, keep) == Filter(t, keep);
      } else {
        assert Filter(s, keep) == [x] + Filter(t, keep);
      }
    }
  }

  /** How the shared part grows when a fresh element is put in front. */
  lemma SharedCons<T>(x: T, t: seq<T>, out: set<T>)
    requires x !in t
    ensures |out * Elems([x] + t)| == |out * Elems(t)| + (if x in out then 1 else 0)
  {
    ElemsCons(x, t);
    if x in out {
      assert out * Elems([x] + t) == out * Elems(t) + {x};
    } else {
      assert out * Elems([x] + t) == out * Elems(t);
    }
  }

  /** Removing one position keeps the others in order. */
  function RemoveAt<T>(s: seq<T>, i: nat): (r: seq<T>)
    requires i < |s|
    ensures |r| == |s| - 1
    ensures forall j :: 0 <= j < i ==> r[j] == s[j]
    ensures forall j :: i <= j < |r| ==> r[j] == s[j + 1]
  {
    s[..i] + s[i + 1..]
  }

  /** `key` strictly increases along `s`. */
  predicate Ascending<T>(s: seq<T>, key: T -> int) {
    forall i, j :: 0 <= i < j < |s| ==> key(s[i]) < key(s[j])
  }

  lemma AscendingDistinct<T>(s: seq<T>, key: T -> int)
    requires Ascending(s, key)
    ensures Distinct(s)
  {
  }

  /** Filtering keeps the survivors in their original relative order. */
  lemma {:induction false} FilterAscending<T>(s: seq<T>, keep: T -> bool, key: T -> int)
    requires Ascending(s, key)
    ensures Ascending(Filter(s, keep), key)
  {
    if |s| > 0 {
      var t := s[1..];
      AscendingTail(s, key);
      FilterAscending(t, keep, key);
      var f := Filter(t, keep);
      if keep(s[0]) {
        AscendingHead(s, key);
        assert forall j :: 0 <= j < |f| ==> f[j] in t;
        AscendingCons(s[0], f, key);
        assert Filter(s, keep) == [s[0]] + f;
      } else {
        assert Filter(s, keep) == f;
      }
    }
  }

  lemma AscendingTail<T>(s: seq<T>, key: T -> int)
    requires Ascending(s, key) && |s| > 0
    ensures Ascending(s[1..], key)
  {
    var t := s[1..];
    forall i, j | 0 <= i < j < |t| ensures key(t[i]) < key(t[j]) {
      assert t[i] == s[i + 1] && t[j] == s[j + 1];
    }
  }

  lemma AscendingHead<T>(s: seq<T>, key: T -> int)
    requires Ascending(s, key) && |s| > 0
    ensures forall x :: x in s[1..] ==> key(s[0]) < key(x)
  {
    forall x | x in s[1..] ensures key(s[0]) < key(x) {
      var m :| 0 <= m < |s[1..]| && s[1..][m] == x;
      assert s[1..][m] == s[m + 1];
    }
  }

  lemma AscendingCons<T>(x: T, f: seq<T>, key: T -> int)
    requires Ascending(f, key)
    requires forall j :: 0 <= j < |f| ==> key(x) < key(f[j])
    ensures Ascending([x] + f, key)
  {
    var r := [x] + f;
    forall i, j | 0 <= i < j < |r| ensures key(r[i]) < key(r[j]) {
      assert r[j] == f[j - 1];
      if i > 0 {
        assert r[i] == f[i - 1];
      }
    }
  }

  /** Two tests that agree on every element filter alike. */
  lemma {:induction false} FilterAgree<T>(s: seq<T>, k1: T -> bool, k2: T -> bool)
    requires forall i :: 0 <= i < |s| ==> k1(s[i]) == k2(s[i])
    ensures Filter(s, k1) == Filter(s, k2)
  {
    if |s| > 0 {
      FilterAgree(s[1..], k1, k2);
    }
  }

  /** Membership in a filtered sequence. */
  lemma FilterMember<T>(s: seq<T>, keep: T -> bool, x: T)
    ensures x in Filter(s, keep) <==> x in s && keep(x)
  {
    if x in s && keep(x) {
      var i :| 0 <= i < |s| && s[i] == x;
    }
  }

  /** Filtering three parts, the first two with a test that agrees on them with the third's test, is filtering the whole with the third's. */
  lemma FilterThreeParts<T>(a: seq<T>, b: seq<T>, c: seq<T>, k1: T -> bool, k2: T -> bool)
    requires forall i :: 0 <= i < |a| ==> k1(a[i]) == k2(a[i])
    requires forall i :: 0 <= i < |b| ==> k1(b[i]) == k2(b[i])
    ensures Filter(a, k1) + Filter(b, k1) + Filter(c, k2) == Filter(a + b + c, k2)
  {
    FilterAppend(a + b, c, k2);
    FilterAppend(a, b, k2);
    FilterAgree(a, k1, k2);
    FilterAgree(b, k1, k2);
  }

  /** The first two parts of a concatenation of three, recovered by slicing. */
  lemma ConcatParts<T>(a: seq<T>, b: seq<T>, c: seq<T>)
    ensures |a + b + c| == |a| + |b| + |c|
    ensures (a + b + c)[..|a|] == a && (a + b + c)[|a|..|a| + |b|] == b
  {
  }

  /** Updating the appended element of `a + [x]` is appending the new one. */
  lemma SnocUpdate<T>(a: seq<T>, x: T, y: T)
    ensures (a + [x])[|a| := y] == a + [y]
  {
  }

  /** A second update at the same position overrides the first. */
  lemma UpdateTwice<T>(s: seq<T>, i: nat, x: T, y: T)
    requires i < |s|
    ensures s[i := x][i := y] == s[i := y]
  {
  }

  /** An element before position `k` lies in the prefix of length `k`. */
  lemma InPrefix<T>(s: seq<T>, k: nat, i: nat)
    ensures i < k <= |s| ==> s[i] in s[..k]
  {
    if i < k <= |s| {
      assert s[..k][i] == s[i];
    }
  }

  /** Appending the head of `s` and then its tail is appending `s`. */
  lemma AppendHeadTail<T>(a: seq<T>, s: seq<T>)
    requires |s| > 0
    ensures (a + [s[0]]) + s[1..] == a + s
  {
  }

  /** Filtering twice is filtering once with both tests. */
  lemma {:induction false} FilterFilter<T>(s: seq<T>, a: T -> bool, b: T -> bool, c: T -> bool)
    requires forall i :: 0 <= i < |s| ==> c(s[i]) == (a(s[i]) && b(s[i]))
    ensures Filter(Filter(s, a), b) == Filter(s, c)
  {
    if |s| > 0 {
      FilterFilter(s[1..], a, b, c);
      var t := Filter(s[1..], a);
      if a(s[0]) {
        assert Filter(s, a) == [s[0]] + t;
        assert ([s[0]] + t)[1..] == t;
      } else {
        assert Filter(s, a) == t;
      }
    }
  }

  /**
   * A test stronger than another on `s` keeps at most as many elements, and exactly as
   * many when the two agree on `s`.
   */
  lemma {:induction false} FilterSubCount<T>(s: seq<T>, p: T -> bool, q: T -> bool)
    requires forall i :: 0 <= i < |s| && p(s[i]) ==> q(s[i])
    ensures |Filter(s, p)| <= |Filter(s, q)|
    ensures |Filter(s, p)| == |Filter(s, q)| <==> forall i :: 0 <= i < |s| && q(s[i]) ==> p(s[i])
  {
    if |s| > 0 {
      var t := s[1..];
      FilterSubCount(t, p, q);
      assert forall i :: 1 <= i < |s| ==> s[i] == t[i - 1];
      if forall i :: 0 <= i < |s| && q(s[i]) ==> p(s[i]) {
        assert forall i :: 0 <= i < |t| && q(t[i]) ==> p(t[i]) by {
          forall i | 0 <= i < |t| && q(t[i]) ensures p(t[i]) {
            assert t[i] == s[i + 1];
          }
        }
      }
    }
  }

  /** A filter keeps something exactly when some element passes the test. */
  lemma FilterNonEmpty<T>(s: seq<T>, keep: T -> bool)
    ensures |Filter(s, keep)| > 0 <==> exists i :: 0 <= i < |s| && keep(s[i])
  {
    var r := Filter(s, keep);
    if |r| > 0 {
      assert r[0] in s && keep(r[0]);
    }
  }

  /** Filtering a non-empty sequence looks at its head, then filters the rest. */
  lemma FilterHead<T>(s: seq<T>, keep: T -> bool)
    requires |s| > 0
    ensures Filter(s, keep) == (if keep(s[0]) then [s[0]] else []) + Filter(s[1..], keep)
  {
  }

  lemma ConcatAssoc<T>(a: seq<T>, b: seq<T>, c: seq<T>)
    ensures (a + b) + c == a + (b + c)
  {
  }

  /**
   * Filtering by `m`, then `l`, then `u` keeps something, and as much as filtering by
   * `u` alone, exactly when some element passes `u` and every one that does passes `m`
   * and `l` too.
   */
  lemma FilterThreeAgree<T>(s: seq<T>, m: T -> bool, l: T -> bool, u: T -> bool, ml: T -> bool, mlu: T -> bool)
    requires forall i :: 0 <= i < |s| ==> ml(s[i]) == (m(s[i]) && l(s[i]))
    requires forall i :: 0 <= i < |s| ==> mlu(s[i]) == (ml(s[i]) && u(s[i]))
    ensures var c := |Filter(Filter(Filter(s, m), l), u)|;
      (c > 0 && c == |Filter(s, u)|) <==>
        (exists i :: 0 <= i < |s| && u(s[i])) && forall i :: 0 <= i < |s| && u(s[i]) ==> m(s[i]) && l(s[i])
  {
    FilterFilter(s, m, l, ml);
    FilterFilter(s, ml, u, mlu);
    FilterSubCount(s, mlu, u);
    FilterNonEmpty(s, u);
    FilterNonEmpty(s, mlu);
  }

  /** The position of the first element whose `key` is `k`, or `None` when there is none. */
  function FirstIndex<T, K(==)>(s: seq<T>, key: T -> K, k: K): (r: Option<nat>)
    ensures r.Some? ==> r.value < |s| && key(s[r.value]) == k
    ensures r.Some? ==> forall j :: 0 <= j < r.value ==> key(s[j]) != k
    ensures r.None? ==> forall j :: 0 <= j < |s| ==> key(s[j]) != k
  {
    if |s| == 0 then None
    else if key(s[0]) == k then Some(0)
    else match FirstIndex(s[1..], key, k)
      case None => None
      case Some(i) => Some(i + 1)
  }
}
