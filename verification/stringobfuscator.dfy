/**
 * `StringObfuscator`: the pool of short replacement names and the two id sets that
 * record which resources were replaced or whitelisted.
 */
module StringObfuscator {
  import opened Wrappers
  import opened Seqs
  import opened Utils

  const AToZ: string := "abcdefghijklmnopqrstuvwxyz"
  const AToAll: string := "0123456789_abcdefghijklmnopqrstuvwxyz"

  /** Three-letter names that Windows refuses as file names. */
  const FileNameBlacklist: set<string> := {"con", "prn", "aux", "nul"}

  /** `AToZ[i]`, computed from its position. */
  function Letter(i: nat): char
    requires i < 26
  {
    ('a' as int + i) as char
  }

  /** `AToAll[i]`, computed from its position. */
  function Symbol(i: nat): char
    requires i < 37
  {
    if i < 10 then ('0' as int + i) as char
    else if i == 10 then '_'
    else ('a' as int + i - 11) as char
  }

  /** The candidates in the order of the three generating loops of `reset`. */
  function Singles(): seq<string> {
    seq(26, i requires 0 <= i < 26 => [Letter(i)])
  }

  function Pairs(): seq<string> {
    seq(962, k requires 0 <= k < 962 => [Letter(k / 37), Symbol(k % 37)])
  }

  function Triples(): seq<string> {
    seq(35594, k requires 0 <= k < 35594 => [Letter(k / 1369), Symbol(k / 37 % 37), Symbol(k % 37)])
  }

  function Candidates(): seq<string> {
    Singles() + Pairs() + Triples()
  }

  datatype Obfuscator = Obfuscator(pool: seq<string>, replaced: set<int>, whitelist: set<int>)

  // ---------------------------------------------------------------------------
  // An independent description of the names and their order
  // ---------------------------------------------------------------------------

  predicate IsLower(c: char) {
    'a' <= c <= 'z'
  }

  predicate IsNameChar(c: char) {
    ('0' <= c <= '9') || c == '_' || IsLower(c)
  }

  /** One to three characters, a lower-case letter first, then digits, `_` or lower-case letters. */
  predicate WellFormedName(x: string) {
    1 <= |x| <= 3 && IsLower(x[0]) && forall j :: 1 <= j < |x| ==> IsNameChar(x[j])
  }

  function LetterIndex(c: char): nat
    requires IsLower(c)
  {
    c as int - 'a' as int
  }

  /** Position in `0-9`, `_`, `a-z`. */
  function SymbolIndex(c: char): nat
    requires IsNameChar(c)
  {
    if '0' <= c <= '9' then c as int - '0' as int
    else if c == '_' then 10
    else c as int - 'a' as int + 11
  }

  /** The rank of a name: shorter names first, then by the alphabet positions of its characters. */
  function Rank(x: string): int {
    if !WellFormedName(x) then -1
    else if |x| == 1 then LetterIndex(x[0])
    else if |x| == 2 then 26 + LetterIndex(x[0]) * 37 + SymbolIndex(x[1])
    else 988 + LetterIndex(x[0]) * 1369 + SymbolIndex(x[1]) * 37 + SymbolIndex(x[2])
  }

  /** The two alphabet strings of `reset` spelled out position by position. */
  lemma Alphabets()
    ensures |AToZ| == 26 && forall i :: 0 <= i < 26 ==> AToZ[i] == Letter(i)
    ensures |AToAll| == 37 && forall i :: 0 <= i < 37 ==> AToAll[i] == Symbol(i)
  {
  }

  lemma LetterRoundTrip(i: nat)
    requires i < 26
    ensures IsLower(Letter(i)) && LetterIndex(Letter(i)) == i
  {
  }

  lemma SymbolRoundTrip(i: nat)
    requires i < 37
    ensures IsNameChar(Symbol(i)) && SymbolIndex(Symbol(i)) == i
  {
  }

  lemma LetterOfIndex(c: char)
    requires IsLower(c)
    ensures LetterIndex(c) < 26 && Letter(LetterIndex(c)) == c
  {
  }

  lemma SymbolOfIndex(c: char)
    requires IsNameChar(c)
    ensures SymbolIndex(c) < 37 && Symbol(SymbolIndex(c)) == c
  {
  }

  lemma TripleDigits(k: nat)
    requires k < 35594
    ensures k / 1369 < 26 && k / 37 % 37 < 37 && k % 37 < 37
    ensures k == k / 1369 * 1369 + k / 37 % 37 * 37 + k % 37
  {
    var q := k / 37;
    assert k == q * 37 + k % 37;
    assert q == q / 37 * 37 + q % 37;
    assert q / 37 == k / 1369;
  }

  lemma TripleOfDigits(a: nat, b: nat, c: nat)
    requires a < 26 && b < 37 && c < 37
    ensures var k := a * 1369 + b * 37 + c; k < 35594 && k / 1369 == a && k / 37 % 37 == b && k % 37 == c
  {
    var k := a * 1369 + b * 37 + c;
    assert k / 37 == a * 37 + b;
    assert (a * 37 + b) % 37 == b;
  }

  /** Position `i` of `s` holds a well-formed name of rank `off + i`. */
  predicate RankedFrom(s: seq<string>, off: int) {
    forall i :: 0 <= i < |s| ==> WellFormedName(s[i]) && Rank(s[i]) == off + i
  }

  /** The one-letter candidate `k` has rank `k`. */
  lemma SingleRank(k: nat)
    requires k < 26
    ensures |Singles()[k]| == 1 && WellFormedName(Singles()[k]) && Rank(Singles()[k]) == k
  {
    assert Singles()[k] == [Letter(k)];
    LetterRoundTrip(k);
  }

  /** The two-character candidate `k` has rank `26 + k`. */
  lemma PairRank(k: nat)
    requires k < 962
    ensures |Pairs()[k]| == 2 && WellFormedName(Pairs()[k]) && Rank(Pairs()[k]) == 26 + k
  {
    assert Pairs()[k] == [Letter(k / 37), Symbol(k % 37)];
    LetterRoundTrip(k / 37);
    SymbolRoundTrip(k % 37);
  }

  /** The three-character candidate `k` has rank `988 + k`. */
  lemma TripleRank(k: nat)
    requires k < 35594
    ensures |Triples()[k]| == 3 && WellFormedName(Triples()[k]) && Rank(Triples()[k]) == 988 + k
  {
    assert Triples()[k] == [Letter(k / 1369), Symbol(k / 37 % 37), Symbol(k % 37)];
    TripleDigits(k);
    LetterRoundTrip(k / 1369);
    SymbolRoundTrip(k / 37 % 37);
    SymbolRoundTrip(k % 37);
  }

  lemma SinglesRanked()
    ensures |Singles()| == 26 && RankedFrom(Singles(), 0)
  {
    forall i | 0 <= i < |Singles()| ensures WellFormedName(Singles()[i]) && Rank(Singles()[i]) == i {
      SingleRank(i);
    }
  }

  lemma PairsRanked()
    ensures |Pairs()| == 962 && RankedFrom(Pairs(), 26)
  {
    forall i | 0 <= i < |Pairs()| ensures WellFormedName(Pairs()[i]) && Rank(Pairs()[i]) == 26 + i {
      PairRank(i);
    }
  }

  lemma TriplesRanked()
    ensures |Triples()| == 35594 && RankedFrom(Triples(), 988)
  {
    forall i | 0 <= i < |Triples()| ensures WellFormedName(Triples()[i]) && Rank(Triples()[i]) == 988 + i {
      TripleRank(i);
    }
  }

  lemma RankedConcat(a: seq<string>, b: seq<string>, off: int)
    requires RankedFrom(a, off) && RankedFrom(b, off + |a|)
    ensures RankedFrom(a + b, off)
  {
    forall i | 0 <= i < |a + b| ensures WellFormedName((a + b)[i]) && Rank((a + b)[i]) == off + i {
      if i < |a| {
        assert (a + b)[i] == a[i];
      } else {
        assert (a + b)[i] == b[i - |a|];
      }
    }
  }

  lemma RankedAscending(s: seq<string>, off: int)
    requires RankedFrom(s, off)
    ensures Ascending(s, Rank)
  {
  }

  lemma CandidatesRanked()
    ensures RankedFrom(Candidates(), 0)
  {
    SinglesRanked();
    PairsRanked();
    TriplesRanked();
    RankedConcat(Singles(), Pairs(), 0);
    RankedConcat(Singles() + Pairs(), Triples(), 0);
  }

  /** The candidate at position `i` is a well-formed name of rank `i`. */
  lemma CandidateRank(i: nat)
    requires i < |Candidates()|
    ensures WellFormedName(Candidates()[i]) && Rank(Candidates()[i]) == i
  {
    CandidatesRanked();
  }

  lemma CandidatesAscending()
    ensures Ascending(Candidates(), Rank)
  {
    CandidatesRanked();
    RankedAscending(Candidates(), 0);
  }

  lemma OneChar(x: string)
    requires |x| == 1
    ensures x == [x[0]]
  {
  }

  lemma TwoChars(x: string)
    requires |x| == 2
    ensures x == [x[0], x[1]]
  {
  }

  lemma ThreeChars(x: string)
    requires |x| == 3
    ensures x == [x[0], x[1], x[2]]
  {
  }

  /** A well-formed one-letter name sits in the one-letter candidates at its rank. */
  lemma RankSingle(x: string)
    requires WellFormedName(x) && |x| == 1
    ensures Rank(x) < 26 && Singles()[Rank(x)] == x
  {
    LetterOfIndex(x[0]);
    OneChar(x);
  }

  /** A well-formed two-character name sits in the two-character candidates at its rank less 26. */
  lemma RankPair(x: string)
    requires WellFormedName(x) && |x| == 2
    ensures 26 <= Rank(x) < 988 && Pairs()[Rank(x) - 26] == x
  {
    LetterOfIndex(x[0]);
    SymbolOfIndex(x[1]);
    var a, b := LetterIndex(x[0]), SymbolIndex(x[1]);
    var k := a * 37 + b;
    assert k / 37 == a && k % 37 == b;
    assert Rank(x) - 26 == k;
    assert Pairs()[k] == [Letter(a), Symbol(b)];
    TwoChars(x);
  }

  /** A well-formed three-character name sits in the three-character candidates at its rank less 988. */
  lemma RankTriple(x: string)
    requires WellFormedName(x) && |x| == 3
    ensures 988 <= Rank(x) < 36582 && Triples()[Rank(x) - 988] == x
  {
    LetterOfIndex(x[0]);
    SymbolOfIndex(x[1]);
    SymbolOfIndex(x[2]);
    var a, b, c := LetterIndex(x[0]), SymbolIndex(x[1]), SymbolIndex(x[2]);
    TripleOfDigits(a, b, c);
    var k := a * 1369 + b * 37 + c;
    assert Rank(x) - 988 == k;
    assert Triples()[k] == [Letter(a), Symbol(b), Symbol(c)];
    ThreeChars(x);
  }

  lemma SinglesExactly(x: string)
    ensures x in Singles() <==> WellFormedName(x) && |x| == 1
  {
    if x in Singles() {
      var i :| 0 <= i < |Singles()| && Singles()[i] == x;
      SingleRank(i);
    }
    if WellFormedName(x) && |x| == 1 {
      RankSingle(x);
    }
  }

  lemma PairsExactly(x: string)
    ensures x in Pairs() <==> WellFormedName(x) && |x| == 2
  {
    if x in Pairs() {
      var i :| 0 <= i < |Pairs()| && Pairs()[i] == x;
      PairRank(i);
    }
    if WellFormedName(x) && |x| == 2 {
      RankPair(x);
    }
  }

  lemma TriplesExactly(x: string)
    ensures x in Triples() <==> WellFormedName(x) && |x| == 3
  {
    if x in Triples() {
      var i :| 0 <= i < |Triples()| && Triples()[i] == x;
      TripleRank(i);
    }
    if WellFormedName(x) && |x| == 3 {
      RankTriple(x);
    }
  }

  /** The candidates are exactly the well-formed names. */
  lemma CandidatesExactly(x: string)
    ensures x in Candidates() <==> WellFormedName(x)
  {
    SinglesExactly(x);
    PairsExactly(x);
    TriplesExactly(x);
  }

  // ---------------------------------------------------------------------------
  // reset
  // ---------------------------------------------------------------------------

  /** The test applied to one- and two-character names: no blacklist pattern matches. */
  function Admit(blacklist: Option<seq<string>>): string -> bool
    requires SupportedRules(blacklist)
  {
    x => Match(x, blacklist)
  }

  /** Three-character names must in addition not be a reserved file name. */
  function AdmitLong(blacklist: Option<seq<string>>): string -> bool
    requires SupportedRules(blacklist)
  {
    x => x !in FileNameBlacklist && Match(x, blacklist)
  }

  /** The pool `reset` builds: one-, two- and three-character names, in that order, each admitted by its test. */
  function ResetPool(blacklist: Option<seq<string>>): seq<string>
    requires SupportedRules(blacklist)
  {
    Filter(Singles(), Admit(blacklist)) + Filter(Pairs(), Admit(blacklist)) + Filter(Triples(), AdmitLong(blacklist))
  }

  /** `reset(blacklistPatterns)`: clears both id sets and refills the pool. */
  function Reset(blacklist: Option<seq<string>>): (o: Obfuscator)
    requires SupportedRules(blacklist)
    ensures o.replaced == {} && o.whitelist == {}
    ensures forall x :: x in o.pool <==> WellFormedName(x) && x !in FileNameBlacklist && Match(x, blacklist)
    ensures Ascending(o.pool, Rank) && Distinct(o.pool)
  {
    ResetPoolMembers(blacklist);
    ResetPoolOrder(blacklist);
    Obfuscator(ResetPool(blacklist), {}, {})
  }

  /** The pool holds exactly the admitted well-formed names. */
  lemma ResetPoolMembers(blacklist: Option<seq<string>>)
    requires SupportedRules(blacklist)
    ensures forall x :: x in ResetPool(blacklist) <==> WellFormedName(x) && x !in FileNameBlacklist && Match(x, blacklist)
  {
    SinglesAll();
    PairsAll();
    TriplesAll();
    LengthsMembers(Singles(), Pairs(), Triples(), ResetPool(blacklist), blacklist);
  }

  lemma SinglesAll()
    ensures forall x :: x in Singles() <==> WellFormedName(x) && |x| == 1
  {
    forall x ensures x in Singles() <==> WellFormedName(x) && |x| == 1 {
      SinglesExactly(x);
    }
  }

  lemma PairsAll()
    ensures forall x :: x in Pairs() <==> WellFormedName(x) && |x| == 2
  {
    forall x ensures x in Pairs() <==> WellFormedName(x) && |x| == 2 {
      PairsExactly(x);
    }
  }

  lemma TriplesAll()
    ensures forall x :: x in Triples() <==> WellFormedName(x) && |x| == 3
  {
    forall x ensures x in Triples() <==> WellFormedName(x) && |x| == 3 {
      TriplesExactly(x);
    }
  }

  /** Filtering the names of each length with its test leaves exactly the admitted well-formed names. */
  lemma LengthsMembers(s: seq<string>, p: seq<string>, t: seq<string>, pool: seq<string>, blacklist: Option<seq<string>>)
    requires SupportedRules(blacklist)
    requires pool == Filter(s, Admit(blacklist)) + Filter(p, Admit(blacklist)) + Filter(t, AdmitLong(blacklist))
    requires forall x :: x in s <==> WellFormedName(x) && |x| == 1
    requires forall x :: x in p <==> WellFormedName(x) && |x| == 2
    requires forall x :: x in t <==> WellFormedName(x) && |x| == 3
    ensures forall x :: x in pool <==> WellFormedName(x) && x !in FileNameBlacklist && Match(x, blacklist)
  {
    forall x ensures x in pool <==> WellFormedName(x) && x !in FileNameBlacklist && Match(x, blacklist)
    {
      FilterMember(s, Admit(blacklist), x);
      FilterMember(p, Admit(blacklist), x);
      FilterMember(t, AdmitLong(blacklist), x);
      if |x| < 3 {
        ShortAdmit(blacklist, x);
      }
    }
  }

  /** The pool is ordered by rank, hence free of duplicates. */
  lemma ResetPoolOrder(blacklist: Option<seq<string>>)
    requires SupportedRules(blacklist)
    ensures Ascending(ResetPool(blacklist), Rank) && Distinct(ResetPool(blacklist))
  {
    var keep := AdmitLong(blacklist);
    ResetIsFilter(blacklist);
    CandidatesAscending();
    FilterAscending(Candidates(), keep, Rank);
    AscendingDistinct(Filter(Candidates(), keep), Rank);
  }

  /** Names shorter than three characters are never reserved, so the two tests agree on them. */
  lemma ShortAdmit(blacklist: Option<seq<string>>, x: string)
    requires SupportedRules(blacklist) && |x| < 3
    ensures Admit(blacklist)(x) == AdmitLong(blacklist)(x)
  {
  }

  lemma SinglesAdmit(blacklist: Option<seq<string>>)
    requires SupportedRules(blacklist)
    ensures forall i :: 0 <= i < |Singles()| ==> Admit(blacklist)(Singles()[i]) == AdmitLong(blacklist)(Singles()[i])
  {
    forall i | 0 <= i < |Singles()| ensures Admit(blacklist)(Singles()[i]) == AdmitLong(blacklist)(Singles()[i]) {
      SingleRank(i);
      ShortAdmit(blacklist, Singles()[i]);
    }
  }

  lemma PairsAdmit(blacklist: Option<seq<string>>)
    requires SupportedRules(blacklist)
    ensures forall i :: 0 <= i < |Pairs()| ==> Admit(blacklist)(Pairs()[i]) == AdmitLong(blacklist)(Pairs()[i])
  {
    forall i | 0 <= i < |Pairs()| ensures Admit(blacklist)(Pairs()[i]) == AdmitLong(blacklist)(Pairs()[i]) {
      PairRank(i);
      ShortAdmit(blacklist, Pairs()[i]);
    }
  }

  /** The three loops together filter the candidate list with the three-character test. */
  lemma ResetIsFilter(blacklist: Option<seq<string>>)
    requires SupportedRules(blacklist)
    ensures ResetPool(blacklist) == Filter(Candidates(), AdmitLong(blacklist))
  {
    SinglesAdmit(blacklist);
    PairsAdmit(blacklist);
    FilterThreeParts(Singles(), Pairs(), Triples(), Admit(blacklist), AdmitLong(blacklist));
  }

  /** Each reserved file name is among the three-character candidates. */
  lemma ReservedAreTriples()
    ensures FileNameBlacklist <= Elems(Triples())
  {
    forall x | x in FileNameBlacklist ensures x in Elems(Triples()) {
      TriplesExactly(x);
    }
  }

  lemma BlacklistSize()
    ensures |FileNameBlacklist| == 4
  {
  }

  lemma TriplesDistinct()
    ensures Distinct(Triples())
  {
    forall i, j | 0 <= i < j < |Triples()| ensures Triples()[i] != Triples()[j] {
      TripleRank(i);
      TripleRank(j);
    }
  }

  lemma AdmitNone()
    ensures forall x :: Admit(None)(x)
    ensures forall x :: AdmitLong(None)(x) <==> x !in FileNameBlacklist
  {
  }

  /** The reserved names are exactly the ones the three-character candidates share with the blacklist. */
  lemma ReservedShared()
    ensures |FileNameBlacklist * Elems(Triples())| == 4
  {
    ReservedAreTriples();
    BlacklistSize();
    assert FileNameBlacklist * Elems(Triples()) == FileNameBlacklist;
  }

  /** Without a blacklist four of the three-character names are dropped: the reserved ones. */
  lemma TriplesWithoutBlacklist()
    ensures |Filter(Triples(), AdmitLong(None))| == 35590
  {
    TriplesDistinct();
    AdmitNone();
    FilterOutCount(Triples(), AdmitLong(None), FileNameBlacklist);
    ReservedShared();
  }

  lemma SinglesWithoutBlacklist()
    ensures Filter(Singles(), Admit(None)) == Singles()
  {
    AdmitNone();
    FilterAll(Singles(), Admit(None));
  }

  lemma PairsWithoutBlacklist()
    ensures Filter(Pairs(), Admit(None)) == Pairs()
  {
    AdmitNone();
    FilterAll(Pairs(), Admit(None));
  }

  lemma FirstNames()
    ensures Singles()[0] == "a" && Pairs()[0] == "a0" && Pairs()[1] == "a1"
  {
    assert Singles()[0] == [Letter(0)];
    assert Pairs()[0] == [Letter(0), Symbol(0)];
    assert Pairs()[1] == [Letter(0), Symbol(1)];
  }

  /**
   * Without a blacklist the pool is all one-letter names, then all two-character names
   * (`a0` first), then the three-character names other than the four reserved ones:
   * 26 + 962 + 35594 - 4 names.
   */
  lemma ResetWithoutBlacklist()
    ensures var p := ResetPool(None);
      |p| == 36578 && p[..26] == Singles() && p[26..988] == Pairs()
  {
    ResetPoolParts();
    PoolShape(Singles(), Pairs(), Filter(Triples(), AdmitLong(None)));
  }

  /** The unfiltered pool starts with "a", and its two-character names with "a0" and "a1". */
  lemma ResetFirstNames()
    ensures var p := ResetPool(None);
      |p| == 36578 && p[0] == "a" && p[26] == "a0" && p[27] == "a1"
  {
    ResetPoolParts();
    FirstNames();
    PoolShape(Singles(), Pairs(), Filter(Triples(), AdmitLong(None)));
  }

  /** The unfiltered pool is the one-letter names, the two-character names, and the admitted triples. */
  lemma ResetPoolParts()
    ensures ResetPool(None) == Singles() + Pairs() + Filter(Triples(), AdmitLong(None))
    ensures |Singles()| == 26 && |Pairs()| == 962 && |Filter(Triples(), AdmitLong(None))| == 35590
  {
    SinglesWithoutBlacklist();
    PairsWithoutBlacklist();
    TriplesWithoutBlacklist();
  }

  /** The positions of the three parts of a pool of 26 single names, 962 pairs and 35590 triples. */
  lemma PoolShape(a: seq<string>, b: seq<string>, c: seq<string>)
    requires |a| == 26 && |b| == 962 && |c| == 35590
    ensures |a + b + c| == 36578 && (a + b + c)[..26] == a && (a + b + c)[26..988] == b
    ensures (a + b + c)[0] == a[0] && (a + b + c)[26] == b[0] && (a + b + c)[27] == b[1]
  {
    ConcatParts(a, b, c);
  }


  // ---------------------------------------------------------------------------
  // removeStrings, getReplaceString, id sets
  // ---------------------------------------------------------------------------

  /** `removeStrings(collection)`: a null collection changes nothing; otherwise every occurrence of its names leaves the pool. */
  function RemoveStrings(o: Obfuscator, collection: Option<set<string>>): (r: Obfuscator)
    ensures collection.None? ==> r == o
    ensures r.replaced == o.replaced && r.whitelist == o.whitelist
    ensures collection.Some? ==> forall x :: x in r.pool <==> x in o.pool && x !in collection.value
    ensures collection.Some? && Distinct(o.pool) ==>
      Distinct(r.pool) && |r.pool| == |o.pool| - |collection.value * Elems(o.pool)|
  {
    if collection.None? then o
    else
      RemovedCount(o.pool, collection.value);
      o.(pool := Without(o.pool, collection.value))
  }

  /** The pool without the names of `c`, in order. */
  function Without(pool: seq<string>, c: set<string>): seq<string> {
    Filter(pool, x => x !in c)
  }

  lemma RemovedCount(pool: seq<string>, c: set<string>)
    ensures forall x :: x in Without(pool, c) <==> x in pool && x !in c
    ensures Distinct(pool) ==>
      Distinct(Without(pool, c)) && |Without(pool, c)| == |pool| - |c * Elems(pool)|
  {
    var keep := x => x !in c;
    assert Without(pool, c) == Filter(pool, keep);
    if Distinct(pool) {
      FilterDistinct(pool, keep);
      FilterOutCount(pool, keep, c);
    }
    forall x | x in pool && x !in c ensures x in Without(pool, c) {
      var i :| 0 <= i < |pool| && pool[i] == x;
    }
  }

  /** The loop of `getReplaceString` from position `from`: the first pool name not in `names`. */
  function FirstFree(pool: seq<string>, names: set<string>, from: nat): (r: Option<nat>)
    decreases |pool| - from
    ensures r.Some? ==> from <= r.value < |pool| && pool[r.value] !in names
    ensures r.Some? ==> forall j :: from <= j < r.value ==> pool[j] in names
    ensures r.None? <==> forall j :: from <= j < |pool| ==> pool[j] in names
  {
    if from >= |pool| then None
    else if pool[from] !in names then Some(from)
    else FirstFree(pool, names, from + 1)
  }

  /** The position `getReplaceString` takes: the first name not in use, or the head when there is none or `names` is null. */
  function ChosenIndex(pool: seq<string>, names: Option<set<string>>): (i: nat)
    requires |pool| > 0
    ensures i < |pool|
    ensures names.Some? && (exists j :: 0 <= j < |pool| && pool[j] !in names.value) ==>
      pool[i] !in names.value && forall j :: 0 <= j < i ==> pool[j] in names.value
    ensures names.None? || (forall j :: 0 <= j < |pool| ==> pool[j] in names.value) ==> i == 0
  {
    if names.None? then 0
    else
      match FirstFree(pool, names.value, 0)
      case Some(i) => i
      case None => 0
  }

  /** `getReplaceString(names)`: fails on an empty pool, otherwise hands out and removes the chosen name. */
  function GetReplaceString(o: Obfuscator, names: Option<set<string>>): (r: Result<(string, Obfuscator)>)
    ensures r.Err? <==> |o.pool| == 0
    ensures r.Err? ==> r.error == IllegalArgument
    ensures r.Ok? ==> r.value.0 == o.pool[ChosenIndex(o.pool, names)]
    ensures r.Ok? ==> r.value.1 == o.(pool := RemoveAt(o.pool, ChosenIndex(o.pool, names)))
  {
    if |o.pool| == 0 then Err(IllegalArgument)
    else
      var i := ChosenIndex(o.pool, names);
      Ok((o.pool[i], o.(pool := RemoveAt(o.pool, i))))
  }

  /**
   * Names handed out by successive calls never repeat: from a duplicate-free pool the
   * returned name is no longer in the remaining pool, which stays duplicate-free and
   * one shorter.
   */
  lemma MintedNameLeavesPool(o: Obfuscator, names: Option<set<string>>)
    requires Distinct(o.pool) && |o.pool| > 0
    ensures var r := GetReplaceString(o, names);
      r.Ok? && r.value.0 !in r.value.1.pool && Distinct(r.value.1.pool) && |r.value.1.pool| == |o.pool| - 1
  {
    var i := ChosenIndex(o.pool, names);
    var rest := RemoveAt(o.pool, i);
    forall j | 0 <= j < |rest| ensures rest[j] != o.pool[i] {
      if j < i { assert rest[j] == o.pool[j]; } else { assert rest[j] == o.pool[j + 1]; }
    }
    forall a, b | 0 <= a < b < |rest| ensures rest[a] != rest[b] {
      var a' := if a < i then a else a + 1;
      var b' := if b < i then b else b + 1;
      assert rest[a] == o.pool[a'] && rest[b] == o.pool[b'];
    }
  }

  /** A name in use is handed out only when every pool name is in use. */
  lemma ReusedOnlyWhenExhausted(o: Obfuscator, names: set<string>)
    requires |o.pool| > 0
    requires GetReplaceString(o, Some(names)).value.0 in names
    ensures forall x :: x in o.pool ==> x in names
  {
    var p := o.pool;
    if exists j :: 0 <= j < |p| && p[j] !in names {
      assert false;
    }
  }

  function IsReplaced(o: Obfuscator, id: int): bool {
    id in o.replaced
  }

  function IsInWhiteList(o: Obfuscator, id: int): bool {
    id in o.whitelist
  }

  /** `setInReplaceList(id)`: afterwards `id` is replaced; no other id and neither the pool nor the whitelist change. */
  function SetInReplaceList(o: Obfuscator, id: int): (r: Obfuscator)
    ensures IsReplaced(r, id)
    ensures forall other :: other != id ==> IsReplaced(r, other) == IsReplaced(o, other)
    ensures r.pool == o.pool && r.whitelist == o.whitelist
  {
    o.(replaced := o.replaced + {id})
  }

  /** `setInWhiteList(id)`: afterwards `id` is whitelisted; nothing else changes. */
  function SetInWhiteList(o: Obfuscator, id: int): (r: Obfuscator)
    ensures IsInWhiteList(r, id)
    ensures forall other :: other != id ==> IsInWhiteList(r, other) == IsInWhiteList(o, other)
    ensures r.pool == o.pool && r.replaced == o.replaced
  {
    o.(whitelist := o.whitelist + {id})
  }

  /** `setInReplaceList` called for each id in turn. */
  function SetAllInReplaceList(o: Obfuscator, ids: seq<int>): (r: Obfuscator)
    ensures r.pool == o.pool && r.whitelist == o.whitelist
    decreases |ids|
  {
    if |ids| == 0 then o else SetAllInReplaceList(SetInReplaceList(o, ids[0]), ids[1..])
  }

  /** `isReplaced(id)` holds after some `setInReplaceList` calls exactly when it held before or one of them added `id`. */
  lemma {:induction false} IsReplacedAfter(o: Obfuscator, ids: seq<int>, id: int)
    ensures IsReplaced(SetAllInReplaceList(o, ids), id) <==> IsReplaced(o, id) || id in ids
    decreases |ids|
  {
    if |ids| > 0 {
      IsReplacedAfter(SetInReplaceList(o, ids[0]), ids[1..], id);
      assert id in ids <==> id == ids[0] || id in ids[1..];
    }
  }

  /** `setInWhiteList` called for each id in turn. */
  function SetAllInWhiteList(o: Obfuscator, ids: seq<int>): (r: Obfuscator)
    ensures r.pool == o.pool && r.replaced == o.replaced
    decreases |ids|
  {
    if |ids| == 0 then o else SetAllInWhiteList(SetInWhiteList(o, ids[0]), ids[1..])
  }

  /** `isInWhiteList(id)` holds after some `setInWhiteList` calls exactly when it held before or one of them added `id`. */
  lemma {:induction false} IsInWhiteListAfter(o: Obfuscator, ids: seq<int>, id: int)
    ensures IsInWhiteList(SetAllInWhiteList(o, ids), id) <==> IsInWhiteList(o, id) || id in ids
    decreases |ids|
  {
    if |ids| > 0 {
      IsInWhiteListAfter(SetInWhiteList(o, ids[0]), ids[1..], id);
      assert id in ids <==> id == ids[0] || id in ids[1..];
    }
  }
}
