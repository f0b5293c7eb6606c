/**
 * `DuplicateResourceMerger`: inside each module, resource files with the same digest
 * are merged. The first file of each digest is kept; every later one is dropped, and
 * the table's file references to a dropped file are sent to the kept one. The digest
 * of an entry's bytes (`getEntryMd5`) is a parameter.
 */
module DuplicateResourceMerger {
  import opened Wrappers
  import opened Seqs
  import opened BundleModel
  import opened ResourceTableOperation
  import opened ResourceTableBuilder

  // ---------------------------------------------------------------------------
  // Which entries survive
  // ---------------------------------------------------------------------------

  /** The digests of the resource files among `es`. */
  function Seen(es: seq<ModuleEntry>, digest: seq<Byte> -> string): set<string>
    decreases |es|
  {
    if |es| == 0 then {}
    else
      var n := |es| - 1;
      Seen(es[..n], digest) + (if IsResFile(es[n]) then {digest(es[n].content)} else {})
  }

  /** `es[i]` is a resource file and no resource file before it has its digest. */
  predicate FirstOfDigest(es: seq<ModuleEntry>, i: nat, digest: seq<Byte> -> string)
    requires i < |es|
  {
    IsResFile(es[i]) && digest(es[i].content) !in Seen(es[..i], digest)
  }

  /** Entries outside "res" always survive; resource files survive when first of their digest. */
  predicate Survives(es: seq<ModuleEntry>, i: nat, digest: seq<Byte> -> string)
    requires i < |es|
  {
    !IsResFile(es[i]) || FirstOfDigest(es, i, digest)
  }

  /** The surviving entries, in their order. */
  function Survivors(es: seq<ModuleEntry>, digest: seq<Byte> -> string): seq<ModuleEntry>
    decreases |es|
  {
    if |es| == 0 then []
    else
      var n := |es| - 1;
      Survivors(es[..n], digest) + (if Survives(es, n, digest) then [es[n]] else [])
  }

  /** No two resource files share a digest. */
  predicate NoDuplicates(es: seq<ModuleEntry>, digest: seq<Byte> -> string) {
    forall i, j :: 0 <= i < j < |es| && IsResFile(es[i]) && IsResFile(es[j]) ==> digest(es[i].content) != digest(es[j].content)
  }

  /** No two entries share a path, as in a module, whose entries are keyed by path. */
  predicate UniquePaths(es: seq<ModuleEntry>) {
    forall i, j :: 0 <= i < j < |es| ==> es[i].path != es[j].path
  }

  predicate NotResFile(e: ModuleEntry) {
    !IsResFile(e)
  }

  /** A prefix of a prefix, and the elements of a prefix. */
  lemma PrefixFacts(es: seq<ModuleEntry>, n: nat)
    requires n <= |es|
    ensures forall j :: 0 <= j < n ==> es[..n][j] == es[j] && es[..n][..j] == es[..j]
    ensures forall x :: x in es[..n] ==> x in es
  {
  }

  /** A non-empty sequence is its prefix and its last element. */
  lemma Snoc(es: seq<ModuleEntry>)
    requires |es| > 0
    ensures var n := |es| - 1;
      es == es[..n] + [es[n]] && es[..n][..n] == es[..n]
      && forall x :: x in es <==> x in es[..n] || x == es[n]
  {
  }

  /** Whether an entry survives depends only on the entries before it. */
  lemma PrefixSurvives(es: seq<ModuleEntry>, n: nat, digest: seq<Byte> -> string)
    requires n <= |es|
    ensures forall j :: 0 <= j < n ==> (FirstOfDigest(es[..n], j, digest) <==> FirstOfDigest(es, j, digest))
    ensures forall j :: 0 <= j < n ==> (Survives(es[..n], j, digest) <==> Survives(es, j, digest))
  {
    PrefixFacts(es, n);
  }

  /** A digest is seen exactly when some resource file has it. */
  lemma {:induction false} SeenMeans(es: seq<ModuleEntry>, digest: seq<Byte> -> string)
    ensures forall x :: x in es && IsResFile(x) ==> digest(x.content) in Seen(es, digest)
    ensures forall h :: h in Seen(es, digest) ==> exists x :: x in es && IsResFile(x) && digest(x.content) == h
    decreases |es|
  {
    if |es| > 0 {
      var n := |es| - 1;
      SeenMeans(es[..n], digest);
      PrefixFacts(es, n);
      assert es == es[..n] + [es[n]];
    }
  }

  /** Every survivor is an entry of the module. */
  lemma {:induction false} SurvivorsIn(es: seq<ModuleEntry>, digest: seq<Byte> -> string)
    ensures forall x :: x in Survivors(es, digest) ==> x in es
    decreases |es|
  {
    if |es| > 0 {
      var n := |es| - 1;
      SurvivorsIn(es[..n], digest);
      PrefixFacts(es, n);
    }
  }

  /** Every entry that survives is among the survivors. */
  lemma {:induction false} SurvivorsContain(es: seq<ModuleEntry>, digest: seq<Byte> -> string)
    ensures forall i :: 0 <= i < |es| && Survives(es, i, digest) ==> es[i] in Survivors(es, digest)
    decreases |es|
  {
    if |es| > 0 {
      var n := |es| - 1;
      SurvivorsContain(es[..n], digest);
      PrefixFacts(es, n);
      PrefixSurvives(es, n, digest);
      forall i | 0 <= i < n && Survives(es, i, digest) ensures es[i] in Survivors(es, digest) {
        assert Survives(es[..n], i, digest);
      }
    }
  }

  /** The entries outside "res" survive, all of them and in their order. */
  lemma {:induction false} SurvivorsKeepOthers(es: seq<ModuleEntry>, digest: seq<Byte> -> string)
    ensures Filter(Survivors(es, digest), NotResFile) == Filter(es, NotResFile)
    decreases |es|
  {
    if |es| > 0 {
      var n := |es| - 1;
      SurvivorsKeepOthers(es[..n], digest);
      SurvivorsOthersSnoc(es, digest);
      Snoc(es);
      FilterAppend(es[..n], [es[n]], NotResFile);
    }
  }

  /** The last entry adds to the survivors outside "res" exactly what it adds to the entries outside "res". */
  lemma SurvivorsOthersSnoc(es: seq<ModuleEntry>, digest: seq<Byte> -> string)
    requires |es| > 0
    ensures var n := |es| - 1;
      Filter(Survivors(es, digest), NotResFile) == Filter(Survivors(es[..n], digest), NotResFile) + Filter([es[n]], NotResFile)
  {
    var n := |es| - 1;
    var tail := if Survives(es, n, digest) then [es[n]] else [];
    FilterAppend(Survivors(es[..n], digest), tail, NotResFile);
    assert Filter(tail, NotResFile) == Filter([es[n]], NotResFile);
  }

  /** Appending a file outside "res", or one whose digest no resource file has, keeps digests apart. */
  lemma NoDuplicatesSnoc(s0: seq<ModuleEntry>, e: ModuleEntry, digest: seq<Byte> -> string)
    requires NoDuplicates(s0, digest)
    requires IsResFile(e) ==> forall x :: x in s0 && IsResFile(x) ==> digest(x.content) != digest(e.content)
    ensures NoDuplicates(s0 + [e], digest)
  {
    var s := s0 + [e];
    forall i, j | 0 <= i < j < |s| && IsResFile(s[i]) && IsResFile(s[j]) ensures digest(s[i].content) != digest(s[j].content) {
      assert s[i] == s0[i];
      if j < |s0| {
        assert s[j] == s0[j];
      } else {
        assert s0[i] in s0;
      }
    }
  }

  /** No two surviving resource files share a digest. */
  lemma {:induction false} SurvivorsDistinct(es: seq<ModuleEntry>, digest: seq<Byte> -> string)
    ensures NoDuplicates(Survivors(es, digest), digest)
    decreases |es|
  {
    if |es| > 0 {
      var n := |es| - 1;
      SurvivorsDistinct(es[..n], digest);
      if Survives(es, n, digest) {
        SurvivorsIn(es[..n], digest);
        SeenMeans(es[..n], digest);
        Snoc(es);
        NoDuplicatesSnoc(Survivors(es[..n], digest), es[n], digest);
      }
    }
  }

  /** Every resource file has a surviving resource file with its digest. */
  lemma {:induction false} SurvivorsCover(es: seq<ModuleEntry>, digest: seq<Byte> -> string)
    ensures forall x :: x in es && IsResFile(x) ==>
      exists y :: y in Survivors(es, digest) && IsResFile(y) && digest(y.content) == digest(x.content)
    decreases |es|
  {
    if |es| > 0 {
      var n := |es| - 1;
      var s0 := Survivors(es[..n], digest);
      var s := Survivors(es, digest);
      SurvivorsCover(es[..n], digest);
      Snoc(es);
      assert forall y :: y in s0 ==> y in s;
      if IsResFile(es[n]) {
        if Survives(es, n, digest) {
          assert es[n] in s;
        } else {
          SeenMeans(es[..n], digest);
          var z :| z in es[..n] && IsResFile(z) && digest(z.content) == digest(es[n].content);
          var y :| y in s0 && IsResFile(y) && digest(y.content) == digest(z.content);
        }
      }
    }
  }

  /** Without duplicated digests every entry survives. */
  lemma {:induction false} SurvivorsAll(es: seq<ModuleEntry>, digest: seq<Byte> -> string)
    requires NoDuplicates(es, digest)
    ensures Survivors(es, digest) == es
    decreases |es|
  {
    if |es| > 0 {
      var n := |es| - 1;
      assert NoDuplicates(es[..n], digest);
      SurvivorsAll(es[..n], digest);
      Snoc(es);
      LastUnseen(es, digest);
    }
  }

  /** Without duplicated digests the last entry's digest is not seen before it. */
  lemma LastUnseen(es: seq<ModuleEntry>, digest: seq<Byte> -> string)
    requires NoDuplicates(es, digest) && |es| > 0
    ensures IsResFile(es[|es| - 1]) ==> digest(es[|es| - 1].content) !in Seen(es[..|es| - 1], digest)
  {
    var n := |es| - 1;
    SeenMeans(es[..n], digest);
    forall x | x in es[..n] && IsResFile(x) ensures IsResFile(es[n]) ==> digest(x.content) != digest(es[n].content) {
      var j :| 0 <= j < n && es[..n][j] == x;
      assert es[j] == x;
    }
  }

  // ---------------------------------------------------------------------------
  // The scan of `mergeBundleModule`
  // ---------------------------------------------------------------------------

  /**
   * The scan's state: `md5FileList` (digest to the first path seen with it),
   * `duplicatedFileList` (dropped path to its digest) and the entries kept so far.
   */
  datatype Scan = Scan(firsts: map<string, ZipPath>, dups: map<ZipPath, string>, kept: seq<ModuleEntry>)

  /**
   * One entry of the loop: kept when outside "res"; otherwise dropped and recorded
   * when its digest was seen before, else kept and its path recorded for the digest.
   */
  function ScanStep(s: Scan, e: ModuleEntry, digest: seq<Byte> -> string): (r: Scan)
    ensures |r.kept| <= |s.kept| + 1
  {
    if !IsResFile(e) then s.(kept := s.kept + [e])
    else
      var h := digest(e.content);
      if h in s.firsts then s.(dups := s.dups[e.path := h])
      else Scan(s.firsts[h := e.path], s.dups, s.kept + [e])
  }

  /** The loop over the entries, from cleared maps. */
  function ScanEntries(es: seq<ModuleEntry>, digest: seq<Byte> -> string): (r: Scan)
    ensures |r.kept| <= |es|
    decreases |es|
  {
    if |es| == 0 then Scan(map[], map[], [])
    else
      var n := |es| - 1;
      ScanStep(ScanEntries(es[..n], digest), es[n], digest)
  }

  /** Each dropped path's digest has a recorded path. */
  predicate Linked(s: Scan) {
    forall p :: p in s.dups ==> s.dups[p] in s.firsts
  }

  /** The path recorded for each digest is that of a kept resource file with the digest. */
  predicate Witnessed(s: Scan, digest: seq<Byte> -> string) {
    forall h :: h in s.firsts ==> exists x :: x in s.kept && IsResFile(x) && x.path == s.firsts[h] && digest(x.content) == h
  }

  /** One step records the entry's digest if it is a resource file, and keeps the scan linked and witnessed. */
  lemma StepFirsts(s0: Scan, e: ModuleEntry, digest: seq<Byte> -> string)
    requires Linked(s0) && Witnessed(s0, digest)
    ensures var s := ScanStep(s0, e, digest);
      s.firsts.Keys == s0.firsts.Keys + (if IsResFile(e) then {digest(e.content)} else {})
      && Linked(s) && Witnessed(s, digest)
  {
    if !IsResFile(e) {
      KeepWitnessed(s0, s0.firsts, e, digest);
    } else if digest(e.content) in s0.firsts {
      assert ScanStep(s0, e, digest) == s0.(dups := s0.dups[e.path := digest(e.content)]);
    } else {
      var h := digest(e.content);
      KeepWitnessed(s0, s0.firsts[h := e.path], e, digest);
    }
  }

  /** Keeping one more entry, and recording its path if it is a resource file new in digest, keeps the scan witnessed. */
  lemma KeepWitnessed(s0: Scan, firsts: map<string, ZipPath>, e: ModuleEntry, digest: seq<Byte> -> string)
    requires Witnessed(s0, digest)
    requires firsts == s0.firsts || (IsResFile(e) && firsts == s0.firsts[digest(e.content) := e.path])
    ensures Witnessed(Scan(firsts, s0.dups, s0.kept + [e]), digest)
  {
    var kept := s0.kept + [e];
    assert forall x :: x in s0.kept ==> x in kept;
    assert e in kept;
  }

  /**
   * After the scan the recorded digests are the digests seen, every dropped path's
   * digest is recorded, and the path recorded for a digest is that of a kept resource
   * file with the digest.
   */
  lemma {:induction false} ScanFirsts(es: seq<ModuleEntry>, digest: seq<Byte> -> string)
    ensures var s := ScanEntries(es, digest);
      s.firsts.Keys == Seen(es, digest) && Linked(s) && Witnessed(s, digest)
    decreases |es|
  {
    if |es| > 0 {
      var n := |es| - 1;
      ScanFirsts(es[..n], digest);
      StepFirsts(ScanEntries(es[..n], digest), es[n], digest);
      assert ScanEntries(es, digest) == ScanStep(ScanEntries(es[..n], digest), es[n], digest);
    }
  }

  /** The scan keeps exactly the survivors. */
  lemma {:induction false} ScanKept(es: seq<ModuleEntry>, digest: seq<Byte> -> string)
    ensures ScanEntries(es, digest).kept == Survivors(es, digest)
    decreases |es|
  {
    if |es| > 0 {
      var n := |es| - 1;
      ScanKept(es[..n], digest);
      ScanFirsts(es[..n], digest);
      Snoc(es);
      assert ScanEntries(es, digest) == ScanStep(ScanEntries(es[..n], digest), es[n], digest);
    }
  }

  /** The paths of some entries. */
  function Paths(es: seq<ModuleEntry>): set<ZipPath> {
    set x | x in es :: x.path
  }

  /** The dropped paths are paths of the entries, and the kept entries are entries. */
  lemma {:induction false} ScanFrom(es: seq<ModuleEntry>, digest: seq<Byte> -> string)
    ensures var s := ScanEntries(es, digest);
      s.dups.Keys <= Paths(es) && forall x :: x in s.kept ==> x in es
    decreases |es|
  {
    if |es| > 0 {
      var n := |es| - 1;
      ScanFrom(es[..n], digest);
      Snoc(es);
      assert ScanEntries(es, digest) == ScanStep(ScanEntries(es[..n], digest), es[n], digest);
    }
  }

  /** With paths unique, the last entry's path is no path of the entries before it. */
  lemma FreshPath(es: seq<ModuleEntry>)
    requires UniquePaths(es) && |es| > 0
    ensures UniquePaths(es[..|es| - 1]) && es[|es| - 1].path !in Paths(es[..|es| - 1])
  {
    var n := |es| - 1;
    forall x | x in es[..n] ensures x.path != es[n].path {
      var j :| 0 <= j < n && es[..n][j] == x;
      assert es[j] == x;
    }
  }

  /** No kept entry has a dropped path. */
  predicate Disjoint(s: Scan) {
    forall x :: x in s.kept ==> x.path !in s.dups
  }

  /** A step on an entry whose path is new either keeps it or drops it, and keeps the scan disjoint. */
  lemma StepDisjoint(s0: Scan, e: ModuleEntry, digest: seq<Byte> -> string)
    requires Disjoint(s0) && e.path !in s0.dups && forall x :: x in s0.kept ==> x.path != e.path
    ensures var s := ScanStep(s0, e, digest);
      |s.kept| + |s.dups| == |s0.kept| + |s0.dups| + 1 && Disjoint(s)
  {
    var s := ScanStep(s0, e, digest);
    if IsResFile(e) && digest(e.content) in s0.firsts {
      assert s.kept == s0.kept && s.dups == s0.dups[e.path := digest(e.content)];
    } else {
      assert s.kept == s0.kept + [e] && s.dups == s0.dups;
      assert forall x :: x in s.kept ==> x in s0.kept || x == e;
    }
  }

  /** With paths unique, the last entry's path is neither dropped nor kept by the scan of the entries before it. */
  lemma LastFresh(es: seq<ModuleEntry>, digest: seq<Byte> -> string)
    requires UniquePaths(es) && |es| > 0
    ensures UniquePaths(es[..|es| - 1])
    ensures var s0 := ScanEntries(es[..|es| - 1], digest);
      es[|es| - 1].path !in s0.dups && forall x :: x in s0.kept ==> x.path != es[|es| - 1].path
  {
    var n := |es| - 1;
    FreshPath(es);
    ScanFrom(es[..n], digest);
    var s0 := ScanEntries(es[..n], digest);
    forall x | x in s0.kept ensures x.path != es[n].path {
      assert x in es[..n];
    }
  }

  /**
   * With paths unique, every entry is either kept or dropped, and no kept entry has a
   * dropped path.
   */
  lemma {:induction false} ScanDisjoint(es: seq<ModuleEntry>, digest: seq<Byte> -> string)
    requires UniquePaths(es)
    ensures var s := ScanEntries(es, digest);
      |s.kept| + |s.dups| == |es| && Disjoint(s)
    decreases |es|
  {
    if |es| > 0 {
      LastFresh(es, digest);
      ScanDisjoint(es[..|es| - 1], digest);
      ScanDisjointStep(es, digest);
    }
  }

  /** The step of `ScanDisjoint`: the last entry of a module with unique paths keeps the scan disjoint. */
  lemma ScanDisjointStep(es: seq<ModuleEntry>, digest: seq<Byte> -> string)
    requires UniquePaths(es) && |es| > 0
    requires var s0 := ScanEntries(es[..|es| - 1], digest);
      |s0.kept| + |s0.dups| == |es| - 1 && Disjoint(s0)
    ensures var s := ScanEntries(es, digest);
      |s.kept| + |s.dups| == |es| && Disjoint(s)
  {
    var n := |es| - 1;
    var s0 := ScanEntries(es[..n], digest);
    LastFresh(es, digest);
    StepDisjoint(s0, es[n], digest);
    assert ScanEntries(es, digest) == ScanStep(s0, es[n], digest);
  }

  /** Every path that does not survive is dropped with its own digest. */
  predicate DropsAll(es: seq<ModuleEntry>, s: Scan, digest: seq<Byte> -> string) {
    forall j :: 0 <= j < |es| && !Survives(es, j, digest) ==>
      es[j].path in s.dups && s.dups[es[j].path] == digest(es[j].content)
  }

  /**
   * With paths unique, every entry that does not survive has its path dropped,
   * recorded with its own digest.
   */
  lemma {:induction false} ScanDropped(es: seq<ModuleEntry>, digest: seq<Byte> -> string)
    requires UniquePaths(es)
    ensures DropsAll(es, ScanEntries(es, digest), digest)
    decreases |es|
  {
    if |es| > 0 {
      var n := |es| - 1;
      var e := es[n];
      var s0 := ScanEntries(es[..n], digest);
      var s := ScanEntries(es, digest);
      FreshPath(es);
      ScanDropped(es[..n], digest);
      ScanFirsts(es[..n], digest);
      PrefixFacts(es, n);
      PrefixSurvives(es, n, digest);
      forall j | 0 <= j < n && !Survives(es, j, digest)
        ensures es[j].path in s.dups && s.dups[es[j].path] == digest(es[j].content)
      {
        assert !Survives(es[..n], j, digest);
        assert es[j] in es[..n];
      }
      Snoc(es);
    }
  }

  // ---------------------------------------------------------------------------
  // Redirecting the table
  // ---------------------------------------------------------------------------

  /** `md5FileList.get(duplicatedFileList.get(path))` for a dropped path; the path itself otherwise. */
  function Target(s: Scan, p: ZipPath): (q: ZipPath)
    requires Linked(s)
    ensures p !in s.dups ==> q == p
    ensures p in s.dups ==> q in s.firsts.Values
  {
    if p in s.dups then s.firsts[s.dups[p]] else p
  }

  /**
   * `getDuplicatedMergedConfigValues` for one value: a file reference is read as a path,
   * sent to its target, and written back; any other value is unchanged.
   */
  function MergeConfig(s: Scan, cv: ConfigValue): (r: ConfigValue)
    requires Linked(s)
    ensures r.config == cv.config
    ensures !cv.item.File? ==> r == cv
    ensures cv.item.File? ==> r.item == File(PathText(Target(s, CreatePath(cv.item.path))))
  {
    if !cv.item.File? then cv
    else ReplaceEntryPath(cv, PathText(Target(s, CreatePath(cv.item.path))))
  }

  function MergeConfigs(s: Scan, cs: seq<ConfigValue>): (r: seq<ConfigValue>)
    requires Linked(s)
    ensures |r| == |cs| && forall c :: 0 <= c < |cs| ==> r[c] == MergeConfig(s, cs[c])
  {
    seq(|cs|, c requires 0 <= c < |cs| => MergeConfig(s, cs[c]))
  }

  /** A table entry with its config values merged. */
  function MergeEntry(s: Scan, x: TableEntry): (y: TableEntry)
    requires Linked(s)
    ensures y.pkg == x.pkg && y.typ == x.typ && y.entry.id == x.entry.id && y.entry.name == x.entry.name
    ensures y.entry.configs == MergeConfigs(s, x.entry.configs)
  {
    TableEntry(x.pkg, x.typ, UpdateEntryConfigValueList(x.entry, MergeConfigs(s, x.entry.configs)))
  }

  /** `mergeResourceTable`: the table rebuilt from its entries with merged config values. */
  function MergeTable(s: Scan, t: Table): (r: Table)
    requires Linked(s)
    ensures |Entries(r)| == |Entries(t)|
  {
    var xs := Entries(t);
    var ys := seq(|xs|, i requires 0 <= i < |xs| => MergeEntry(s, xs[i]));
    RebuildCount(ys);
    Rebuild(ys)
  }

  /** An entry with its config values merged. */
  function MergedEntry(s: Scan, e: Entry): (r: Entry)
    requires Linked(s)
    ensures r.id == e.id && r.name == e.name && r.configs == MergeConfigs(s, e.configs)
  {
    UpdateEntryConfigValueList(e, MergeConfigs(s, e.configs))
  }

  /**
   * Merging a table the builder can reproduce keeps every package, type and entry in
   * place and only merges each entry's config values.
   */
  lemma MergeTableWellFormed(s: Scan, t: Table)
    requires Linked(s) && Rebuildable(t)
    ensures MergeTable(s, t) == MapTable(t, (e: Entry) => MergedEntry(s, e))
  {
    var f := (e: Entry) => MergedEntry(s, e);
    var xs := Entries(t);
    var ys := seq(|xs|, i requires 0 <= i < |xs| => MergeEntry(s, xs[i]));
    assert ys == MapEntries(xs, f);
    RebuildMapped(t, f);
  }

  // ---------------------------------------------------------------------------
  // Modules and the bundle
  // ---------------------------------------------------------------------------

  /** The module's table, or the empty table when it has none. */
  function TableOrEmpty(md: Module): Table {
    if md.table.Some? then md.table.value else Table([])
  }

  /** The merger leaves the module alone: its table has no package, or it has no entry. */
  predicate NothingToMerge(md: Module) {
    |TableOrEmpty(md).packages| == 0 || |md.entries| == 0
  }

  /**
   * `mergeBundleModule`: the module with its surviving entries and its merged table,
   * and the number of dropped entries (`duplicatedFileList.size()`).
   */
  function MergeModule(md: Module, digest: seq<Byte> -> string): (r: (Module, nat))
    ensures NothingToMerge(md) ==> r == (md, 0)
    ensures r.0.name == md.name && r.0.native == md.native
    ensures !NothingToMerge(md) ==> r.0.table.Some? && |Entries(r.0.table.value)| == |Entries(md.table.value)|
    ensures |r.0.entries| <= |md.entries|
  {
    if NothingToMerge(md) then (md, 0)
    else
      var s := ScanEntries(md.entries, digest);
      ScanFirsts(md.entries, digest);
      (Module(md.name, s.kept, Some(MergeTable(s, md.table.value)), md.native), |s.dups|)
  }

  /**
   * A merged module keeps exactly the survivors; with paths unique, the count is the
   * number of entries that went.
   */
  lemma MergeModuleEntries(md: Module, digest: seq<Byte> -> string)
    requires !NothingToMerge(md)
    ensures MergeModule(md, digest).0.entries == Survivors(md.entries, digest)
    ensures UniquePaths(md.entries) ==> MergeModule(md, digest).1 == |md.entries| - |Survivors(md.entries, digest)|
  {
    ScanKept(md.entries, digest);
    if UniquePaths(md.entries) {
      ScanDisjoint(md.entries, digest);
    }
  }

  /** A module without duplicated digests keeps all its entries and drops none. */
  lemma MergeModuleNoDuplicates(md: Module, digest: seq<Byte> -> string)
    requires UniquePaths(md.entries) && NoDuplicates(md.entries, digest)
    ensures MergeModule(md, digest).0.entries == md.entries && MergeModule(md, digest).1 == 0
  {
    if !NothingToMerge(md) {
      MergeModuleEntries(md, digest);
      SurvivorsAll(md.entries, digest);
    }
  }

  /** A file reference that does not name the path of a dropped entry. */
  predicate NotDropped(es: seq<ModuleEntry>, digest: seq<Byte> -> string, cv: ConfigValue) {
    cv.item.File? ==> forall j :: 0 <= j < |es| && !Survives(es, j, digest) ==> CreatePath(cv.item.path) != es[j].path
  }

  /**
   * With paths unique and valid, the target of a valid path is valid and is never a
   * dropped path.
   */
  lemma TargetKept(es: seq<ModuleEntry>, digest: seq<Byte> -> string)
    requires UniquePaths(es) && forall i :: 0 <= i < |es| ==> ValidPath(es[i].path)
    ensures var s := ScanEntries(es, digest);
      Linked(s) && forall p :: (ValidPath(p) ==> ValidPath(Target(s, p))) && Target(s, p) !in s.dups
  {
    var s := ScanEntries(es, digest);
    ScanFirsts(es, digest);
    ScanFrom(es, digest);
    ScanDisjoint(es, digest);
    forall p ensures (ValidPath(p) ==> ValidPath(Target(s, p))) && Target(s, p) !in s.dups {
      if p in s.dups {
        var x :| x in s.kept && IsResFile(x) && x.path == s.firsts[s.dups[p]] && digest(x.content) == s.dups[p];
        var i :| 0 <= i < |es| && es[i] == x;
      }
    }
  }

  /** After merging, no file reference of the table names the path of a dropped entry. */
  lemma MergeModuleRedirects(md: Module, digest: seq<Byte> -> string)
    requires !NothingToMerge(md) && UniquePaths(md.entries)
    requires forall i :: 0 <= i < |md.entries| ==> ValidPath(md.entries[i].path)
    ensures ConfigsOk(MergeModule(md, digest).0.table.value.packages, cv => NotDropped(md.entries, digest, cv))
  {
    var es := md.entries;
    var s := ScanEntries(es, digest);
    TargetKept(es, digest);
    ScanDropped(es, digest);
    var ok := cv => NotDropped(es, digest, cv);
    var xs := Entries(md.table.value);
    var ys := seq(|xs|, i requires 0 <= i < |xs| => MergeEntry(s, xs[i]));
    forall i | 0 <= i < |ys| ensures EntryConfigsOk(ys[i].entry, ok) {
      forall c | 0 <= c < |ys[i].entry.configs| ensures ok(ys[i].entry.configs[c]) {
        var cv := xs[i].entry.configs[c];
        if cv.item.File? {
          var q := Target(s, CreatePath(cv.item.path));
          assert ys[i].entry.configs[c].item.path == PathText(q);
          CreatePathText(q);
        }
      }
    }
    RebuildConfigs(ys, ok);
    assert MergeModule(md, digest).0.table.value == Rebuild(ys);
  }

  /**
   * With paths unique, a dropped entry's path is sent to the path of a surviving
   * resource file with the same digest.
   */
  lemma MergeModuleTargets(md: Module, digest: seq<Byte> -> string)
    requires !NothingToMerge(md) && UniquePaths(md.entries)
    ensures var s := ScanEntries(md.entries, digest);
      Linked(s) && forall i :: 0 <= i < |md.entries| && !Survives(md.entries, i, digest) ==>
        exists x :: x in MergeModule(md, digest).0.entries && IsResFile(x)
          && x.path == Target(s, md.entries[i].path) && digest(x.content) == digest(md.entries[i].content)
  {
    ScanFirsts(md.entries, digest);
    ScanDropped(md.entries, digest);
  }

  /**
   * `merge()`: every module merged on its own (the digest maps are cleared per module),
   * in order, and the total count of dropped entries; the metadata is kept.
   */
  function MergeModules(ms: seq<Module>, digest: seq<Byte> -> string): (r: (seq<Module>, nat))
    ensures |r.0| == |ms|
    ensures forall i :: 0 <= i < |ms| ==> r.0[i] == MergeModule(ms[i], digest).0
    decreases |ms|
  {
    if |ms| == 0 then ([], 0)
    else
      var (md, n) := MergeModule(ms[0], digest);
      var (rest, total) := MergeModules(ms[1..], digest);
      ([md] + rest, n + total)
  }

  function Merge(b: Bundle, digest: seq<Byte> -> string): (r: (Bundle, nat))
    ensures r.0.metadata == b.metadata && |r.0.modules| == |b.modules|
    ensures forall i :: 0 <= i < |b.modules| ==>
      r.0.modules[i].name == b.modules[i].name && |r.0.modules[i].entries| <= |b.modules[i].entries|
  {
    var (ms, total) := MergeModules(b.modules, digest);
    (Bundle(ms, b.metadata), total)
  }

  /** With unique paths, a module's dropped count is the number of entries it lost. */
  lemma MergeModuleCount(md: Module, digest: seq<Byte> -> string)
    requires UniquePaths(md.entries)
    ensures MergeModule(md, digest).1 + |MergeModule(md, digest).0.entries| == |md.entries|
  {
    if !NothingToMerge(md) {
      MergeModuleEntries(md, digest);
    }
  }

  /**
   * With unique paths in every module, the count `merge()` reports is the number of
   * entries the bundle lost.
   */
  lemma {:induction false} MergeModulesTotal(ms: seq<Module>, digest: seq<Byte> -> string)
    requires forall i :: 0 <= i < |ms| ==> UniquePaths(ms[i].entries)
    ensures MergeModules(ms, digest).1 + TotalEntries(MergeModules(ms, digest).0) == TotalEntries(ms)
    decreases |ms|
  {
    if |ms| > 0 {
      var r := MergeModules(ms, digest);
      MergeModuleCount(ms[0], digest);
      MergeModulesTotal(ms[1..], digest);
      assert r.0[1..] == MergeModules(ms[1..], digest).0;
    }
  }
}
