/**
 * `BundleFileFilter`: removes the module entries and bundle-metadata files whose path a
 * filter rule (a glob) matches, prunes native-library directories that lose every
 * file, and counts what it removed. Only files under `lib/` or `BUNDLE-METADATA/` may
 * be removed.
 */
module BundleFileFilter {
  import opened Wrappers
  import opened Strings
  import opened Seqs
  import opened Regex
  import opened Utils
  import opened BundleModel
  import opened ResourceMapping
  import opened NativeLibrariesOperation

  /** The rules for signature files, always filtered. */
  const SignatureRules: set<string> := {"META-INF/*.RSA", "META-INF/*.SF", "META-INF/*.MF"}

  /** The constructor's rule set: the configured rules (none when absent) and the signature rules. */
  function FilterRules(rules: Option<set<string>>): (r: set<string>)
    ensures SignatureRules <= r
    ensures rules.Some? ==> rules.value <= r
    ensures forall x :: x in r ==> x in SignatureRules || (rules.Some? && x in rules.value)
  {
    (if rules.Some? then rules.value else {}) + SignatureRules
  }

  /** The directory the signature rules look in. */
  const SignatureDirectory: string := "META-INF/"

  /** Each signature rule is the signature directory, a star and an extension, and lies in the glob fragment. */
  lemma SignatureRuleSupported(ext: string)
    requires ext == ".RSA" || ext == ".SF" || ext == ".MF"
    ensures SignatureDirectory + "*" + ext in SignatureRules
    ensures SupportedRule(SignatureDirectory + "*" + ext)
    ensures IsLiteral(SignatureDirectory) && IsLiteral(ext)
  {
    var p := SignatureDirectory;
    assert SupportedRule(p) && SupportedRule("*") && SupportedRule(ext);
    SupportedAppend(p, "*");
    SupportedAppend(p + "*", ext);
    if ext == ".RSA" {
      assert p + "*" + ext == "META-INF/*.RSA";
    } else if ext == ".SF" {
      assert p + "*" + ext == "META-INF/*.SF";
    } else {
      assert p + "*" + ext == "META-INF/*.MF";
    }
  }

  /**
   * A signature rule matches exactly the paths that start with the signature directory,
   * end with the rule's extension, and hold no line terminator in between.
   */
  lemma SignatureRuleMatches(ext: string, s: string)
    requires ext == ".RSA" || ext == ".SF" || ext == ".MF"
    ensures var p := SignatureDirectory;
      GlobMatches(p + "*" + ext, s) <==>
        |p| + |ext| <= |s| && s[..|p|] == p && s[|s| - |ext|..] == ext && NoLineTerminator(s[|p|..|s| - |ext|])
  {
    SignatureRuleSupported(ext);
    PrefixStarSuffix(SignatureDirectory, ext, s);
  }

  /** A concatenation is in the fragment exactly when both parts are. */
  lemma SupportedAppend(a: string, b: string)
    ensures SupportedRule(a + b) <==> SupportedRule(a) && SupportedRule(b)
  {
    var ab := a + b;
    if SupportedRule(a) && SupportedRule(b) {
      forall i | 0 <= i < |ab| ensures ab[i] != '\\' && !IsOutsideFragment(ab[i]) {
        if i < |a| { assert ab[i] == a[i]; } else { assert ab[i] == b[i - |a|]; }
      }
    }
    if SupportedRule(ab) {
      forall i | 0 <= i < |a| ensures a[i] != '\\' && !IsOutsideFragment(a[i]) {
        assert ab[i] == a[i];
      }
      forall i | 0 <= i < |b| ensures b[i] != '\\' && !IsOutsideFragment(b[i]) {
        assert ab[|a| + i] == b[i];
      }
    }
  }

  // ---------------------------------------------------------------------------
  // Matching
  // ---------------------------------------------------------------------------

  /** The rule's compiled pattern matches the whole text. */
  predicate RuleMatches(rule: string, s: string) {
    SupportedRule(rule) && GlobMatches(rule, s)
  }

  /** Every rule lies in the glob fragment the model compiles. */
  predicate RulesSupported(order: seq<string>) {
    forall i :: 0 <= i < |order| ==> SupportedRule(order[i])
  }

  /**
   * `getMatchedFilterRule(path)`: the first rule, in the set's iteration order `order`,
   * that matches the whole text; absent when none does.
   */
  function MatchedRule(order: seq<string>, s: string): (r: Option<string>)
    ensures r.None? <==> forall i :: 0 <= i < |order| ==> !RuleMatches(order[i], s)
    ensures r.Some? ==> exists i :: 0 <= i < |order| && order[i] == r.value
                                    && RuleMatches(r.value, s) && forall k :: 0 <= k < i ==> !RuleMatches(order[k], s)
  {
    if |order| == 0 then None
    else if RuleMatches(order[0], s) then Some(order[0])
    else
      var r := MatchedRule(order[1..], s);
      assert forall i :: 1 <= i < |order| ==> order[i] == order[1..][i - 1];
      r
  }

  /** Some rule matches the entry's path. */
  predicate Matched(order: seq<string>, e: ModuleEntry) {
    MatchedRule(order, PathText(e.path)).Some?
  }

  /** The opposite test. */
  function Not<T>(f: T -> bool): T -> bool {
    (x: T) => !f(x)
  }

  /** The test that keeps an entry some rule matches. */
  function IsMatched(order: seq<string>): ModuleEntry -> bool {
    (e: ModuleEntry) => Matched(order, e)
  }

  /** `checkFilteredEntry`: only files under `lib/` or `BUNDLE-METADATA/` may be filtered. */
  predicate Removable(e: ModuleEntry) {
    StartsWithDir(e.path, LibDirectory) || StartsWithDir(e.path, MetadataDirectory)
  }

  // ---------------------------------------------------------------------------
  // Module entries
  // ---------------------------------------------------------------------------

  /**
   * The stream over a module's entries, given the test `matched` for "some rule
   * matches" and the test `removable` of `checkFilteredEntry`: the kept entries and the
   * removed ones, both in order. A matched entry that may not be removed ends the pass
   * with `UnsupportedOperationException`.
   */
  function SplitEntries<T>(matched: T -> bool, removable: T -> bool, es: seq<T>): (r: Result<(seq<T>, seq<T>)>)
    ensures r.Err? <==> exists i :: 0 <= i < |es| && matched(es[i]) && !removable(es[i])
    ensures r.Err? ==> r.error == UnsupportedOperation
    ensures r.Ok? ==> r.value.0 == Filter(es, Not(matched)) && r.value.1 == Filter(es, matched)
    decreases |es|
  {
    if |es| == 0 then Ok(([], []))
    else
      var rest := SplitEntries(matched, removable, es[1..]);
      assert forall i :: 1 <= i < |es| ==> es[i] == es[1..][i - 1];
      assert Filter(es, matched) == (if matched(es[0]) then [es[0]] else []) + Filter(es[1..], matched);
      assert Filter(es, Not(matched)) == (if matched(es[0]) then [] else [es[0]]) + Filter(es[1..], Not(matched));
      if matched(es[0]) && !removable(es[0]) then Err(UnsupportedOperation)
      else if rest.Err? then Err(UnsupportedOperation)
      else if matched(es[0]) then Ok((rest.value.0, [es[0]] + rest.value.1))
      else Ok(([es[0]] + rest.value.0, rest.value.1))
  }

  /** Kept and removed entries together are all the entries. */
  lemma {:induction false} SplitCount<T>(es: seq<T>, matched: T -> bool)
    ensures |Filter(es, Not(matched))| + |Filter(es, matched)| == |es|
    decreases |es|
  {
    if |es| > 0 {
      SplitCount(es[1..], matched);
    }
  }

  // ---------------------------------------------------------------------------
  // Native libraries
  // ---------------------------------------------------------------------------

  /** The test that keeps an entry under the directory `dir`. */
  function Under(dir: string): ModuleEntry -> bool {
    (e: ModuleEntry) => StartsWithDir(e.path, dir)
  }

  /** How many of the entries lie under `dir`. */
  function CountUnder(es: seq<ModuleEntry>, dir: string): nat {
    |Filter(es, Under(dir))|
  }

  /**
   * The loop's test for a directory: some removed `lib/` entry lies under it, and as many
   * as the module has there.
   */
  predicate Emptied(d: NativeDirectory, lib: seq<ModuleEntry>, entries: seq<ModuleEntry>) {
    CountUnder(lib, d.path) > 0 && CountUnder(lib, d.path) == CountUnder(entries, d.path)
  }

  function KeepDirectory(lib: seq<ModuleEntry>, entries: seq<ModuleEntry>): NativeDirectory -> bool {
    (d: NativeDirectory) => !Emptied(d, lib, entries)
  }

  /** The loop over the configured directories, removing each one `keep` rejects from the running configuration. */
  function Prune(n: NativeLibraries, ds: seq<NativeDirectory>, keep: NativeDirectory -> bool): NativeLibraries
    decreases |ds|
  {
    if |ds| == 0 then n
    else
      var n1 := if !keep(ds[0]) then RemoveDirectory(n, ds[0].path) else n;
      Prune(n1, ds[1..], keep)
  }

  /**
   * `updateLibDirectory`: without a removed `lib/` entry the native configuration is
   * left as it was; with one, a module without native configuration is an error, and
   * otherwise every emptied directory is dropped.
   */
  function UpdateLibDirectory(md: Module, removed: seq<ModuleEntry>): (r: Result<Option<NativeLibraries>>)
    ensures CountUnder(removed, LibDirectory) == 0 ==> r == Ok(md.native)
    ensures CountUnder(removed, LibDirectory) > 0 && md.native.None? ==> r == Err(UnexpectedState)
    ensures r.Ok? ==> r.value.Some? == md.native.Some?
  {
    var lib := Filter(removed, Under(LibDirectory));
    if |lib| == 0 then Ok(md.native)
    else if md.native.None? then Err(UnexpectedState)
    else Ok(Some(Prune(md.native.value, md.native.value.directories, KeepDirectory(lib, md.entries))))
  }

  /** No two directories share a path. */
  predicate DistinctPaths(ds: seq<NativeDirectory>) {
    forall i, j :: 0 <= i < j < |ds| ==> ds[i].path != ds[j].path
  }

  /** With distinct paths, the directory at position `|a|` of `a + ds` is the one removal finds. */
  lemma RemoveAtBoundary(a: seq<NativeDirectory>, ds: seq<NativeDirectory>)
    requires |ds| > 0 && DistinctPaths(a + ds)
    ensures RemoveDirectory(NativeLibraries(a + ds), ds[0].path).directories == a + ds[1..]
  {
    var all := a + ds;
    assert all[|a|] == ds[0];
    forall k | 0 <= k < |a| ensures all[k].path != ds[0].path {
    }
    var i := DirectoryIndex(all, ds[0].path);
    assert i == Some(|a|);
    assert RemoveAt(all, |a|) == a + ds[1..];
  }

  /** A prefix of directories with distinct paths has distinct paths. */
  lemma DistinctPathsShift(a: seq<NativeDirectory>, ds: seq<NativeDirectory>, keep: bool)
    requires |ds| > 0 && DistinctPaths(a + ds)
    ensures DistinctPaths(a + ds[1..])
    ensures DistinctPaths((a + [ds[0]]) + ds[1..])
  {
    assert (a + [ds[0]]) + ds[1..] == a + ds;
    var b := a + ds[1..];
    forall i, j | 0 <= i < j < |b| ensures b[i].path != b[j].path {
      var i' := if i < |a| then i else i + 1;
      var j' := if j < |a| then j else j + 1;
      assert b[i] == (a + ds)[i'] && b[j] == (a + ds)[j'];
    }
  }

  /** With distinct paths, pruning keeps exactly the directories `keep` accepts, in order. */
  lemma {:induction false} PruneKeeps(a: seq<NativeDirectory>, ds: seq<NativeDirectory>, keep: NativeDirectory -> bool)
    requires DistinctPaths(a + ds)
    ensures Prune(NativeLibraries(a + ds), ds, keep).directories == a + Filter(ds, keep)
    decreases |ds|
  {
    if |ds| == 0 {
      assert a + ds == a;
    } else {
      DistinctPathsShift(a, ds, true);
      if !keep(ds[0]) {
        PruneDropStep(a, ds, keep);
        PruneKeeps(a, ds[1..], keep);
      } else {
        PruneKeepStep(a, ds, keep);
        PruneKeeps(a + [ds[0]], ds[1..], keep);
      }
    }
  }

  /** One step of the loop that removes the directory. */
  lemma PruneDropStep(a: seq<NativeDirectory>, ds: seq<NativeDirectory>, keep: NativeDirectory -> bool)
    requires |ds| > 0 && !keep(ds[0]) && DistinctPaths(a + ds)
    ensures Prune(NativeLibraries(a + ds), ds, keep) == Prune(NativeLibraries(a + ds[1..]), ds[1..], keep)
    ensures a + Filter(ds, keep) == a + Filter(ds[1..], keep)
  {
    var n := NativeLibraries(a + ds);
    var n1 := RemoveDirectory(n, ds[0].path);
    RemoveAtBoundary(a, ds);
    assert n1 == NativeLibraries(a + ds[1..]);
    assert Prune(n, ds, keep) == Prune(n1, ds[1..], keep);
    assert Filter(ds, keep) == Filter(ds[1..], keep);
  }

  /** One step of the loop that keeps the directory. */
  lemma PruneKeepStep(a: seq<NativeDirectory>, ds: seq<NativeDirectory>, keep: NativeDirectory -> bool)
    requires |ds| > 0 && keep(ds[0])
    ensures Prune(NativeLibraries(a + ds), ds, keep) == Prune(NativeLibraries((a + [ds[0]]) + ds[1..]), ds[1..], keep)
    ensures a + Filter(ds, keep) == (a + [ds[0]]) + Filter(ds[1..], keep)
  {
    AppendHeadTail(a, ds);
    FilterHead(ds, keep);
    ConcatAssoc(a, [ds[0]], Filter(ds[1..], keep));
  }

  /**
   * With distinct directory paths, the native configuration after a removal of `lib/`
   * entries holds exactly the directories that were not emptied, in order.
   */
  lemma UpdateLibDirectoryKeeps(md: Module, removed: seq<ModuleEntry>)
    requires md.native.Some? && DistinctPaths(md.native.value.directories)
    requires CountUnder(removed, LibDirectory) > 0
    ensures var lib := Filter(removed, Under(LibDirectory));
      UpdateLibDirectory(md, removed) == Ok(Some(NativeLibraries(Filter(md.native.value.directories, KeepDirectory(lib, md.entries)))))
  {
    var ds := md.native.value.directories;
    assert [] + ds == ds;
    PruneKeeps([], ds, KeepDirectory(Filter(removed, Under(LibDirectory)), md.entries));
    assert [] + Filter(ds, KeepDirectory(Filter(removed, Under(LibDirectory)), md.entries))
      == Filter(ds, KeepDirectory(Filter(removed, Under(LibDirectory)), md.entries));
  }

  /** The test that keeps a matched entry under `lib/`. */
  function RemovedLib(matched: ModuleEntry -> bool): ModuleEntry -> bool {
    (e: ModuleEntry) => matched(e) && Under(LibDirectory)(e)
  }

  /** The test that keeps a matched entry under both `lib/` and `dir`. */
  function RemovedLibUnder(matched: ModuleEntry -> bool, dir: string): ModuleEntry -> bool {
    (e: ModuleEntry) => RemovedLib(matched)(e) && Under(dir)(e)
  }

  /**
   * After a successful split, a directory counts as emptied exactly when some module
   * entry lies under it and every entry under it is a removed `lib/` entry.
   */
  lemma EmptiedMeans(matched: ModuleEntry -> bool, es: seq<ModuleEntry>, d: NativeDirectory)
    requires SplitEntries(matched, Removable, es).Ok?
    ensures var lib := Filter(SplitEntries(matched, Removable, es).value.1, Under(LibDirectory));
      Emptied(d, lib, es) <==>
        (exists i :: 0 <= i < |es| && Under(d.path)(es[i]))
        && forall i :: 0 <= i < |es| && Under(d.path)(es[i]) ==> matched(es[i]) && Under(LibDirectory)(es[i])
  {
    EmptiedCounts(matched, es, d);
    FilterThreeAgree(es, matched, Under(LibDirectory), Under(d.path), RemovedLib(matched), RemovedLibUnder(matched, d.path));
  }

  /** The loop's test, written as three filters of the module's entries. */
  lemma EmptiedCounts(matched: ModuleEntry -> bool, es: seq<ModuleEntry>, d: NativeDirectory)
    requires SplitEntries(matched, Removable, es).Ok?
    ensures var c := |Filter(Filter(Filter(es, matched), Under(LibDirectory)), Under(d.path))|;
      Emptied(d, Filter(SplitEntries(matched, Removable, es).value.1, Under(LibDirectory)), es) <==> c > 0 && c == |Filter(es, Under(d.path))|
  {
  }

  // ---------------------------------------------------------------------------
  // Modules, metadata and the bundle
  // ---------------------------------------------------------------------------

  /**
   * `filterBundleModule`: the unmatched entries, the native configuration updated for
   * the removed ones, and how many were removed. The resource table is untouched.
   */
  function FilterModule(order: seq<string>, md: Module): (r: Result<(Module, nat)>)
    ensures r.Ok? ==> r.value.0.name == md.name && r.value.0.table == md.table
    ensures r.Ok? ==> r.value.0.entries == Filter(md.entries, Not(IsMatched(order)))
    ensures r.Ok? ==> r.value.1 + |r.value.0.entries| == |md.entries|
  {
    var (kept, removed) :- SplitEntries(IsMatched(order), Removable, md.entries);
    SplitCount(md.entries, IsMatched(order));
    var native :- UpdateLibDirectory(md, removed);
    Ok((md.(entries := kept, native := native), |removed|))
  }

  /**
   * A module fails exactly when a matched entry may not be removed, or when a `lib/`
   * entry is removed from a module without native configuration.
   */
  lemma FilterModuleFails(order: seq<string>, md: Module)
    ensures FilterModule(order, md).Err? <==>
      (SplitEntries(IsMatched(order), Removable, md.entries).Err?
       || (CountUnder(SplitEntries(IsMatched(order), Removable, md.entries).value.1, LibDirectory) > 0 && md.native.None?))
  {
  }

  /**
   * With distinct directory paths, a configured directory survives the module's filter
   * exactly when it is not the case that some entry lies under it and every entry under
   * it is a removed `lib/` entry.
   */
  lemma FilterModuleDirectories(order: seq<string>, md: Module, d: NativeDirectory)
    requires md.native.Some? && DistinctPaths(md.native.value.directories)
    requires FilterModule(order, md).Ok?
    ensures var r := FilterModule(order, md).value.0;
      r.native.Some? &&
      (d in r.native.value.directories <==>
         d in md.native.value.directories
         && !((exists i :: 0 <= i < |md.entries| && Under(d.path)(md.entries[i]))
              && forall i :: 0 <= i < |md.entries| && Under(d.path)(md.entries[i]) ==>
                   IsMatched(order)(md.entries[i]) && Under(LibDirectory)(md.entries[i])))
  {
    var matched := IsMatched(order);
    var removed := SplitEntries(matched, Removable, md.entries).value.1;
    var lib := Filter(removed, Under(LibDirectory));
    EmptiedMeans(matched, md.entries, d);
    if CountUnder(removed, LibDirectory) == 0 {
      assert lib == [];
      assert !Emptied(d, lib, md.entries);
    } else {
      UpdateLibDirectoryKeeps(md, removed);
      FilterMember(md.native.value.directories, KeepDirectory(lib, md.entries), d);
    }
  }

  /** Filtering a filtered module again removes nothing and changes nothing. */
  lemma FilterModuleIdempotent(order: seq<string>, md: Module)
    requires FilterModule(order, md).Ok?
    ensures var r := FilterModule(order, md).value.0;
      FilterModule(order, r) == Ok((r, 0))
  {
    var r := FilterModule(order, md).value.0;
    var matched := IsMatched(order);
    assert forall i :: 0 <= i < |r.entries| ==> Not(matched)(r.entries[i]);
    FilterAll(r.entries, Not(matched));
    FilterNonEmpty(r.entries, matched);
    assert Filter(r.entries, matched) == [];
    assert SplitEntries(matched, Removable, r.entries) == Ok((r.entries, []));
    assert UpdateLibDirectory(r, []) == Ok(r.native);
  }

  /** Each module in turn; the first failure ends the pass. */
  function FilterModules(order: seq<string>, ms: seq<Module>): (r: Result<(seq<Module>, nat)>)
    ensures r.Ok? ==> |r.value.0| == |ms| && r.value.1 + TotalEntries(r.value.0) == TotalEntries(ms)
    decreases |ms|
  {
    if |ms| == 0 then Ok(([], 0))
    else
      var (m, c) :- FilterModule(order, ms[0]);
      var (rest, n) :- FilterModules(order, ms[1..]);
      assert ([m] + rest)[1..] == rest;
      Ok(([m] + rest, c + n))
  }

  /** The pass fails exactly when some module fails. */
  lemma {:induction false} FilterModulesFails(order: seq<string>, ms: seq<Module>)
    ensures FilterModules(order, ms).Err? <==> exists i :: 0 <= i < |ms| && FilterModule(order, ms[i]).Err?
    decreases |ms|
  {
    if |ms| > 0 {
      FilterModulesFails(order, ms[1..]);
      assert FilterModules(order, ms).Err? <==> FilterModule(order, ms[0]).Err? || FilterModules(order, ms[1..]).Err?;
      assert forall i :: 1 <= i < |ms| ==> ms[i] == ms[1..][i - 1];
    }
  }

  /** When the pass succeeds, each module of the result is that module filtered. */
  lemma {:induction false} FilterModulesEach(order: seq<string>, ms: seq<Module>)
    ensures FilterModules(order, ms).Ok? ==> forall i :: 0 <= i < |ms| ==>
      FilterModule(order, ms[i]).Ok? && FilterModules(order, ms).value.0[i] == FilterModule(order, ms[i]).value.0
    decreases |ms|
  {
    if |ms| > 0 {
      FilterModulesEach(order, ms[1..]);
      assert forall i :: 1 <= i < |ms| ==> ms[i] == ms[1..][i - 1];
    }
  }

  /** Filtering filtered modules again removes nothing and changes nothing. */
  lemma {:induction false} FilterModulesIdempotent(order: seq<string>, ms: seq<Module>)
    requires FilterModules(order, ms).Ok?
    ensures var r := FilterModules(order, ms).value.0;
      FilterModules(order, r) == Ok((r, 0))
    decreases |ms|
  {
    if |ms| > 0 {
      var m := FilterModule(order, ms[0]).value.0;
      var rest := FilterModules(order, ms[1..]).value.0;
      FilterModuleIdempotent(order, ms[0]);
      FilterModulesIdempotent(order, ms[1..]);
      var r := [m] + rest;
      assert FilterModules(order, ms).value.0 == r;
      assert r[1..] == rest;
      assert FilterModule(order, r[0]) == Ok((m, 0));
      assert FilterModules(order, r[1..]) == Ok((rest, 0));
    }
  }

  /** The path a metadata file is matched under. */
  function MetadataPath(key: string): string {
    PathText(CreatePath(MetadataDirectory + "/" + key))
  }

  function MetadataKept(order: seq<string>): ((string, seq<Byte>)) -> bool {
    (f: (string, seq<Byte>)) => MatchedRule(order, MetadataPath(f.0)).None?
  }

  /** `filterMetaData`: the metadata files no rule matches, in order, and how many were dropped. */
  function FilterMetadata(order: seq<string>, files: seq<(string, seq<Byte>)>): (r: (seq<(string, seq<Byte>)>, nat))
    ensures r.0 == Filter(files, MetadataKept(order))
    ensures r.1 + |r.0| == |files|
    ensures forall i :: 0 <= i < |r.0| ==> r.0[i] in files && MatchedRule(order, MetadataPath(r.0[i].0)).None?
    decreases |files|
  {
    if |files| == 0 then ([], 0)
    else
      var (kept, n) := FilterMetadata(order, files[1..]);
      if MatchedRule(order, MetadataPath(files[0].0)).Some? then (kept, n + 1)
      else ([files[0]] + kept, n)
  }

  /**
   * `filter()`: every module filtered, then the metadata, with the number of removed
   * files. `order` is the iteration order of the rule set the constructor made.
   */
  function FilterBundle(b: Bundle, rules: Option<set<string>>, order: seq<string>): (r: Result<(Bundle, nat)>)
    requires Enumerates(order, FilterRules(rules)) && RulesSupported(order)
    ensures r.Ok? ==> (|r.value.0.modules| == |b.modules|
                       && r.value.0.metadata == Filter(b.metadata, MetadataKept(order)))
    ensures r.Ok? ==> r.value.1 + TotalEntries(r.value.0.modules) + |r.value.0.metadata| == TotalEntries(b.modules) + |b.metadata|
    ensures r.Err? <==> FilterModules(order, b.modules).Err?
  {
    var (ms, c1) :- FilterModules(order, b.modules);
    var (meta, c2) := FilterMetadata(order, b.metadata);
    Ok((Bundle(ms, meta), c1 + c2))
  }

  /** Filtering a filtered bundle again removes nothing and changes nothing. */
  lemma FilterBundleIdempotent(b: Bundle, rules: Option<set<string>>, order: seq<string>)
    requires Enumerates(order, FilterRules(rules)) && RulesSupported(order)
    requires FilterBundle(b, rules, order).Ok?
    ensures var r := FilterBundle(b, rules, order).value.0;
      FilterBundle(r, rules, order) == Ok((r, 0))
  {
    var ms := FilterModules(order, b.modules).value.0;
    var meta := FilterMetadata(order, b.metadata).0;
    var r := Bundle(ms, meta);
    assert FilterBundle(b, rules, order).value.0 == r;
    FilterModulesIdempotent(order, b.modules);
    FilterMetadataIdempotent(order, b.metadata);
    assert FilterModules(order, r.modules) == Ok((ms, 0));
    assert FilterMetadata(order, r.metadata) == (meta, 0);
  }

  /** Filtering filtered metadata again removes nothing. */
  lemma FilterMetadataIdempotent(order: seq<string>, files: seq<(string, seq<Byte>)>)
    ensures var kept := FilterMetadata(order, files).0;
      FilterMetadata(order, kept) == (kept, 0)
  {
    var kept := FilterMetadata(order, files).0;
    assert forall i :: 0 <= i < |kept| ==> MetadataKept(order)(kept[i]);
    FilterAll(kept, MetadataKept(order));
  }
}
