/**
 * `ResourcesObfuscator`: renames resource directories, resource entries and resource
 * files of every module, records each renaming in the mapping, and rewrites the
 * module entries and the resource table accordingly. The passes thread one mapping
 * and one table of in-use names through the modules.
 */
module ResourcesObfuscator {
  import opened Wrappers
  import opened Strings
  import opened Seqs
  import opened Utils
  import opened BundleModel
  import opened FileOperation
  import opened AppBundleUtils
  import opened StringObfuscator
  import opened ResourceMapping
  import opened ResourceTableOperation
  import opened ResourceTableBuilder

  // ---------------------------------------------------------------------------
  // Whitelist
  // ---------------------------------------------------------------------------

  const AndroidPrefix: string := "android:"

  /**
   * `shouldBeObfuscated(name)`, which answers true for a name that must be LEFT ALONE:
   * a system resource ("android:...") or a name some whitelist glob matches in full.
   */
  function Exempt(name: string, rules: seq<string>): (r: bool)
    requires SupportedRules(Some(rules))
    ensures r <==> AndroidPrefix <= name || exists i :: 0 <= i < |rules| && GlobMatches(rules[i], name)
  {
    AndroidPrefix <= name || !Match(name, Some(rules))
  }

  // ---------------------------------------------------------------------------
  // Minting names
  // ---------------------------------------------------------------------------

  /** The number of names a fresh, unfiltered pool holds. */
  const PoolSize: nat := 36578

  /**
   * A freshly reset, unfiltered pool: duplicate-free, of the full size, and made of
   * well-formed names that are not reserved file names.
   */
  predicate FullPool(pool: seq<string>) {
    Distinct(pool) && |pool| == PoolSize
    && forall i :: 0 <= i < |pool| ==> WellFormedName(pool[i]) && pool[i] !in FileNameBlacklist
  }

  /** `reset(null)` gives a full pool. */
  lemma ResetPoolFull()
    ensures FullPool(Reset(None).pool)
  {
    ResetWithoutBlacklist();
    var p := Reset(None).pool;
    forall i | 0 <= i < |p| ensures WellFormedName(p[i]) && p[i] !in FileNameBlacklist {
      assert p[i] in p;
    }
  }

  /**
   * What the generator hands out from a full pool for a set of names in use: a
   * well-formed name that is not a reserved file name and, while fewer names are in use
   * than the pool holds, not one of those in use. The passes are given the pool of
   * `reset(null)`, which every use of the generator starts from.
   */
  function Mint(pool: seq<string>, names: set<string>): (n: string)
    requires FullPool(pool)
    ensures WellFormedName(n) && n !in FileNameBlacklist
    ensures |names| < PoolSize ==> n !in names
  {
    var o := Obfuscator(pool, {}, {});
    MintFresh(o, names);
    var r := GetReplaceString(o, Some(names));
    assert r.value.0 == pool[ChosenIndex(pool, Some(names))];
    r.value.0
  }

  /** Minting from the pool of `reset(null)` is `getReplaceString` right after `reset(null)`. */
  lemma MintIsReplaceString(names: set<string>)
    ensures FullPool(Reset(None).pool)
    ensures GetReplaceString(Reset(None), Some(names)).Ok?
    ensures Mint(Reset(None).pool, names) == GetReplaceString(Reset(None), Some(names)).value.0
  {
    ResetPoolFull();
    assert Reset(None) == Obfuscator(Reset(None).pool, {}, {});
  }

  /** A name in use is handed out by a full, duplicate-free pool only when at least as many names are in use. */
  lemma MintFresh(o: Obfuscator, names: set<string>)
    requires Distinct(o.pool) && |o.pool| == PoolSize
    ensures GetReplaceString(o, Some(names)).Ok?
    ensures GetReplaceString(o, Some(names)).value.0 in names ==> |names| >= PoolSize
  {
    if GetReplaceString(o, Some(names)).value.0 in names {
      ReusedOnlyWhenExhausted(o, names);
      var used := Elems(o.pool);
      EnumeratesSize(o.pool, used);
      assert names == used + (names - used);
    }
  }

  /** A well-formed name has neither slash nor dot. */
  lemma NameIsPlain(n: string)
    requires WellFormedName(n)
    ensures n != [] && '/' !in n && '.' !in n
  {
    forall j | 0 <= j < |n| ensures n[j] != '/' && n[j] != '.' {
      if j > 0 {
        assert IsNameChar(n[j]);
      }
    }
  }

  // ---------------------------------------------------------------------------
  // The names in use
  // ---------------------------------------------------------------------------

  /** For every directory or type, the names already given inside it. */
  type InUseNames = map<string, set<string>>

  /** The names in use under `key` (none when the key is absent). */
  function InUse(te: InUseNames, key: string): set<string> {
    if key in te then te[key] else {}
  }

  /** Some value of `vals` gives the name `x` under the key `k`. */
  predicate Yields(vals: seq<string>, f: string -> Result<(string, string)>, k: string, x: string) {
    exists v :: v in vals && f(v) == Ok((k, x))
  }

  /** Some value of `vals` is rejected. */
  predicate Rejects(vals: seq<string>, f: string -> Result<(string, string)>) {
    exists v :: v in vals && f(v).Err?
  }

  /** The value of some key of `d` gives the name `x` under the key `k`. */
  predicate YieldsIn(d: map<string, string>, f: string -> Result<(string, string)>, k: string, x: string) {
    exists key :: key in d && f(d[key]) == Ok((k, x))
  }

  /** The value of some key of `d` is rejected. */
  predicate RejectsIn(d: map<string, string>, f: string -> Result<(string, string)>) {
    exists key :: key in d && f(d[key]).Err?
  }

  /**
   * Records, for each value in turn, the name `f` reads from it under the key `f` reads
   * from it; the first value `f` rejects makes the whole fold fail with its error.
   */
  function SeedWith(te: InUseNames, vals: seq<string>, f: string -> Result<(string, string)>): (r: Result<InUseNames>)
    ensures r.Err? <==> Rejects(vals, f)
    ensures r.Err? ==> exists i :: 0 <= i < |vals| && f(vals[i]) == Err(r.error) && forall j :: 0 <= j < i ==> f(vals[j]).Ok?
    ensures r.Ok? ==> forall k, x :: x in InUse(r.value, k) <==>
      x in InUse(te, k) || Yields(vals, f, k, x)
    decreases |vals|
  {
    if |vals| == 0 then Ok(te)
    else
      var kx :- f(vals[0]);
      var rest := SeedWith(te[kx.0 := InUse(te, kx.0) + {kx.1}], vals[1..], f);
      SeedWithStep(te, vals, f, rest);
      rest
  }

  /** The first value's contribution followed by the rest's is the contribution of all values. */
  lemma SeedWithStep(te: InUseNames, vals: seq<string>, f: string -> Result<(string, string)>, rest: Result<InUseNames>)
    requires |vals| > 0 && f(vals[0]).Ok?
    requires var kx := f(vals[0]).value; var te' := te[kx.0 := InUse(te, kx.0) + {kx.1}];
      (rest.Err? <==> Rejects(vals[1..], f))
      && (rest.Err? ==> exists i :: 0 <= i < |vals[1..]| && f(vals[1..][i]) == Err(rest.error) && forall j :: 0 <= j < i ==> f(vals[1..][j]).Ok?)
      && (rest.Ok? ==> forall k, x :: x in InUse(rest.value, k) <==>
        x in InUse(te', k) || Yields(vals[1..], f, k, x))
    ensures rest.Err? <==> Rejects(vals, f)
    ensures rest.Err? ==> exists i :: 0 <= i < |vals| && f(vals[i]) == Err(rest.error) && forall j :: 0 <= j < i ==> f(vals[j]).Ok?
    ensures rest.Ok? ==> forall k, x :: x in InUse(rest.value, k) <==>
      x in InUse(te, k) || Yields(vals, f, k, x)
  {
    var tail := vals[1..];
    assert vals == [vals[0]] + tail;
    forall v ensures v in vals <==> v == vals[0] || v in tail { }
    if rest.Err? {
      var i :| 0 <= i < |tail| && f(tail[i]) == Err(rest.error) && forall j :: 0 <= j < i ==> f(tail[j]).Ok?;
      assert vals[i + 1] == tail[i];
      forall j | 0 <= j < i + 1 ensures f(vals[j]).Ok? {
        if j > 0 { assert vals[j] == tail[j - 1]; }
      }
    }
  }

  /** What a prior entry-file mapping contributes: its parent directory and its file prefix. */
  function FileSeed(path: string): (r: Result<(string, string)>)
    ensures r.Ok? ==> ParentFromZipFilePath(path) == Ok(r.value.0)
    ensures r.Ok? ==> NameFromZipFilePath(path).Ok? && FilePrefixByFileName(NameFromZipFilePath(path).value) == Ok(r.value.1)
    ensures r.Err? <==> ParentFromZipFilePath(path).Err? || FilePrefixByFileName(NameFromZipFilePath(path).value).Err?
  {
    var parent :- ParentFromZipFilePath(path);
    var name := NameFromZipFilePath(path).value;
    var prefix :- FilePrefixByFileName(name);
    Ok((parent, prefix))
  }

  /** What a prior resource mapping contributes: its type and its entry name. */
  function ResourceSeed(resourceName: string): (r: Result<(string, string)>)
    ensures r.Err? <==> ResourceParts(resourceName).Err?
    ensures r.Ok? ==> TypeNameByResourceName(resourceName) == Ok(r.value.0) && EntryNameByResourceName(resourceName) == Ok(r.value.1)
  {
    var name :- EntryNameByResourceName(resourceName);
    var typ := TypeNameByResourceName(resourceName).value;
    Ok((typ, name))
  }

  /** The values of a map along an enumeration of its keys. */
  function ValuesAlong(d: map<string, string>, keys: seq<string>): (r: seq<string>)
    requires forall i :: 0 <= i < |keys| ==> keys[i] in d
    ensures |r| == |keys| && forall i :: 0 <= i < |keys| ==> r[i] == d[keys[i]]
  {
    seq(|keys|, i requires 0 <= i < |keys| => d[keys[i]])
  }

  /** Along an enumeration of the keys, the values met are exactly the values of the keys. */
  lemma ValuesAlongAll(d: map<string, string>, keys: seq<string>)
    requires Enumerates(keys, d.Keys)
    ensures forall v :: v in ValuesAlong(d, keys) <==> exists key :: key in d && d[key] == v
  {
    var vs := ValuesAlong(d, keys);
    forall key | key in d ensures d[key] in vs {
      assert key in Elems(keys);
      var i :| 0 <= i < |keys| && keys[i] == key;
      assert vs[i] == d[key];
    }
  }

  /**
   * `generateObfuscatedEntryFilesFromMapping()`: the names a prior mapping already uses.
   * Every obfuscated entry path puts its file prefix under its parent directory, every
   * obfuscated resource name puts its entry name under its type; the keys are listed
   * in the enumeration order of the maps, which decides only which failure is reported.
   */
  function SeedInUse(m: Mapping, fk: seq<string>, rk: seq<string>): (r: Result<InUseNames>)
    requires Enumerates(fk, m.entryFiles.Keys) && Enumerates(rk, m.resources.Keys)
    ensures r.Err? <==>
      RejectsIn(m.entryFiles, FileSeed)
      || RejectsIn(m.resources, ResourceSeed)
    ensures r.Ok? ==> forall k, x :: x in InUse(r.value, k) <==>
      YieldsIn(m.entryFiles, FileSeed, k, x)
      || YieldsIn(m.resources, ResourceSeed, k, x)
  {
    SeedInUseFacts(m, fk, rk);
    SeedBoth(ValuesAlong(m.entryFiles, fk), ValuesAlong(m.resources, rk))
  }

  /** The two folds one after the other: entry files first, then resources. */
  function SeedBoth(fv: seq<string>, rv: seq<string>): Result<InUseNames> {
    var te :- SeedWith(map[], fv, FileSeed);
    SeedWith(te, rv, ResourceSeed)
  }

  lemma SeedInUseFacts(m: Mapping, fk: seq<string>, rk: seq<string>)
    requires Enumerates(fk, m.entryFiles.Keys) && Enumerates(rk, m.resources.Keys)
    ensures var r := SeedBoth(ValuesAlong(m.entryFiles, fk), ValuesAlong(m.resources, rk));
      (r.Err? <==>
        RejectsIn(m.entryFiles, FileSeed)
        || RejectsIn(m.resources, ResourceSeed))
      && (r.Ok? ==> forall k, x :: x in InUse(r.value, k) <==>
        YieldsIn(m.entryFiles, FileSeed, k, x)
        || YieldsIn(m.resources, ResourceSeed, k, x))
  {
    SeedErrFacts(m, fk, rk);
    SeedOkFacts(m, fk, rk);
  }

  lemma SeedErrFacts(m: Mapping, fk: seq<string>, rk: seq<string>)
    requires Enumerates(fk, m.entryFiles.Keys) && Enumerates(rk, m.resources.Keys)
    ensures var r := SeedBoth(ValuesAlong(m.entryFiles, fk), ValuesAlong(m.resources, rk));
      r.Err? <==>
        RejectsIn(m.entryFiles, FileSeed)
        || RejectsIn(m.resources, ResourceSeed)
  {
    var fv := ValuesAlong(m.entryFiles, fk);
    var rv := ValuesAlong(m.resources, rk);
    SeedValuesErr(m.entryFiles, fk, FileSeed);
    SeedValuesErr(m.resources, rk, ResourceSeed);
    var r1 := SeedWith(map[], fv, FileSeed);
    if r1.Ok? {
      assert SeedBoth(fv, rv) == SeedWith(r1.value, rv, ResourceSeed);
    }
  }

  lemma SeedOkFacts(m: Mapping, fk: seq<string>, rk: seq<string>)
    requires Enumerates(fk, m.entryFiles.Keys) && Enumerates(rk, m.resources.Keys)
    ensures var r := SeedBoth(ValuesAlong(m.entryFiles, fk), ValuesAlong(m.resources, rk));
      r.Ok? ==> forall k, x :: x in InUse(r.value, k) <==>
        YieldsIn(m.entryFiles, FileSeed, k, x)
        || YieldsIn(m.resources, ResourceSeed, k, x)
  {
    var fv := ValuesAlong(m.entryFiles, fk);
    var rv := ValuesAlong(m.resources, rk);
    var r1 := SeedWith(map[], fv, FileSeed);
    if r1.Ok? {
      var r2 := SeedWith(r1.value, rv, ResourceSeed);
      assert SeedBoth(fv, rv) == r2;
      if r2.Ok? {
        forall k, x ensures x in InUse(r2.value, k) <==>
          YieldsIn(m.entryFiles, FileSeed, k, x)
          || YieldsIn(m.resources, ResourceSeed, k, x)
        {
          SeedValuesOk(m.entryFiles, fk, FileSeed, k, x);
          SeedValuesOk(m.resources, rk, ResourceSeed, k, x);
        }
      }
    }
  }

  /** A failure met along an enumeration of the keys is a failure on the value of one of the keys. */
  lemma SeedValuesErr(d: map<string, string>, keys: seq<string>, f: string -> Result<(string, string)>)
    requires Enumerates(keys, d.Keys)
    ensures Rejects(ValuesAlong(d, keys), f) <==> RejectsIn(d, f)
  {
    ValuesAlongAll(d, keys);
  }

  /** A contribution met along an enumeration of the keys is the contribution of the value of one of the keys. */
  lemma SeedValuesOk(d: map<string, string>, keys: seq<string>, f: string -> Result<(string, string)>, k: string, x: string)
    requires Enumerates(keys, d.Keys)
    ensures Yields(ValuesAlong(d, keys), f, k, x) <==> YieldsIn(d, f, k, x)
  {
    ValuesAlongAll(d, keys);
  }

  // ---------------------------------------------------------------------------
  // The mapping rules
  // ---------------------------------------------------------------------------

  /** `checkResMappingRules()`: every obfuscated directory must lie under "res". */
  function CheckResMappingRules(m: Mapping): (r: Result<()>)
    ensures r.Ok? <==> forall v :: v in m.dirs.Values ==> StartsWithDir(CreatePath(v), ResourcesDirectory)
    ensures r.Err? ==> r.error == IllegalArgument
  {
    if forall v :: v in m.dirs.Values ==> StartsWithDir(CreatePath(v), ResourcesDirectory) then Ok(())
    else Err(IllegalArgument)
  }

  /** A directory the directory pass creates, "res/" followed by a plain name, lies under "res". */
  lemma MintedDirUnderRes(n: string)
    requires n != [] && '/' !in n
    ensures CreatePath(ResourcesDirectory + "/" + n).names == [ResourcesDirectory, n]
    ensures StartsWithDir(CreatePath(ResourcesDirectory + "/" + n), ResourcesDirectory)
  {
    TokensCons(ResourcesDirectory, n);
    TokensOfPlain(n);
    TokensOfPlain(ResourcesDirectory);
    var keep := (x: string) => x != [];
    FilterAll([ResourcesDirectory, n], keep);
    FilterAll([ResourcesDirectory], keep);
  }

  /** The names of "res" are just "res". */
  lemma ResDirNames()
    ensures CreatePath(ResourcesDirectory).names == [ResourcesDirectory]
  {
    TokensOfPlain(ResourcesDirectory);
    FilterAll([ResourcesDirectory], (x: string) => x != []);
  }

  // ---------------------------------------------------------------------------
  // The directory pass
  // ---------------------------------------------------------------------------

  /** A directory value the pass makes: "res/" and a minted name. */
  ghost predicate MintedDir(v: string) {
    exists n :: WellFormedName(n) && v == ResourcesDirectory + "/" + n
  }

  /**
   * One referenced file of the directory pass: its parent directory, unless it has a
   * mapping already, gets "res/" followed by the first name not yet the last piece of
   * a directory value. Computing those names fails on a value made only of slashes.
   */
  function DirStep(pool: seq<string>, m: Mapping, ref: ZipPath): (r: Result<Mapping>)
    requires FullPool(pool)
    ensures r.Err? ==> r.error == IndexOutOfBounds
    ensures PathMappingNameList(m).Ok? ==> r.Ok? && PathMappingNameList(r.value).Ok?
    ensures r.Ok? ==> r.value.(dirs := m.dirs) == m
    ensures r.Ok? ==> forall k :: k in m.dirs ==> k in r.value.dirs && r.value.dirs[k] == m.dirs[k]
    ensures r.Ok? && Parent(ref).Some? ==> PathText(Parent(ref).value) in r.value.dirs
    ensures r.Ok? ==> forall k :: k in r.value.dirs && k !in m.dirs ==>
      Parent(ref).Some? && k == PathText(Parent(ref).value) && PathMappingNameList(m).Ok?
      && r.value.dirs[k] == ResourcesDirectory + "/" + Mint(pool, PathMappingNameList(m).value)
  {
    match Parent(ref)
    case None => Ok(m)
    case Some(dir) =>
      var key := PathText(dir);
      if key in m.dirs then Ok(m)
      else
        var names :- PathMappingNameList(m);
        var n := Mint(pool, names);
        NameIsPlain(n);
        DirNameListed(m, key, ResourcesDirectory, n);
        Ok(PutDirMapping(m, key, ResourcesDirectory + "/" + n))
  }

  /**
   * The directory pass over the file references of a table, in table order: afterwards
   * every referenced parent directory has a mapping, the mappings that existed are
   * untouched, every new one is "res/" and a minted name, and nothing else changes.
   */
  function DirPass(pool: seq<string>, m: Mapping, refs: seq<ZipPath>): (r: Result<Mapping>)
    requires FullPool(pool)
    ensures r.Err? ==> r.error == IndexOutOfBounds
    ensures PathMappingNameList(m).Ok? ==> r.Ok?
    ensures r.Ok? ==> r.value.(dirs := m.dirs) == m
    ensures r.Ok? ==> forall k :: k in m.dirs ==> k in r.value.dirs && r.value.dirs[k] == m.dirs[k]
    ensures r.Ok? ==> forall i :: 0 <= i < |refs| && Parent(refs[i]).Some? ==> PathText(Parent(refs[i]).value) in r.value.dirs
    ensures r.Ok? ==> forall k :: k in r.value.dirs && k !in m.dirs ==> MintedDir(r.value.dirs[k])
    decreases |refs|
  {
    if |refs| == 0 then Ok(m)
    else
      var m1 :- DirStep(pool, m, refs[0]);
      var r := DirPass(pool, m1, refs[1..]);
      DirPassStep(pool, m, refs, m1, r);
      r
  }

  lemma DirPassStep(pool: seq<string>, m: Mapping, refs: seq<ZipPath>, m1: Mapping, r: Result<Mapping>)
    requires FullPool(pool)
    requires |refs| > 0 && DirStep(pool, m, refs[0]) == Ok(m1)
    requires r.Ok? ==> r.value.(dirs := m1.dirs) == m1
    requires r.Ok? ==> forall k :: k in m1.dirs ==> k in r.value.dirs && r.value.dirs[k] == m1.dirs[k]
    requires r.Ok? ==> forall i :: 0 <= i < |refs[1..]| && Parent(refs[1..][i]).Some? ==> PathText(Parent(refs[1..][i]).value) in r.value.dirs
    requires r.Ok? ==> forall k :: k in r.value.dirs && k !in m1.dirs ==> MintedDir(r.value.dirs[k])
    ensures r.Ok? ==> r.value.(dirs := m.dirs) == m
    ensures r.Ok? ==> forall k :: k in m.dirs ==> k in r.value.dirs && r.value.dirs[k] == m.dirs[k]
    ensures r.Ok? ==> forall i :: 0 <= i < |refs| && Parent(refs[i]).Some? ==> PathText(Parent(refs[i]).value) in r.value.dirs
    ensures r.Ok? ==> forall k :: k in r.value.dirs && k !in m.dirs ==> MintedDir(r.value.dirs[k])
  {
    if r.Ok? {
      forall i | 0 <= i < |refs| && Parent(refs[i]).Some? ensures PathText(Parent(refs[i]).value) in r.value.dirs {
        if i > 0 {
          assert refs[i] == refs[1..][i - 1];
        }
      }
      forall k | k in r.value.dirs && k !in m.dirs ensures MintedDir(r.value.dirs[k]) {
        if k in m1.dirs {
          var n := Mint(pool, PathMappingNameList(m).value);
          assert r.value.dirs[k] == ResourcesDirectory + "/" + n;
        }
      }
    }
  }

  /** The last piece of a directory value, or nothing when the value is made only of slashes. */
  function SimpleOrEmpty(v: string): string {
    if ResourceSimpleName(v).Ok? then ResourceSimpleName(v).value else ""
  }

  /** A map has at least as many keys as its values have last pieces. */
  lemma {:induction false} SimpleNamesSize(d: map<string, string>)
    ensures |set j | j in d :: SimpleOrEmpty(d[j])| <= |d|
    decreases |d|
  {
    if |d| > 0 {
      var k :| k in d;
      var d' := d - {k};
      assert d'.Keys == d.Keys - {k};
      SimpleNamesSize(d');
      var a := set j | j in d :: SimpleOrEmpty(d[j]);
      var b := set j | j in d' :: SimpleOrEmpty(d'[j]);
      forall x | x in a ensures x in b + {SimpleOrEmpty(d[k])} {
        var j :| j in d && SimpleOrEmpty(d[j]) == x;
        if j != k {
          assert j in d' && d'[j] == d[j];
        }
      }
      SubsetSize(a, b + {SimpleOrEmpty(d[k])});
    }
  }

  lemma SubsetSize(a: set<string>, b: set<string>)
    requires a <= b
    ensures |a| <= |b|
  {
    assert b == a + (b - a);
  }

  /** There are no more directory names in use than directory mappings. */
  lemma NameListSize(m: Mapping)
    requires PathMappingNameList(m).Ok?
    ensures |PathMappingNameList(m).value| <= |m.dirs|
  {
    var names := PathMappingNameList(m).value;
    var a := set k | k in m.dirs :: SimpleOrEmpty(m.dirs[k]);
    forall x | x in names ensures x in a {
      var v :| v in m.dirs.Values && ResourceSimpleName(v) == Ok(x);
      var k :| k in m.dirs && m.dirs[k] == v;
      assert SimpleOrEmpty(m.dirs[k]) == x;
    }
    SimpleNamesSize(m.dirs);
    SubsetSize(names, a);
  }

  /** The directories added since `m0` have last pieces that no other directory of `m` has. */
  predicate FreshDirs(m0: Mapping, m: Mapping) {
    forall k1, k2 :: k1 in m.dirs && k1 !in m0.dirs && k2 in m.dirs && k2 != k1 ==>
      ResourceSimpleName(m.dirs[k1]) != ResourceSimpleName(m.dirs[k2])
  }

  /** One step keeps the new directories' names apart, while the pool is not used up. */
  lemma DirStepFresh(pool: seq<string>, m0: Mapping, m: Mapping, ref: ZipPath)
    requires FullPool(pool)
    requires FreshDirs(m0, m) && PathMappingNameList(m).Ok? && |m.dirs| < PoolSize
    ensures DirStep(pool, m, ref).Ok?
    ensures FreshDirs(m0, DirStep(pool, m, ref).value)
    ensures |DirStep(pool, m, ref).value.dirs| <= |m.dirs| + 1
  {
    match Parent(ref)
    case None =>
    case Some(dir) =>
      var key := PathText(dir);
      if key !in m.dirs {
        var names := PathMappingNameList(m).value;
        var n := Mint(pool, names);
        NameListSize(m);
        assert n !in names;
        FreshAfterPut(m0, m, key, n);
      }
  }

  /** Adding a directory "res/n" under a new key, for a name `n` not in use, keeps the new directories apart. */
  lemma FreshAfterPut(m0: Mapping, m: Mapping, key: string, n: string)
    requires FreshDirs(m0, m) && PathMappingNameList(m).Ok? && key !in m.dirs
    requires WellFormedName(n) && n !in PathMappingNameList(m).value
    ensures FreshDirs(m0, PutDirMapping(m, key, ResourcesDirectory + "/" + n))
  {
    var r := PutDirMapping(m, key, ResourcesDirectory + "/" + n);
    NameIsPlain(n);
    SimpleNameOfDirPath(ResourcesDirectory, n);
    forall k | k in m.dirs ensures ResourceSimpleName(m.dirs[k]) != Ok(n) {
      assert m.dirs[k] in m.dirs.Values;
    }
    forall k1, k2 | k1 in r.dirs && k1 !in m0.dirs && k2 in r.dirs && k2 != k1
      ensures ResourceSimpleName(r.dirs[k1]) != ResourceSimpleName(r.dirs[k2])
    {
      if k1 == key {
        assert r.dirs[k2] == m.dirs[k2];
      } else if k2 == key {
        assert r.dirs[k1] == m.dirs[k1];
      } else {
        assert r.dirs[k1] == m.dirs[k1] && r.dirs[k2] == m.dirs[k2];
      }
    }
  }

  /**
   * While fewer directories are mapped, plus references still to visit, than the pool
   * holds, the directory pass succeeds and every directory it adds gets a last piece
   * that no other directory has: a minted directory name is never handed out twice.
   */
  lemma {:induction false} DirPassFresh(pool: seq<string>, m0: Mapping, m: Mapping, refs: seq<ZipPath>)
    requires FullPool(pool)
    requires FreshDirs(m0, m) && PathMappingNameList(m).Ok? && |m.dirs| + |refs| < PoolSize
    ensures DirPass(pool, m, refs).Ok? && FreshDirs(m0, DirPass(pool, m, refs).value)
    decreases |refs|
  {
    if |refs| > 0 {
      DirStepFresh(pool, m0, m, refs[0]);
      DirPassFresh(pool, m0, DirStep(pool, m, refs[0]).value, refs[1..]);
    }
  }

  /** From a mapping whose directory names can be listed, the pass mints only distinct directory names. */
  lemma DirPassMintsDistinct(pool: seq<string>, m: Mapping, refs: seq<ZipPath>)
    requires FullPool(pool)
    requires PathMappingNameList(m).Ok? && |m.dirs| + |refs| < PoolSize
    ensures DirPass(pool, m, refs).Ok? && FreshDirs(m, DirPass(pool, m, refs).value)
  {
    DirPassFresh(pool, m, m, refs);
  }

  /** A pass that starts from directories under "res" leaves every directory under "res". */
  lemma DirPassKeepsRules(pool: seq<string>, m: Mapping, refs: seq<ZipPath>)
    requires FullPool(pool)
    requires CheckResMappingRules(m).Ok? && DirPass(pool, m, refs).Ok?
    ensures CheckResMappingRules(DirPass(pool, m, refs).value).Ok?
  {
    var r := DirPass(pool, m, refs).value;
    forall v | v in r.dirs.Values ensures StartsWithDir(CreatePath(v), ResourcesDirectory) {
      var k :| k in r.dirs && r.dirs[k] == v;
      if k in m.dirs {
        assert v in m.dirs.Values;
      } else {
        var n :| WellFormedName(n) && v == ResourcesDirectory + "/" + n;
        NameIsPlain(n);
        MintedDirUnderRes(n);
      }
    }
  }

  // ---------------------------------------------------------------------------
  // The entry pass
  // ---------------------------------------------------------------------------

  /** `getResourceFullName(entry)`: "package.R.type.entry" of a table entry. */
  function FullName(x: TableEntry): string {
    ResourceFullName(x.pkg.name, x.typ.name, x.entry.name)
  }

  /**
   * One entry of the resource pass, given the names `list` in use in its type. A mapped
   * resource that is now whitelisted leaves the mapping; a mapped one that is not keeps
   * its name, whose entry part joins `list`; an unmapped whitelisted one stays unmapped;
   * any other gets "package.R.type.n" for the first name `n` not in `list`, and `n`
   * joins `list`.
   */
  function EntryChoice(pool: seq<string>, m: Mapping, list: set<string>, x: TableEntry, rules: seq<string>): (r: Result<(Mapping, set<string>)>)
    requires FullPool(pool)
    requires SupportedRules(Some(rules))
    ensures r.Ok? ==> r.value.0.(resources := m.resources) == m
    ensures r.Ok? ==> list <= r.value.1
  {
    var name := FullName(x);
    if name in m.resources then
      if Exempt(name, rules) then Ok((m.(resources := m.resources - {name}), list))
      else
        var entryName :- EntryNameByResourceName(m.resources[name]);
        Ok((m, list + {entryName}))
    else if Exempt(name, rules) then Ok((m, list))
    else
      var n := Mint(pool, list);
      var m' :- PutResourceMapping(m, name, ResourceFullName(x.pkg.name, x.typ.name, n));
      Ok((m', list + {n}))
  }

  /** The step with the names in use of the entry's type read from, and written back to, `te`. */
  function EntryStep(pool: seq<string>, m: Mapping, te: InUseNames, x: TableEntry, rules: seq<string>): (r: Result<(Mapping, InUseNames)>)
    requires FullPool(pool)
    requires SupportedRules(Some(rules))
    ensures r.Ok? ==> r.value.0.(resources := m.resources) == m
    ensures r.Ok? ==> forall k :: InUse(te, k) <= InUse(r.value.1, k)
    ensures r.Ok? ==> r.value.1 == te[x.typ.name := InUse(r.value.1, x.typ.name)]
  {
    var (m', list) :- EntryChoice(pool, m, InUse(te, x.typ.name), x, rules);
    Ok((m', te[x.typ.name := list]))
  }

  /**
   * After a step the entry is mapped exactly when it is not whitelisted, and every other
   * resource keeps its mapping.
   */
  lemma EntryStepMaps(pool: seq<string>, m: Mapping, te: InUseNames, x: TableEntry, rules: seq<string>)
    requires FullPool(pool)
    requires SupportedRules(Some(rules)) && EntryStep(pool, m, te, x, rules).Ok?
    ensures var d := EntryStep(pool, m, te, x, rules).value.0.resources;
      (FullName(x) in d <==> !Exempt(FullName(x), rules))
      && forall k :: k != FullName(x) ==> (k in d <==> k in m.resources) && (k in m.resources ==> d[k] == m.resources[k])
  {
  }

  /** A mapped entry that stays keeps its name; its entry name is then in use in its type. */
  lemma EntryStepReuses(pool: seq<string>, m: Mapping, te: InUseNames, x: TableEntry, rules: seq<string>)
    requires FullPool(pool)
    requires SupportedRules(Some(rules)) && EntryStep(pool, m, te, x, rules).Ok?
    requires FullName(x) in m.resources && !Exempt(FullName(x), rules)
    ensures var r := EntryStep(pool, m, te, x, rules).value;
      r.0.resources[FullName(x)] == m.resources[FullName(x)]
      && EntryNameByResourceName(m.resources[FullName(x)]).Ok?
      && EntryNameByResourceName(m.resources[FullName(x)]).value in InUse(r.1, x.typ.name)
  {
    var list := InUse(te, x.typ.name);
    var e := EntryNameByResourceName(m.resources[FullName(x)]);
    assert EntryChoice(pool, m, list, x, rules) == Ok((m, list + {e.value}));
  }

  /** An unmapped entry that is not whitelisted gets the first free name of its type, which is then in use. */
  lemma EntryStepMints(pool: seq<string>, m: Mapping, te: InUseNames, x: TableEntry, rules: seq<string>)
    requires FullPool(pool)
    requires SupportedRules(Some(rules)) && EntryStep(pool, m, te, x, rules).Ok?
    requires FullName(x) !in m.resources && !Exempt(FullName(x), rules)
    ensures var r := EntryStep(pool, m, te, x, rules).value; var n := Mint(pool, InUse(te, x.typ.name));
      FullName(x) in r.0.resources && r.0.resources[FullName(x)] == ResourceFullName(x.pkg.name, x.typ.name, n)
      && n in InUse(r.1, x.typ.name)
  {
    var list := InUse(te, x.typ.name);
    var n := Mint(pool, list);
    var p := PutResourceMapping(m, FullName(x), ResourceFullName(x.pkg.name, x.typ.name, n));
    assert EntryChoice(pool, m, list, x, rules) == Ok((p.value, list + {n}));
  }

  /**
   * A step fails exactly when the entry is not whitelisted and either its recorded name
   * has no entry part, or the name it would get is already some resource's name.
   */
  lemma EntryStepFails(pool: seq<string>, m: Mapping, te: InUseNames, x: TableEntry, rules: seq<string>)
    requires FullPool(pool)
    requires SupportedRules(Some(rules))
    ensures EntryStep(pool, m, te, x, rules).Err? <==> (!Exempt(FullName(x), rules) &&
      if FullName(x) in m.resources then EntryNameByResourceName(m.resources[FullName(x)]).Err?
       else ResourceFullName(x.pkg.name, x.typ.name, Mint(pool, InUse(te, x.typ.name))) in m.resources.Values)
  {
    var list := InUse(te, x.typ.name);
    var c := EntryChoice(pool, m, list, x, rules);
    assert EntryStep(pool, m, te, x, rules).Err? <==> c.Err?;
    if FullName(x) !in m.resources && !Exempt(FullName(x), rules) {
      var p := PutResourceMapping(m, FullName(x), ResourceFullName(x.pkg.name, x.typ.name, Mint(pool, list)));
      assert c.Err? <==> p.Err?;
    }
  }

  /** No step gives two resources the same obfuscated name. */
  lemma EntryStepInjective(pool: seq<string>, m: Mapping, te: InUseNames, x: TableEntry, rules: seq<string>)
    requires FullPool(pool)
    requires SupportedRules(Some(rules)) && EntryStep(pool, m, te, x, rules).Ok? && Injective(m.resources)
    ensures Injective(EntryStep(pool, m, te, x, rules).value.0.resources)
  {
  }

  /** The entries of a table in order, each through `EntryStep`; the first failure ends the pass. */
  function EntryPass(pool: seq<string>, m: Mapping, te: InUseNames, es: seq<TableEntry>, rules: seq<string>): (r: Result<(Mapping, InUseNames)>)
    requires FullPool(pool)
    requires SupportedRules(Some(rules))
    ensures r.Ok? ==> r.value.0.(resources := m.resources) == m
    ensures r.Ok? ==> forall k :: InUse(te, k) <= InUse(r.value.1, k)
    decreases |es|
  {
    if |es| == 0 then Ok((m, te))
    else
      var (m1, te1) :- EntryStep(pool, m, te, es[0], rules);
      EntryPass(pool, m1, te1, es[1..], rules)
  }

  /** The full names of the entries. */
  function NamesOf(es: seq<TableEntry>): set<string> {
    set i | 0 <= i < |es| :: FullName(es[i])
  }

  lemma NamesOfCons(es: seq<TableEntry>)
    requires |es| > 0
    ensures NamesOf(es) == {FullName(es[0])} + NamesOf(es[1..])
  {
    forall k | k in NamesOf(es) ensures k in {FullName(es[0])} + NamesOf(es[1..]) {
      var i :| 0 <= i < |es| && FullName(es[i]) == k;
      if i > 0 {
        assert FullName(es[1..][i - 1]) == k;
      }
    }
    forall k | k in NamesOf(es[1..]) ensures k in NamesOf(es) {
      var i :| 0 <= i < |es[1..]| && FullName(es[1..][i]) == k;
      assert FullName(es[i + 1]) == k;
    }
  }

  /** A resource no entry names keeps its place, mapped or not, and its obfuscated name. */
  lemma {:induction false} EntryPassOthers(pool: seq<string>, m: Mapping, te: InUseNames, es: seq<TableEntry>, rules: seq<string>, k: string)
    requires FullPool(pool)
    requires SupportedRules(Some(rules)) && EntryPass(pool, m, te, es, rules).Ok?
    requires k !in NamesOf(es)
    ensures var d := EntryPass(pool, m, te, es, rules).value.0.resources;
      (k in d <==> k in m.resources) && (k in m.resources ==> d[k] == m.resources[k])
    decreases |es|
  {
    if |es| > 0 {
      NamesOfCons(es);
      var (m1, te1) := EntryStep(pool, m, te, es[0], rules).value;
      EntryStepMaps(pool, m, te, es[0], rules);
      EntryPassOthers(pool, m1, te1, es[1..], rules, k);
    }
  }

  /** After the pass every entry is mapped exactly when it is not whitelisted. */
  lemma {:induction false} EntryPassCovers(pool: seq<string>, m: Mapping, te: InUseNames, es: seq<TableEntry>, rules: seq<string>)
    requires FullPool(pool)
    requires SupportedRules(Some(rules)) && EntryPass(pool, m, te, es, rules).Ok?
    ensures var d := EntryPass(pool, m, te, es, rules).value.0.resources;
      forall i :: 0 <= i < |es| ==> (FullName(es[i]) in d <==> !Exempt(FullName(es[i]), rules))
    decreases |es|
  {
    if |es| > 0 {
      var (m1, te1) := EntryStep(pool, m, te, es[0], rules).value;
      var d := EntryPass(pool, m, te, es, rules).value.0.resources;
      assert d == EntryPass(pool, m1, te1, es[1..], rules).value.0.resources;
      EntryStepMaps(pool, m, te, es[0], rules);
      EntryPassCovers(pool, m1, te1, es[1..], rules);
      forall i | 0 <= i < |es| ensures FullName(es[i]) in d <==> !Exempt(FullName(es[i]), rules) {
        if i > 0 {
          assert es[i] == es[1..][i - 1];
        } else if FullName(es[0]) in NamesOf(es[1..]) {
          var j :| 0 <= j < |es[1..]| && FullName(es[1..][j]) == FullName(es[0]);
        } else {
          EntryPassOthers(pool, m1, te1, es[1..], rules, FullName(es[0]));
        }
      }
    }
  }

  /**
   * A resource mapped before and after the pass keeps its obfuscated name: names once
   * given are never changed, only dropped.
   */
  lemma {:induction false} EntryPassKeeps(pool: seq<string>, m: Mapping, te: InUseNames, es: seq<TableEntry>, rules: seq<string>)
    requires FullPool(pool)
    requires SupportedRules(Some(rules)) && EntryPass(pool, m, te, es, rules).Ok?
    ensures var d := EntryPass(pool, m, te, es, rules).value.0.resources;
      forall k :: k in d && k in m.resources ==> d[k] == m.resources[k]
    decreases |es|
  {
    if |es| > 0 {
      var (m1, te1) := EntryStep(pool, m, te, es[0], rules).value;
      var d := EntryPass(pool, m, te, es, rules).value.0.resources;
      assert d == EntryPass(pool, m1, te1, es[1..], rules).value.0.resources;
      EntryStepMaps(pool, m, te, es[0], rules);
      EntryPassKeeps(pool, m1, te1, es[1..], rules);
      forall k | k in d && k in m.resources ensures d[k] == m.resources[k] {
        if k == FullName(es[0]) {
          EntryPassDrops(pool, m1, te1, es[1..], rules, k);
          EntryStepReuses(pool, m, te, es[0], rules);
        }
      }
    }
  }

  /** A whitelisted resource unmapped before a pass is unmapped after it. */
  lemma EntryPassDrops(pool: seq<string>, m: Mapping, te: InUseNames, es: seq<TableEntry>, rules: seq<string>, k: string)
    requires FullPool(pool)
    requires SupportedRules(Some(rules)) && EntryPass(pool, m, te, es, rules).Ok?
    ensures k !in m.resources && Exempt(k, rules) ==> k !in EntryPass(pool, m, te, es, rules).value.0.resources
  {
    if k !in m.resources && Exempt(k, rules) {
      if k in NamesOf(es) {
        EntryPassCovers(pool, m, te, es, rules);
        var j :| 0 <= j < |es| && FullName(es[j]) == k;
      } else {
        EntryPassOthers(pool, m, te, es, rules, k);
      }
    }
  }

  /** A resource absent before a pass and present after it was named by some entry. */
  lemma {:induction false} EntryPassOthersIn(pool: seq<string>, m: Mapping, te: InUseNames, es: seq<TableEntry>, rules: seq<string>, k: string)
    requires FullPool(pool)
    requires SupportedRules(Some(rules)) && EntryPass(pool, m, te, es, rules).Ok?
    requires k in EntryPass(pool, m, te, es, rules).value.0.resources && k !in m.resources
    ensures k in NamesOf(es)
  {
    if k !in NamesOf(es) {
      EntryPassOthers(pool, m, te, es, rules, k);
    }
  }

  /** The pass never gives two resources the same obfuscated name. */
  lemma {:induction false} EntryPassInjective(pool: seq<string>, m: Mapping, te: InUseNames, es: seq<TableEntry>, rules: seq<string>)
    requires FullPool(pool)
    requires SupportedRules(Some(rules)) && EntryPass(pool, m, te, es, rules).Ok? && Injective(m.resources)
    ensures Injective(EntryPass(pool, m, te, es, rules).value.0.resources)
    decreases |es|
  {
    if |es| > 0 {
      var (m1, te1) := EntryStep(pool, m, te, es[0], rules).value;
      EntryStepInjective(pool, m, te, es[0], rules);
      EntryPassInjective(pool, m1, te1, es[1..], rules);
    }
  }

  // ---------------------------------------------------------------------------
  // The entry-file pass
  // ---------------------------------------------------------------------------

  /** The key an entry file is recorded under: "module/path". */
  function RawPath(moduleName: string, p: ZipPath): string {
    moduleName + "/" + PathText(p)
  }

  /** Every recorded file path lies where the ledger says: the two maps agree on the keys of `out`. */
  predicate Agrees(out: map<string, string>, files: map<string, string>) {
    forall k :: k in out ==> k in files && files[k] == out[k]
  }

  /**
   * The new path of one resource file, given the names `list` in use in its obfuscated
   * directory `obfDir`: the recorded one when there is one; none for an unrecorded
   * whitelisted file; otherwise `obfDir/n` plus the file's suffix for the first name `n`
   * not in `list`, which is recorded, and `n` joins `list`.
   */
  function FileChoice(pool: seq<string>, m: Mapping, list: set<string>, obfDir: string, raw: string, path: ZipPath, rules: seq<string>)
    : (r: Result<Option<(Mapping, set<string>, string)>>)
    requires FullPool(pool)
    requires SupportedRules(Some(rules))
    ensures r.Ok? && r.value.Some? ==> r.value.value.0.(entryFiles := m.entryFiles) == m && list <= r.value.value.1
    ensures r.Ok? && r.value.Some? ==> raw in r.value.value.0.entryFiles && r.value.value.0.entryFiles[raw] == r.value.value.2
  {
    if raw in m.entryFiles then Ok(Some((m, list, m.entryFiles[raw])))
    else if Exempt(raw, rules) then Ok(None)
    else
      var suffix :- FileSuffix(path);
      var n := Mint(pool, list);
      var obf := obfDir + "/" + n + suffix;
      Ok(Some((PutEntryFileMapping(m, raw, obf), list + {n}, obf)))
  }

  /**
   * One resource file of a module: its directory must have an obfuscated name; its new
   * path must not be one already given to another file of the module.
   */
  function FileStep(pool: seq<string>, m: Mapping, te: InUseNames, out: map<string, string>, moduleName: string, e: ModuleEntry, rules: seq<string>)
    : (r: Result<(Mapping, InUseNames, map<string, string>)>)
    requires FullPool(pool)
    requires SupportedRules(Some(rules))
    ensures r.Ok? ==> r.value.0.(entryFiles := m.entryFiles) == m
    ensures r.Ok? ==> forall k :: InUse(te, k) <= InUse(r.value.1, k)
  {
    match Parent(e.path)
    case None => Err(RuntimeFailure)
    case Some(p) =>
      if PathText(p) !in m.dirs then Err(RuntimeFailure)
      else
        var obfDir := m.dirs[PathText(p)];
        var raw := RawPath(moduleName, e.path);
        var c :- FileChoice(pool, m, InUse(te, obfDir), obfDir, raw, e.path, rules);
        match c
        case None => Ok((m, te, out))
        case Some((m', list, obf)) =>
          if obf in out.Values then Err(IllegalArgument)
          else Ok((m', te[obfDir := list], out[raw := obf]))
  }

  /** The path a resource file gets when it is new to the ledger: `obfDir/n` and its suffix, for the first free `n`. */
  function MintedPath(pool: seq<string>, m: Mapping, te: InUseNames, p: ZipPath): string
    requires FullPool(pool)
    requires Parent(p).Some? && PathText(Parent(p).value) in m.dirs && FileSuffix(p).Ok?
  {
    var obfDir := m.dirs[PathText(Parent(p).value)];
    obfDir + "/" + Mint(pool, InUse(te, obfDir)) + FileSuffix(p).value
  }

  /**
   * When a file step fails: a file with no directory, or whose directory has no
   * obfuscated name, is a runtime failure; otherwise the step fails exactly when the
   * file's suffix cannot be read for a new file, or its new path is already taken in
   * the module. An unrecorded whitelisted file is skipped.
   */
  lemma FileStepFails(pool: seq<string>, m: Mapping, te: InUseNames, out: map<string, string>, moduleName: string, e: ModuleEntry, rules: seq<string>)
    requires FullPool(pool)
    requires SupportedRules(Some(rules))
    ensures Parent(e.path).None? || PathText(Parent(e.path).value) !in m.dirs ==>
      FileStep(pool, m, te, out, moduleName, e, rules) == Err(RuntimeFailure)
    ensures Parent(e.path).Some? && PathText(Parent(e.path).value) in m.dirs && RawPath(moduleName, e.path) in m.entryFiles ==>
      (FileStep(pool, m, te, out, moduleName, e, rules).Err? <==> m.entryFiles[RawPath(moduleName, e.path)] in out.Values)
    ensures (Parent(e.path).Some? && PathText(Parent(e.path).value) in m.dirs && RawPath(moduleName, e.path) !in m.entryFiles
      && Exempt(RawPath(moduleName, e.path), rules)) ==> FileStep(pool, m, te, out, moduleName, e, rules) == Ok((m, te, out))
    ensures (Parent(e.path).Some? && PathText(Parent(e.path).value) in m.dirs && RawPath(moduleName, e.path) !in m.entryFiles
      && !Exempt(RawPath(moduleName, e.path), rules)) ==>
      (FileStep(pool, m, te, out, moduleName, e, rules).Err? <==>
        FileSuffix(e.path).Err? || MintedPath(pool, m, te, e.path) in out.Values)
  {
  }

  /** A step that records a new file has read the file's directory and suffix. */
  lemma FileStepShape(pool: seq<string>, m: Mapping, te: InUseNames, out: map<string, string>, moduleName: string, e: ModuleEntry, rules: seq<string>)
    requires FullPool(pool)
    requires SupportedRules(Some(rules)) && FileStep(pool, m, te, out, moduleName, e, rules).Ok?
    requires RawPath(moduleName, e.path) !in m.entryFiles && !Exempt(RawPath(moduleName, e.path), rules)
    ensures Parent(e.path).Some? && PathText(Parent(e.path).value) in m.dirs && FileSuffix(e.path).Ok?
  {
  }

  /** The result of a step that records a new file. */
  lemma FileStepNew(pool: seq<string>, m: Mapping, te: InUseNames, out: map<string, string>, moduleName: string, e: ModuleEntry, rules: seq<string>)
    requires FullPool(pool)
    requires SupportedRules(Some(rules)) && FileStep(pool, m, te, out, moduleName, e, rules).Ok?
    requires RawPath(moduleName, e.path) !in m.entryFiles && !Exempt(RawPath(moduleName, e.path), rules)
    requires Parent(e.path).Some? && PathText(Parent(e.path).value) in m.dirs && FileSuffix(e.path).Ok?
    ensures var obfDir := m.dirs[PathText(Parent(e.path).value)]; var list := InUse(te, obfDir);
      var raw := RawPath(moduleName, e.path); var obf := MintedPath(pool, m, te, e.path);
      FileStep(pool, m, te, out, moduleName, e, rules)
        == Ok((PutEntryFileMapping(m, raw, obf), te[obfDir := list + {Mint(pool, list)}], out[raw := obf]))
  {
    var obfDir := m.dirs[PathText(Parent(e.path).value)];
    var raw := RawPath(moduleName, e.path);
    var list := InUse(te, obfDir);
    var obf := MintedPath(pool, m, te, e.path);
    assert FileChoice(pool, m, list, obfDir, raw, e.path, rules) == Ok(Some((PutEntryFileMapping(m, raw, obf), list + {Mint(pool, list)}, obf)));
  }

  /** A new resource file gets the minted path, and the ledger records it. */
  lemma FileStepMints(pool: seq<string>, m: Mapping, te: InUseNames, out: map<string, string>, moduleName: string, e: ModuleEntry, rules: seq<string>)
    requires FullPool(pool)
    requires SupportedRules(Some(rules)) && FileStep(pool, m, te, out, moduleName, e, rules).Ok?
    requires RawPath(moduleName, e.path) !in m.entryFiles && !Exempt(RawPath(moduleName, e.path), rules)
    requires Parent(e.path).Some? && PathText(Parent(e.path).value) in m.dirs && FileSuffix(e.path).Ok?
    ensures var r := FileStep(pool, m, te, out, moduleName, e, rules).value; var raw := RawPath(moduleName, e.path);
      raw in r.2 && r.2[raw] == MintedPath(pool, m, te, e.path) && raw in r.0.entryFiles && r.0.entryFiles[raw] == r.2[raw]
  {
    FileStepNew(pool, m, te, out, moduleName, e, rules);
  }

  /** The name minted for a new resource file joins the names in use in its obfuscated directory. */
  lemma FileStepMintsInUse(pool: seq<string>, m: Mapping, te: InUseNames, out: map<string, string>, moduleName: string, e: ModuleEntry, rules: seq<string>)
    requires FullPool(pool)
    requires SupportedRules(Some(rules)) && FileStep(pool, m, te, out, moduleName, e, rules).Ok?
    requires RawPath(moduleName, e.path) !in m.entryFiles && !Exempt(RawPath(moduleName, e.path), rules)
    requires Parent(e.path).Some? && PathText(Parent(e.path).value) in m.dirs && FileSuffix(e.path).Ok?
    ensures var obfDir := m.dirs[PathText(Parent(e.path).value)];
      Mint(pool, InUse(te, obfDir)) in InUse(FileStep(pool, m, te, out, moduleName, e, rules).value.1, obfDir)
  {
    FileStepNew(pool, m, te, out, moduleName, e, rules);
  }

  /**
   * A file step keeps every recorded file; the only file it may record is its own, and
   * only when that file is not whitelisted; the only path it may add to the module's
   * new paths is its own.
   */
  lemma FileStepFrame(pool: seq<string>, m: Mapping, te: InUseNames, out: map<string, string>, moduleName: string, e: ModuleEntry, rules: seq<string>)
    requires FullPool(pool)
    requires SupportedRules(Some(rules)) && FileStep(pool, m, te, out, moduleName, e, rules).Ok?
    ensures var r := FileStep(pool, m, te, out, moduleName, e, rules).value;
      (forall k :: k in m.entryFiles ==> k in r.0.entryFiles && r.0.entryFiles[k] == m.entryFiles[k])
      && (forall k :: k in r.0.entryFiles && k !in m.entryFiles ==> k == RawPath(moduleName, e.path) && !Exempt(k, rules))
      && (forall k :: k in r.2 && k !in out ==> k == RawPath(moduleName, e.path))
  {
    var obfDir := m.dirs[PathText(Parent(e.path).value)];
    var raw := RawPath(moduleName, e.path);
    var list := InUse(te, obfDir);
    var c := FileChoice(pool, m, list, obfDir, raw, e.path, rules).value;
    if c.Some? {
      var (m', l, obf) := c.value;
      assert FileStep(pool, m, te, out, moduleName, e, rules) == Ok((m', te[obfDir := l], out[raw := obf]));
      if raw !in m.entryFiles {
        assert m' == PutEntryFileMapping(m, raw, obf);
      }
    }
  }

  /**
   * When the module's new paths agree with the ledger, a file step keeps them agreeing
   * and keeps every new path already given.
   */
  lemma FileStepAgrees(pool: seq<string>, m: Mapping, te: InUseNames, out: map<string, string>, moduleName: string, e: ModuleEntry, rules: seq<string>)
    requires FullPool(pool)
    requires SupportedRules(Some(rules)) && FileStep(pool, m, te, out, moduleName, e, rules).Ok? && Agrees(out, m.entryFiles)
    ensures var r := FileStep(pool, m, te, out, moduleName, e, rules).value;
      Agrees(r.2, r.0.entryFiles) && forall k :: k in out ==> k in r.2 && r.2[k] == out[k]
  {
    var obfDir := m.dirs[PathText(Parent(e.path).value)];
    var raw := RawPath(moduleName, e.path);
    var c := FileChoice(pool, m, InUse(te, obfDir), obfDir, raw, e.path, rules).value;
    if c.Some? {
      var (m', l, obf) := c.value;
      var r := (m', te[obfDir := l], out[raw := obf]);
      assert FileStep(pool, m, te, out, moduleName, e, rules) == Ok(r);
      assert forall k :: k in out ==> out[k] in out.Values;
      FileStepFrame(pool, m, te, out, moduleName, e, rules);
      forall k | k in r.2 ensures k in m'.entryFiles && m'.entryFiles[k] == r.2[k] {
        if k != raw {
          assert k in m.entryFiles;
        }
      }
    }
  }

  /** A file step never gives two files of the module the same new path. */
  lemma FileStepInjective(pool: seq<string>, m: Mapping, te: InUseNames, out: map<string, string>, moduleName: string, e: ModuleEntry, rules: seq<string>)
    requires FullPool(pool)
    requires SupportedRules(Some(rules)) && FileStep(pool, m, te, out, moduleName, e, rules).Ok? && Injective(out)
    ensures Injective(FileStep(pool, m, te, out, moduleName, e, rules).value.2)
  {
    var obfDir := m.dirs[PathText(Parent(e.path).value)];
    var raw := RawPath(moduleName, e.path);
    var c := FileChoice(pool, m, InUse(te, obfDir), obfDir, raw, e.path, rules).value;
    if c.Some? {
      var (m', l, obf) := c.value;
      assert FileStep(pool, m, te, out, moduleName, e, rules) == Ok((m', te[obfDir := l], out[raw := obf]));
      assert obf !in out.Values;
    }
  }

  /**
   * When the module's new paths agree with the ledger, a file step gives its own file a
   * new path exactly when the file is recorded or not whitelisted.
   */
  lemma FileStepCovers(pool: seq<string>, m: Mapping, te: InUseNames, out: map<string, string>, moduleName: string, e: ModuleEntry, rules: seq<string>)
    requires FullPool(pool)
    requires SupportedRules(Some(rules)) && FileStep(pool, m, te, out, moduleName, e, rules).Ok? && Agrees(out, m.entryFiles)
    ensures RawPath(moduleName, e.path) in FileStep(pool, m, te, out, moduleName, e, rules).value.2 <==>
      RawPath(moduleName, e.path) in m.entryFiles || !Exempt(RawPath(moduleName, e.path), rules)
  {
    var obfDir := m.dirs[PathText(Parent(e.path).value)];
    var raw := RawPath(moduleName, e.path);
    var c := FileChoice(pool, m, InUse(te, obfDir), obfDir, raw, e.path, rules).value;
    if c.Some? {
      var (m', l, obf) := c.value;
      assert FileStep(pool, m, te, out, moduleName, e, rules) == Ok((m', te[obfDir := l], out[raw := obf]));
    } else {
      assert FileStep(pool, m, te, out, moduleName, e, rules) == Ok((m, te, out));
    }
  }

  /** The keys of the resource files among `es`. */
  function ResRaws(moduleName: string, es: seq<ModuleEntry>): set<string> {
    set i | 0 <= i < |es| && IsResFile(es[i]) :: RawPath(moduleName, es[i].path)
  }

  /**
   * `obfuscateModuleEntries`: the resource files of a module in order, each through
   * `FileStep`; other entries are passed over. The first failure ends the pass.
   */
  function FilePass(pool: seq<string>, m: Mapping, te: InUseNames, out: map<string, string>, moduleName: string,
                    es: seq<ModuleEntry>, rules: seq<string>): (r: Result<(Mapping, InUseNames, map<string, string>)>)
    requires FullPool(pool) && SupportedRules(Some(rules))
    ensures r.Ok? ==> r.value.0.(entryFiles := m.entryFiles) == m
    ensures r.Ok? ==> forall k :: InUse(te, k) <= InUse(r.value.1, k)
    decreases |es|
  {
    if |es| == 0 then Ok((m, te, out))
    else if !IsResFile(es[0]) then FilePass(pool, m, te, out, moduleName, es[1..], rules)
    else
      var (m1, te1, out1) :- FileStep(pool, m, te, out, moduleName, es[0], rules);
      FilePass(pool, m1, te1, out1, moduleName, es[1..], rules)
  }

  lemma ResRawsCons(moduleName: string, es: seq<ModuleEntry>)
    requires |es| > 0
    ensures ResRaws(moduleName, es) ==
      (if IsResFile(es[0]) then {RawPath(moduleName, es[0].path)} else {}) + ResRaws(moduleName, es[1..])
  {
    var a := ResRaws(moduleName, es);
    var b := ResRaws(moduleName, es[1..]);
    forall k | k in a ensures k in (if IsResFile(es[0]) then {RawPath(moduleName, es[0].path)} else {}) + b {
      var i :| 0 <= i < |es| && IsResFile(es[i]) && RawPath(moduleName, es[i].path) == k;
      if i > 0 {
        assert es[1..][i - 1] == es[i];
      }
    }
    forall k | k in b ensures k in a {
      var i :| 0 <= i < |es[1..]| && IsResFile(es[1..][i]) && RawPath(moduleName, es[1..][i].path) == k;
      assert es[i + 1] == es[1..][i];
    }
  }

  /**
   * The pass keeps every recorded file; it records only resource files of the module
   * that are not whitelisted, and gives new paths only to resource files of the module.
   */
  lemma {:induction false} FilePassFrame(pool: seq<string>, m: Mapping, te: InUseNames, out: map<string, string>,
                                         moduleName: string, es: seq<ModuleEntry>, rules: seq<string>)
    requires FullPool(pool) && SupportedRules(Some(rules)) && FilePass(pool, m, te, out, moduleName, es, rules).Ok?
    ensures var r := FilePass(pool, m, te, out, moduleName, es, rules).value;
      (forall k :: k in m.entryFiles ==> k in r.0.entryFiles && r.0.entryFiles[k] == m.entryFiles[k])
      && (forall k :: k in r.0.entryFiles && k !in m.entryFiles ==> k in ResRaws(moduleName, es) && !Exempt(k, rules))
      && (forall k :: k in r.2 && k !in out ==> k in ResRaws(moduleName, es))
    decreases |es|
  {
    if |es| > 0 {
      ResRawsCons(moduleName, es);
      if !IsResFile(es[0]) {
        FilePassFrame(pool, m, te, out, moduleName, es[1..], rules);
      } else {
        var (m1, te1, out1) := FileStep(pool, m, te, out, moduleName, es[0], rules).value;
        FileStepFrame(pool, m, te, out, moduleName, es[0], rules);
        FilePassFrame(pool, m1, te1, out1, moduleName, es[1..], rules);
      }
    }
  }

  /**
   * When the new paths handed in agree with the ledger, the pass keeps them agreeing and
   * keeps every new path already given.
   */
  lemma {:induction false} FilePassAgrees(pool: seq<string>, m: Mapping, te: InUseNames, out: map<string, string>,
                                          moduleName: string, es: seq<ModuleEntry>, rules: seq<string>)
    requires FullPool(pool) && SupportedRules(Some(rules)) && FilePass(pool, m, te, out, moduleName, es, rules).Ok?
    requires Agrees(out, m.entryFiles)
    ensures var r := FilePass(pool, m, te, out, moduleName, es, rules).value;
      Agrees(r.2, r.0.entryFiles) && forall k :: k in out ==> k in r.2 && r.2[k] == out[k]
    decreases |es|
  {
    if |es| > 0 {
      if !IsResFile(es[0]) {
        FilePassAgrees(pool, m, te, out, moduleName, es[1..], rules);
      } else {
        var (m1, te1, out1) := FileStep(pool, m, te, out, moduleName, es[0], rules).value;
        FileStepAgrees(pool, m, te, out, moduleName, es[0], rules);
        FilePassAgrees(pool, m1, te1, out1, moduleName, es[1..], rules);
      }
    }
  }

  /** The pass never gives two files of the module the same new path. */
  lemma {:induction false} FilePassInjective(pool: seq<string>, m: Mapping, te: InUseNames, out: map<string, string>,
                                             moduleName: string, es: seq<ModuleEntry>, rules: seq<string>)
    requires FullPool(pool) && SupportedRules(Some(rules)) && FilePass(pool, m, te, out, moduleName, es, rules).Ok?
    requires Injective(out)
    ensures Injective(FilePass(pool, m, te, out, moduleName, es, rules).value.2)
    decreases |es|
  {
    if |es| > 0 {
      if !IsResFile(es[0]) {
        FilePassInjective(pool, m, te, out, moduleName, es[1..], rules);
      } else {
        var (m1, te1, out1) := FileStep(pool, m, te, out, moduleName, es[0], rules).value;
        FileStepInjective(pool, m, te, out, moduleName, es[0], rules);
        FilePassInjective(pool, m1, te1, out1, moduleName, es[1..], rules);
      }
    }
  }

  /**
   * Every resource file that is recorded, or is not whitelisted, gets a new path; when
   * the paths handed in agree with the ledger, no other resource file does.
   */
  lemma {:induction false} FilePassCovers(pool: seq<string>, m: Mapping, te: InUseNames, out: map<string, string>,
                                          moduleName: string, es: seq<ModuleEntry>, rules: seq<string>)
    requires FullPool(pool) && SupportedRules(Some(rules)) && FilePass(pool, m, te, out, moduleName, es, rules).Ok?
    requires Agrees(out, m.entryFiles)
    ensures var r := FilePass(pool, m, te, out, moduleName, es, rules).value;
      forall i :: 0 <= i < |es| && IsResFile(es[i]) ==>
        (RawPath(moduleName, es[i].path) in r.2 <==>
         RawPath(moduleName, es[i].path) in m.entryFiles || !Exempt(RawPath(moduleName, es[i].path), rules))
    decreases |es|
  {
    if |es| > 0 {
      var r := FilePass(pool, m, te, out, moduleName, es, rules).value;
      FilePassFrame(pool, m, te, out, moduleName, es, rules);
      FilePassAgrees(pool, m, te, out, moduleName, es, rules);
      var m1, te1, out1 := m, te, out;
      if IsResFile(es[0]) {
        var step := FileStep(pool, m, te, out, moduleName, es[0], rules).value;
        m1, te1, out1 := step.0, step.1, step.2;
        FileStepFrame(pool, m, te, out, moduleName, es[0], rules);
        FileStepAgrees(pool, m, te, out, moduleName, es[0], rules);
        FileStepCovers(pool, m, te, out, moduleName, es[0], rules);
      }
      assert r == FilePass(pool, m1, te1, out1, moduleName, es[1..], rules).value;
      FilePassCovers(pool, m1, te1, out1, moduleName, es[1..], rules);
      FilePassAgrees(pool, m1, te1, out1, moduleName, es[1..], rules);
      forall i | 0 <= i < |es| && IsResFile(es[i])
        ensures RawPath(moduleName, es[i].path) in r.2 <==>
          RawPath(moduleName, es[i].path) in m.entryFiles || !Exempt(RawPath(moduleName, es[i].path), rules)
      {
        var k := RawPath(moduleName, es[i].path);
        if k in m.entryFiles || !Exempt(k, rules) {
          if i > 0 {
            assert es[1..][i - 1] == es[i];
          }
        }
      }
    }
  }

  // ---------------------------------------------------------------------------
  // Rewriting the module
  // ---------------------------------------------------------------------------

  /**
   * The module's entries in order: an entry whose key has a new path is moved there
   * with the same content; every other entry is kept as it is.
   */
  function RewriteEntries(moduleName: string, es: seq<ModuleEntry>, out: map<string, string>): (r: seq<ModuleEntry>)
    ensures |r| == |es|
    ensures forall i :: 0 <= i < |es| ==> r[i].content == es[i].content
    ensures forall i :: 0 <= i < |es| && RawPath(moduleName, es[i].path) !in out ==> r[i] == es[i]
    ensures forall i :: 0 <= i < |es| && RawPath(moduleName, es[i].path) in out ==>
      r[i].path == CreatePath(out[RawPath(moduleName, es[i].path)])
  {
    seq(|es|, i requires 0 <= i < |es| =>
      var raw := RawPath(moduleName, es[i].path);
      if raw in out then ModuleEntry(CreatePath(out[raw]), es[i].content) else es[i])
  }

  /** Two valid paths with the same key in a module are the same path. */
  lemma RawPathInjective(moduleName: string, p: ZipPath, q: ZipPath)
    requires ValidPath(p) && ValidPath(q) && RawPath(moduleName, p) == RawPath(moduleName, q)
    ensures p == q
  {
    var a := moduleName + "/";
    assert a + PathText(p) == RawPath(moduleName, p) && a + PathText(q) == RawPath(moduleName, q);
    assert PathText(p) == (a + PathText(p))[|a|..];
    assert PathText(q) == (a + PathText(q))[|a|..];
    CreatePathText(p);
    CreatePathText(q);
  }

  /**
   * When only resource files of the module were given new paths, every entry outside
   * "res" is kept as it is.
   */
  lemma RewriteKeepsOthers(moduleName: string, es: seq<ModuleEntry>, out: map<string, string>)
    requires forall i :: 0 <= i < |es| ==> ValidPath(es[i].path)
    requires forall k :: k in out ==> k in ResRaws(moduleName, es)
    ensures forall i :: 0 <= i < |es| && !IsResFile(es[i]) ==> RewriteEntries(moduleName, es, out)[i] == es[i]
  {
    forall i | 0 <= i < |es| && !IsResFile(es[i]) ensures RawPath(moduleName, es[i].path) !in out {
      var k := RawPath(moduleName, es[i].path);
      if k in ResRaws(moduleName, es) {
        var j :| 0 <= j < |es| && IsResFile(es[j]) && RawPath(moduleName, es[j].path) == k;
        RawPathInjective(moduleName, es[i].path, es[j].path);
      }
    }
  }

  /** The ledger key of a file a config value refers to. */
  function ConfigRaw(moduleName: string, cv: ConfigValue): string
    requires cv.item.File?
  {
    moduleName + "/" + cv.item.path
  }

  /** A config value refers to a file that has a new path. */
  predicate Moved(moduleName: string, cv: ConfigValue, out: map<string, string>) {
    cv.item.File? && ConfigRaw(moduleName, cv) in out
  }

  /**
   * The config values of one entry: a value referring to a file with a new path is
   * pointed there, and the ledger records the path and the resource's id for it.
   */
  function RewriteConfigs(m: Mapping, moduleName: string, cs: seq<ConfigValue>, out: map<string, string>, id: string)
    : (r: (Mapping, seq<ConfigValue>))
    ensures |r.1| == |cs|
    ensures forall i :: 0 <= i < |cs| ==> r.1[i].config == cs[i].config
    ensures forall i :: 0 <= i < |cs| && !Moved(moduleName, cs[i], out) ==> r.1[i] == cs[i]
    ensures forall i :: 0 <= i < |cs| && Moved(moduleName, cs[i], out) ==>
      r.1[i].item == File(out[ConfigRaw(moduleName, cs[i])])
      && ConfigRaw(moduleName, cs[i]) in r.0.pathToId && r.0.pathToId[ConfigRaw(moduleName, cs[i])] == id
    ensures r.0.(entryFiles := m.entryFiles, pathToId := m.pathToId) == m
    ensures forall k :: k in m.pathToId ==> k in r.0.pathToId && r.0.pathToId[k] in {m.pathToId[k], id}
    ensures Agrees(out, m.entryFiles) ==> r.0.entryFiles == m.entryFiles
    decreases |cs|
  {
    if |cs| == 0 then (m, [])
    else
      var cv := cs[0];
      var (m1, cv1) :=
        if Moved(moduleName, cv, out) then
          var raw := ConfigRaw(moduleName, cv);
          (PutEntryFileMapping(AddResourcePathAndId(m, raw, id), raw, out[raw]), ReplaceEntryPath(cv, out[raw]))
        else (m, cv);
      assert Agrees(out, m.entryFiles) ==> m1.entryFiles == m.entryFiles;
      var (m2, rest) := RewriteConfigs(m1, moduleName, cs[1..], out, id);
      assert forall i :: 1 <= i < |cs| ==> cs[i] == cs[1..][i - 1];
      (m2, [cv1] + rest)
  }

  /**
   * One entry of the table: its id is recorded under its full name; a mapped resource
   * takes the entry part of its obfuscated name; its config values follow their files;
   * then the entry must list no config value twice.
   */
  function RewriteEntry(m: Mapping, moduleName: string, x: TableEntry, out: map<string, string>, id: string)
    : (r: Result<(Mapping, TableEntry)>)
    ensures r.Ok? ==> r.value.1.pkg == x.pkg && r.value.1.typ == x.typ && r.value.1.entry.id == x.entry.id
    ensures r.Ok? ==> |r.value.1.entry.configs| == |x.entry.configs|
    ensures r.Ok? ==> Distinct(r.value.1.entry.configs)
    ensures r.Ok? ==> r.value.0.(entryFiles := m.entryFiles, pathToId := m.pathToId, nameToId := m.nameToId) == m
    ensures r.Ok? ==> FullName(x) in r.value.0.nameToId && r.value.0.nameToId[FullName(x)] == id
    ensures r.Ok? ==> forall k :: k in m.nameToId ==> k in r.value.0.nameToId
    ensures r.Ok? && Agrees(out, m.entryFiles) ==> r.value.0.entryFiles == m.entryFiles
  {
    var name := FullName(x);
    var m1 := AddResourceNameAndId(m, name, id);
    var e :- if name in m.resources then
        var entryName :- EntryNameByResourceName(m.resources[name]);
        Ok(UpdateEntryName(x.entry, entryName))
      else Ok(x.entry);
    var (m2, cs) := RewriteConfigs(m1, moduleName, e.configs, out, id);
    var e2 := if |cs| > 0 then UpdateEntryConfigValueList(e, cs) else e;
    if !Distinct(e2.configs) then Err(IllegalArgument)
    else Ok((m2, TableEntry(x.pkg, x.typ, e2)))
  }

  /**
   * The name a rewritten entry has: the entry part of its obfuscated name when the
   * resource is mapped, its own name otherwise; and the config values it has: each
   * referring to a file with a new path points there, the others are as they were.
   */
  lemma RewriteEntryContent(m: Mapping, moduleName: string, x: TableEntry, out: map<string, string>, id: string)
    requires RewriteEntry(m, moduleName, x, out, id).Ok?
    ensures var y := RewriteEntry(m, moduleName, x, out, id).value.1.entry;
      (FullName(x) in m.resources ==>
        EntryNameByResourceName(m.resources[FullName(x)]).Ok?
        && y.name == EntryNameByResourceName(m.resources[FullName(x)]).value)
      && (FullName(x) !in m.resources ==> y.name == x.entry.name)
      && (forall i :: 0 <= i < |x.entry.configs| && !Moved(moduleName, x.entry.configs[i], out) ==> y.configs[i] == x.entry.configs[i])
      && (forall i :: 0 <= i < |x.entry.configs| && Moved(moduleName, x.entry.configs[i], out) ==>
          y.configs[i] == ConfigValue(x.entry.configs[i].config, File(out[ConfigRaw(moduleName, x.entry.configs[i])])))
  {
  }

  /**
   * A rewrite fails exactly when a mapped resource's obfuscated name has no entry part,
   * or the rewritten entry lists some config value twice.
   */
  lemma RewriteEntryFails(m: Mapping, moduleName: string, x: TableEntry, out: map<string, string>, id: string)
    ensures var name := FullName(x);
      var e := if name in m.resources && EntryNameByResourceName(m.resources[name]).Ok?
        then UpdateEntryName(x.entry, EntryNameByResourceName(m.resources[name]).value) else x.entry;
      RewriteEntry(m, moduleName, x, out, id).Err? <==>
        (name in m.resources && EntryNameByResourceName(m.resources[name]).Err?)
        || !Distinct(RewriteConfigs(AddResourceNameAndId(m, name, id), moduleName, e.configs, out, id).1)
  {
  }

  /** The entries of a table in order, each through `RewriteEntry` with its id; the first failure ends the pass. */
  function RewriteTableEntries(m: Mapping, moduleName: string, xs: seq<TableEntry>, out: map<string, string>,
                               idOf: TableEntry -> string): (r: Result<(Mapping, seq<TableEntry>)>)
    ensures r.Ok? ==> |r.value.1| == |xs|
    ensures r.Ok? ==> r.value.0.(entryFiles := m.entryFiles, pathToId := m.pathToId, nameToId := m.nameToId) == m
    decreases |xs|
  {
    if |xs| == 0 then Ok((m, []))
    else
      var (m1, y) :- RewriteEntry(m, moduleName, xs[0], out, idOf(xs[0]));
      var (m2, ys) :- RewriteTableEntries(m1, moduleName, xs[1..], out, idOf);
      Ok((m2, [y] + ys))
  }

  /**
   * `y` is `x` rewritten: in the same package and type, with the same id and number of
   * config values, and no config value twice.
   */
  predicate SameSlot(x: TableEntry, y: TableEntry) {
    y.pkg == x.pkg && y.typ == x.typ && y.entry.id == x.entry.id
    && |y.entry.configs| == |x.entry.configs| && Distinct(y.entry.configs)
  }

  /** Each rewritten entry stays where it was: in its package and type, with its id and its number of config values. */
  lemma {:induction false} RewriteTableEntriesShape(m: Mapping, moduleName: string, xs: seq<TableEntry>, out: map<string, string>,
                                                    idOf: TableEntry -> string)
    requires RewriteTableEntries(m, moduleName, xs, out, idOf).Ok?
    ensures var ys := RewriteTableEntries(m, moduleName, xs, out, idOf).value.1;
      forall i :: 0 <= i < |xs| ==> SameSlot(xs[i], ys[i])
    decreases |xs|
  {
    if |xs| > 0 {
      var (m1, y) := RewriteEntry(m, moduleName, xs[0], out, idOf(xs[0])).value;
      var rest := RewriteTableEntries(m1, moduleName, xs[1..], out, idOf).value.1;
      RewriteTableEntriesShape(m1, moduleName, xs[1..], out, idOf);
      var ys := RewriteTableEntries(m, moduleName, xs, out, idOf).value.1;
      assert ys == [y] + rest;
      forall i | 0 <= i < |xs| ensures SameSlot(xs[i], ys[i]) {
        if i > 0 {
          assert ys[i] == rest[i - 1] && xs[i] == xs[1..][i - 1];
        }
      }
    }
  }

  /**
   * The ledger afterwards holds an id for every entry's full name, keeps every name it
   * had an id for, and, when the new paths agree with it, has the same entry files.
   */
  lemma {:induction false} RewriteTableEntriesLedger(m: Mapping, moduleName: string, xs: seq<TableEntry>, out: map<string, string>,
                                                     idOf: TableEntry -> string)
    requires RewriteTableEntries(m, moduleName, xs, out, idOf).Ok?
    ensures var r := RewriteTableEntries(m, moduleName, xs, out, idOf).value.0;
      (forall i :: 0 <= i < |xs| ==> FullName(xs[i]) in r.nameToId)
      && (forall k :: k in m.nameToId ==> k in r.nameToId)
      && (Agrees(out, m.entryFiles) ==> r.entryFiles == m.entryFiles)
    decreases |xs|
  {
    if |xs| > 0 {
      var (m1, y) := RewriteEntry(m, moduleName, xs[0], out, idOf(xs[0])).value;
      RewriteTableEntriesLedger(m1, moduleName, xs[1..], out, idOf);
      forall i | 1 <= i < |xs| ensures xs[i] == xs[1..][i - 1] {
      }
    }
  }

  /**
   * `obfuscateResourceTable`: the table rebuilt, package by package and type by type,
   * from its rewritten entries.
   */
  function RewriteTable(m: Mapping, moduleName: string, t: Table, out: map<string, string>, idOf: TableEntry -> string)
    : (r: Result<(Mapping, Table)>)
    ensures r.Ok? ==> |Entries(r.value.1)| == |Entries(t)|
    ensures r.Ok? ==> r.value.0.(entryFiles := m.entryFiles, pathToId := m.pathToId, nameToId := m.nameToId) == m
    ensures r.Ok? && Agrees(out, m.entryFiles) ==> r.value.0.entryFiles == m.entryFiles
  {
    var (m', ys) :- RewriteTableEntries(m, moduleName, Entries(t), out, idOf);
    RewriteTableEntriesLedger(m, moduleName, Entries(t), out, idOf);
    RebuildCount(ys);
    Ok((m', Rebuild(ys)))
  }

  // ---------------------------------------------------------------------------
  // Modules and the bundle
  // ---------------------------------------------------------------------------

  /**
   * `generateResourceMappingRule`: for a module with a table, the directory pass over
   * its file references, then the resource pass over its entries; nothing for a module
   * without one.
   */
  function MappingRule(pool: seq<string>, m: Mapping, te: InUseNames, md: Module, rules: seq<string>)
    : (r: Result<(Mapping, InUseNames)>)
    requires FullPool(pool) && SupportedRules(Some(rules))
    ensures md.table.None? ==> r == Ok((m, te))
    ensures r.Ok? ==> r.value.0.entryFiles == m.entryFiles && r.value.0.nameToId == m.nameToId && r.value.0.pathToId == m.pathToId
    ensures r.Ok? ==> forall k :: k in m.dirs ==> k in r.value.0.dirs && r.value.0.dirs[k] == m.dirs[k]
  {
    match md.table
    case None => Ok((m, te))
    case Some(t) =>
      var m1 :- DirPass(pool, m, FileReferences(t));
      EntryPass(pool, m1, te, Entries(t), rules)
  }

  /** The mapping rule of a module, then the pass over its resource files, from no new paths. */
  function ModulePasses(pool: seq<string>, m: Mapping, te: InUseNames, md: Module, rules: seq<string>)
    : (r: Result<(Mapping, InUseNames, map<string, string>)>)
    requires FullPool(pool) && SupportedRules(Some(rules))
    ensures r.Ok? ==> Agrees(r.value.2, r.value.0.entryFiles) && Injective(r.value.2)
    ensures r.Ok? ==> forall k :: k in r.value.2 ==> k in ResRaws(md.name, md.entries)
  {
    var (m1, te1) :- MappingRule(pool, m, te, md, rules);
    var r :- FilePass(pool, m1, te1, map[], md.name, md.entries, rules);
    FilePassFrame(pool, m1, te1, map[], md.name, md.entries, rules);
    FilePassAgrees(pool, m1, te1, map[], md.name, md.entries, rules);
    FilePassInjective(pool, m1, te1, map[], md.name, md.entries, rules);
    Ok(r)
  }

  /**
   * One module: its mapping rule, its resource files, then the module rebuilt with
   * moved entries and, when it has one, the rewritten table.
   */
  function ObfuscateModule(pool: seq<string>, m: Mapping, te: InUseNames, md: Module, rules: seq<string>,
                           idOf: TableEntry -> string): (r: Result<(Mapping, InUseNames, Module)>)
    requires FullPool(pool) && SupportedRules(Some(rules))
    ensures r.Ok? ==> r.value.2.name == md.name && r.value.2.native == md.native
    ensures r.Ok? ==> |r.value.2.entries| == |md.entries|
    ensures r.Ok? ==> forall i :: 0 <= i < |md.entries| ==> r.value.2.entries[i].content == md.entries[i].content
    ensures r.Ok? ==> r.value.2.table.Some? == md.table.Some?
    ensures r.Ok? && md.table.Some? ==> |Entries(r.value.2.table.value)| == |Entries(md.table.value)|
  {
    var (m2, te2, out) :- ModulePasses(pool, m, te, md, rules);
    var entries := RewriteEntries(md.name, md.entries, out);
    match md.table
    case None => Ok((m2, te2, Module(md.name, entries, None, md.native)))
    case Some(t) =>
      var (m3, t3) :- RewriteTable(m2, md.name, t, out, idOf);
      Ok((m3, te2, Module(md.name, entries, Some(t3), md.native)))
  }

  /** The module's entries and ledger in terms of the passes. */
  lemma ObfuscateModuleParts(pool: seq<string>, m: Mapping, te: InUseNames, md: Module, rules: seq<string>,
                             idOf: TableEntry -> string)
    requires FullPool(pool) && SupportedRules(Some(rules)) && ObfuscateModule(pool, m, te, md, rules, idOf).Ok?
    ensures ModulePasses(pool, m, te, md, rules).Ok?
    ensures var p := ModulePasses(pool, m, te, md, rules).value; var r := ObfuscateModule(pool, m, te, md, rules, idOf).value;
      r.2.entries == RewriteEntries(md.name, md.entries, p.2)
      && r.0.entryFiles == p.0.entryFiles && r.0.dirs == p.0.dirs && r.0.resources == p.0.resources
  {
  }

  /** Every entry outside "res" leaves the module exactly as it came in. */
  lemma ObfuscateModuleKeepsOthers(pool: seq<string>, m: Mapping, te: InUseNames, md: Module, rules: seq<string>,
                                   idOf: TableEntry -> string)
    requires FullPool(pool) && SupportedRules(Some(rules)) && ObfuscateModule(pool, m, te, md, rules, idOf).Ok?
    requires forall i :: 0 <= i < |md.entries| ==> ValidPath(md.entries[i].path)
    ensures var r := ObfuscateModule(pool, m, te, md, rules, idOf).value.2;
      forall i :: 0 <= i < |md.entries| && !IsResFile(md.entries[i]) ==> r.entries[i] == md.entries[i]
  {
    ObfuscateModuleParts(pool, m, te, md, rules, idOf);
    RewriteKeepsOthers(md.name, md.entries, ModulePasses(pool, m, te, md, rules).value.2);
  }

  /**
   * Every resource file that the ledger already records, or that is not whitelisted,
   * is recorded afterwards and moves to the path the ledger gives it.
   */
  lemma ObfuscateModuleMoves(pool: seq<string>, m: Mapping, te: InUseNames, md: Module, rules: seq<string>,
                             idOf: TableEntry -> string)
    requires FullPool(pool) && SupportedRules(Some(rules)) && ObfuscateModule(pool, m, te, md, rules, idOf).Ok?
    ensures var r := ObfuscateModule(pool, m, te, md, rules, idOf).value;
      forall i :: (0 <= i < |md.entries| && IsResFile(md.entries[i])
        && (RawPath(md.name, md.entries[i].path) in m.entryFiles || !Exempt(RawPath(md.name, md.entries[i].path), rules))) ==>
        RawPath(md.name, md.entries[i].path) in r.0.entryFiles
        && r.2.entries[i].path == CreatePath(r.0.entryFiles[RawPath(md.name, md.entries[i].path)])
  {
    var (m1, te1) := MappingRule(pool, m, te, md, rules).value;
    ObfuscateModuleParts(pool, m, te, md, rules, idOf);
    FilePassCovers(pool, m1, te1, map[], md.name, md.entries, rules);
  }

  /** A whitelisted resource file the ledger does not record stays where it is. */
  lemma ObfuscateModuleSkips(pool: seq<string>, m: Mapping, te: InUseNames, md: Module, rules: seq<string>,
                             idOf: TableEntry -> string)
    requires FullPool(pool) && SupportedRules(Some(rules)) && ObfuscateModule(pool, m, te, md, rules, idOf).Ok?
    ensures var r := ObfuscateModule(pool, m, te, md, rules, idOf).value;
      forall i :: (0 <= i < |md.entries| && IsResFile(md.entries[i])
        && RawPath(md.name, md.entries[i].path) !in m.entryFiles && Exempt(RawPath(md.name, md.entries[i].path), rules)) ==>
        r.2.entries[i] == md.entries[i]
  {
    var (m1, te1) := MappingRule(pool, m, te, md, rules).value;
    ObfuscateModuleParts(pool, m, te, md, rules, idOf);
    FilePassCovers(pool, m1, te1, map[], md.name, md.entries, rules);
  }

  /**
   * The ledger after a module: directory mappings and recorded files that existed are
   * untouched.
   */
  lemma ObfuscateModuleKeepsLedger(pool: seq<string>, m: Mapping, te: InUseNames, md: Module, rules: seq<string>,
                                   idOf: TableEntry -> string)
    requires FullPool(pool) && SupportedRules(Some(rules)) && ObfuscateModule(pool, m, te, md, rules, idOf).Ok?
    ensures var r := ObfuscateModule(pool, m, te, md, rules, idOf).value.0;
      (forall k :: k in m.dirs ==> k in r.dirs && r.dirs[k] == m.dirs[k])
      && (forall k :: k in m.entryFiles ==> k in r.entryFiles && r.entryFiles[k] == m.entryFiles[k])
  {
    var (m1, te1) := MappingRule(pool, m, te, md, rules).value;
    ObfuscateModuleParts(pool, m, te, md, rules, idOf);
    FilePassFrame(pool, m1, te1, map[], md.name, md.entries, rules);
  }

  /**
   * A resource mapped before and after a module keeps its obfuscated name, and no two
   * resources share an obfuscated name if none did before.
   */
  lemma ObfuscateModuleResources(pool: seq<string>, m: Mapping, te: InUseNames, md: Module, rules: seq<string>,
                                 idOf: TableEntry -> string)
    requires FullPool(pool) && SupportedRules(Some(rules)) && ObfuscateModule(pool, m, te, md, rules, idOf).Ok?
    ensures var r := ObfuscateModule(pool, m, te, md, rules, idOf).value.0;
      (forall k :: k in m.resources && k in r.resources ==> r.resources[k] == m.resources[k])
      && (Injective(m.resources) ==> Injective(r.resources))
  {
    ObfuscateModuleParts(pool, m, te, md, rules, idOf);
    var (m1, te1) := MappingRule(pool, m, te, md, rules).value;
    assert FilePass(pool, m1, te1, map[], md.name, md.entries, rules).value.0.resources == m1.resources;
    if md.table.Some? {
      var t := md.table.value;
      var d := DirPass(pool, m, FileReferences(t)).value;
      EntryPassKeeps(pool, d, te, Entries(t), rules);
      if Injective(m.resources) {
        EntryPassInjective(pool, d, te, Entries(t), rules);
      }
    }
  }

  /** Every key of `a` is in `b` with the same value. */
  predicate Extends(a: map<string, string>, b: map<string, string>) {
    forall k :: k in a ==> k in b && b[k] == a[k]
  }

  /** The same name, native configuration, entry count and table presence. */
  predicate SameModule(a: Module, b: Module) {
    b.name == a.name && b.native == a.native && |b.entries| == |a.entries| && b.table.Some? == a.table.Some?
  }

  /** Module by module, `SameModule`. */
  predicate SameModules(ms: seq<Module>, ms': seq<Module>) {
    |ms'| == |ms| && forall i :: 0 <= i < |ms| ==> SameModule(ms[i], ms'[i])
  }

  lemma SameModulesCons(ms: seq<Module>, md: Module, rest: seq<Module>)
    requires |ms| > 0 && SameModule(ms[0], md) && SameModules(ms[1..], rest)
    ensures SameModules(ms, [md] + rest)
  {
    assert forall i :: 1 <= i < |ms| ==> ms[i] == ms[1..][i - 1] && ([md] + rest)[i] == rest[i - 1];
  }

  /** The modules in order, each through `ObfuscateModule`; the first failure ends the pass. */
  function ObfuscateModules(pool: seq<string>, m: Mapping, te: InUseNames, ms: seq<Module>, rules: seq<string>,
                            idOf: TableEntry -> string): (r: Result<(Mapping, seq<Module>)>)
    requires FullPool(pool) && SupportedRules(Some(rules))
    ensures r.Ok? ==> SameModules(ms, r.value.1)
    decreases |ms|
  {
    if |ms| == 0 then Ok((m, []))
    else
      var (m1, te1, md) :- ObfuscateModule(pool, m, te, ms[0], rules, idOf);
      var (m2, rest) :- ObfuscateModules(pool, m1, te1, ms[1..], rules, idOf);
      SameModulesCons(ms, md, rest);
      Ok((m2, [md] + rest))
  }

  /** A non-empty run is the first module, then the rest from the ledger it leaves. */
  lemma ObfuscateModulesStep(pool: seq<string>, m: Mapping, te: InUseNames, ms: seq<Module>, rules: seq<string>,
                             idOf: TableEntry -> string)
    requires FullPool(pool) && SupportedRules(Some(rules)) && |ms| > 0
    requires ObfuscateModules(pool, m, te, ms, rules, idOf).Ok?
    ensures ObfuscateModule(pool, m, te, ms[0], rules, idOf).Ok?
    ensures var s := ObfuscateModule(pool, m, te, ms[0], rules, idOf).value;
      ObfuscateModules(pool, s.0, s.1, ms[1..], rules, idOf).Ok?
      && ObfuscateModules(pool, m, te, ms, rules, idOf).value.0 == ObfuscateModules(pool, s.0, s.1, ms[1..], rules, idOf).value.0
  {
  }

  /** Across the modules recorded directories and entry files keep their names. */
  lemma {:induction false} ObfuscateModulesExtends(pool: seq<string>, m: Mapping, te: InUseNames, ms: seq<Module>,
                                                   rules: seq<string>, idOf: TableEntry -> string)
    requires FullPool(pool) && SupportedRules(Some(rules)) && ObfuscateModules(pool, m, te, ms, rules, idOf).Ok?
    ensures var r := ObfuscateModules(pool, m, te, ms, rules, idOf).value.0;
      Extends(m.dirs, r.dirs) && Extends(m.entryFiles, r.entryFiles)
    decreases |ms|
  {
    if |ms| > 0 {
      ObfuscateModulesStep(pool, m, te, ms, rules, idOf);
      var s := ObfuscateModule(pool, m, te, ms[0], rules, idOf).value;
      ObfuscateModuleKeepsLedger(pool, m, te, ms[0], rules, idOf);
      ObfuscateModulesExtends(pool, s.0, s.1, ms[1..], rules, idOf);
    }
  }

  /** Across the modules no two resources come to share an obfuscated name. */
  lemma {:induction false} ObfuscateModulesResources(pool: seq<string>, m: Mapping, te: InUseNames, ms: seq<Module>,
                                                     rules: seq<string>, idOf: TableEntry -> string)
    requires FullPool(pool) && SupportedRules(Some(rules)) && ObfuscateModules(pool, m, te, ms, rules, idOf).Ok?
    requires Injective(m.resources)
    ensures Injective(ObfuscateModules(pool, m, te, ms, rules, idOf).value.0.resources)
    decreases |ms|
  {
    if |ms| > 0 {
      ObfuscateModulesStep(pool, m, te, ms, rules, idOf);
      var s := ObfuscateModule(pool, m, te, ms[0], rules, idOf).value;
      ObfuscateModuleResources(pool, m, te, ms[0], rules, idOf);
      ObfuscateModulesResources(pool, s.0, s.1, ms[1..], rules, idOf);
    }
  }

  /**
   * `obfuscate()`: the directory rules are checked, the names in use are read from the
   * ledger, then every module is obfuscated in turn against one ledger; the bundle keeps
   * its metadata. `fk` and `rk` are the orders in which the ledger's entry-file and
   * resource maps yield their keys, and `idOf` the text of an entry's resource id.
   */
  function Obfuscate(b: Bundle, m: Mapping, rules: seq<string>, fk: seq<string>, rk: seq<string>,
                     idOf: TableEntry -> string): (r: Result<(Bundle, Mapping)>)
    requires SupportedRules(Some(rules))
    requires Enumerates(fk, m.entryFiles.Keys) && Enumerates(rk, m.resources.Keys)
    ensures CheckResMappingRules(m).Err? ==> r == Err(IllegalArgument)
    ensures r.Ok? ==> r.value.0.metadata == b.metadata && SameModules(b.modules, r.value.0.modules)
    ensures r.Ok? ==> Extends(m.dirs, r.value.1.dirs) && Extends(m.entryFiles, r.value.1.entryFiles)
    ensures r.Ok? && Injective(m.resources) ==> Injective(r.value.1.resources)
  {
    var _ :- CheckResMappingRules(m);
    var te :- SeedInUse(m, fk, rk);
    ResetPoolFull();
    ObfuscateBundle(Reset(None).pool, m, te, b, rules, idOf)
  }

  /** The modules of the bundle through `ObfuscateModules`, from a checked ledger and its names in use. */
  function ObfuscateBundle(pool: seq<string>, m: Mapping, te: InUseNames, b: Bundle, rules: seq<string>,
                           idOf: TableEntry -> string): (r: Result<(Bundle, Mapping)>)
    requires FullPool(pool) && SupportedRules(Some(rules))
    ensures r.Ok? ==> r.value.0.metadata == b.metadata && SameModules(b.modules, r.value.0.modules)
    ensures r.Ok? ==> Extends(m.dirs, r.value.1.dirs) && Extends(m.entryFiles, r.value.1.entryFiles)
    ensures r.Ok? && Injective(m.resources) ==> Injective(r.value.1.resources)
  {
    var (m', ms) :- ObfuscateModules(pool, m, te, b.modules, rules, idOf);
    ObfuscateModulesExtends(pool, m, te, b.modules, rules, idOf);
    if Injective(m.resources) then
      ObfuscateModulesResources(pool, m, te, b.modules, rules, idOf);
      Ok((Bundle(ms, b.metadata), m'))
    else Ok((Bundle(ms, b.metadata), m'))
  }

  /** A ledger with a directory outside "res" stops the run before any module is touched. */
  lemma ObfuscateRejects(b: Bundle, m: Mapping, rules: seq<string>, fk: seq<string>, rk: seq<string>,
                         idOf: TableEntry -> string)
    requires SupportedRules(Some(rules))
    requires Enumerates(fk, m.entryFiles.Keys) && Enumerates(rk, m.resources.Keys)
    ensures CheckResMappingRules(m).Err? ==> Obfuscate(b, m, rules, fk, rk, idOf) == Err(IllegalArgument)
  {
  }

  /** The whole run only adds to the ledger it was given, and keeps resource names apart. */
  lemma ObfuscateLedger(b: Bundle, m: Mapping, rules: seq<string>, fk: seq<string>, rk: seq<string>,
                        idOf: TableEntry -> string)
    requires SupportedRules(Some(rules))
    requires Enumerates(fk, m.entryFiles.Keys) && Enumerates(rk, m.resources.Keys)
    requires Obfuscate(b, m, rules, fk, rk, idOf).Ok?
    ensures var r := Obfuscate(b, m, rules, fk, rk, idOf).value.1;
      Extends(m.dirs, r.dirs) && Extends(m.entryFiles, r.entryFiles)
      && (Injective(m.resources) ==> Injective(r.resources))
  {
  }
}
