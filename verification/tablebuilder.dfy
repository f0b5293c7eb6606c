/**
 * `ResourceTableBuilder`: a resource table assembled entry by entry. Packages are
 * kept by name, types by id, and every added entry is appended to its type.
 */
module ResourceTableBuilder {
  import opened Wrappers
  import opened BundleModel
  import opened Seqs

  /**
   * The builder: one package builder per package name, in the order the names were
   * first added. The table the builder commits to stays empty until `Build`, so the
   * package-id check of the package builder, which looks only at that table, never fails.
   */
  datatype Builder = Builder(packages: seq<Package>)

  const Empty: Builder := Builder([])

  /** No two package builders share a name. */
  predicate UniqueNames(ps: seq<Package>) {
    forall i, j :: 0 <= i < j < |ps| ==> ps[i].name != ps[j].name
  }

  /** No two types of a package share an id. */
  predicate UniqueTypeIds(ts: seq<Type>) {
    forall i, j :: 0 <= i < j < |ts| ==> ts[i].id != ts[j].id
  }

  /** The builder's invariant: unique package names, and unique type ids inside each package. */
  predicate Valid(b: Builder) {
    UniqueNames(b.packages) && forall i :: 0 <= i < |b.packages| ==> UniqueTypeIds(b.packages[i].types)
  }

  /** The first package called `name`. */
  function PackageIndex(ps: seq<Package>, name: string): (r: Option<nat>)
    ensures r.Some? ==> r.value < |ps| && ps[r.value].name == name
    ensures r.Some? ==> forall k :: 0 <= k < r.value ==> ps[k].name != name
    ensures r.None? ==> forall k :: 0 <= k < |ps| ==> ps[k].name != name
  {
    FirstIndex(ps, (p: Package) => p.name, name)
  }

  /** The first type with id `id` (`getResourceType`'s search). */
  function TypeIndex(ts: seq<Type>, id: nat): (r: Option<nat>)
    ensures r.Some? ==> r.value < |ts| && ts[r.value].id == id
    ensures r.Some? ==> forall k :: 0 <= k < r.value ==> ts[k].id != id
    ensures r.None? ==> forall k :: 0 <= k < |ts| ==> ts[k].id != id
  {
    FirstIndex(ts, (t: Type) => t.id, id)
  }

  /**
   * `addPackage(resPackage)`: the builder of the package with that name, made (with the
   * package's id and name and no types) when there is none yet.
   */
  function AddPackage(b: Builder, pkg: Package): (r: (Builder, nat))
    ensures r.1 < |r.0.packages| && r.0.packages[r.1].name == pkg.name
    ensures (exists k :: 0 <= k < |b.packages| && b.packages[k].name == pkg.name) ==> r.0 == b
    ensures (forall k :: 0 <= k < |b.packages| ==> b.packages[k].name != pkg.name) ==>
      r.0.packages == b.packages + [Package(pkg.id, pkg.name, [])]
    ensures Valid(b) ==> Valid(r.0)
  {
    match PackageIndex(b.packages, pkg.name)
    case Some(i) => (b, i)
    case None => (Builder(b.packages + [Package(pkg.id, pkg.name, [])]), |b.packages|)
  }

  /** The types of a package once the type with `typ`'s id exists, and that type's position. */
  function EnsureType(ts: seq<Type>, typ: Type): (r: (seq<Type>, nat))
    ensures r.1 < |r.0| && r.0[r.1].id == typ.id
    ensures TypeIndex(ts, typ.id).Some? ==> r == (ts, TypeIndex(ts, typ.id).value)
    ensures TypeIndex(ts, typ.id).None? ==> r == (ts + [Type(typ.id, typ.name, [])], |ts|)
    ensures UniqueTypeIds(ts) ==> UniqueTypeIds(r.0)
  {
    match TypeIndex(ts, typ.id)
    case Some(i) => (ts, i)
    case None => (ts + [Type(typ.id, typ.name, [])], |ts|)
  }

  /**
   * `addResource(resType, resEntry)` on the package builder at `pi`: the entry goes, as
   * it is, at the end of the type with `resType`'s id (made empty, with `resType`'s
   * name, when missing). One entry more, nothing else changes. The source's branch that
   * gives an entry id 0 tests `isInitialized()` of a message without required fields,
   * which always holds, so that branch never runs and an entry without an id stays so.
   */
  function AddResource(b: Builder, pi: nat, typ: Type, e: Entry): (r: Builder)
    requires pi < |b.packages|
    ensures |r.packages| == |b.packages|
    ensures forall k :: 0 <= k < |b.packages| && k != pi ==> r.packages[k] == b.packages[k]
    ensures r.packages[pi].name == b.packages[pi].name && r.packages[pi].id == b.packages[pi].id
    ensures Valid(b) ==> Valid(r)
    ensures var ti := TypeIndex(r.packages[pi].types, typ.id);
      ti.Some? && |r.packages[pi].types[ti.value].entries| > 0
      && r.packages[pi].types[ti.value].entries[|r.packages[pi].types[ti.value].entries| - 1] == e
    ensures PackagesSize(r.packages) == PackagesSize(b.packages) + 1
  {
    var p := b.packages[pi];
    var (ts, ti) := EnsureType(p.types, typ);
    var t := ts[ti].(entries := ts[ti].entries + [e]);
    var q := p.(types := ts[ti := t]);
    EnsureTypeSize(p.types, typ);
    UpdateTypesSize(ts, ti, t);
    UpdatePackagesSize(b.packages, pi, q);
    assert UniqueTypeIds(p.types) ==> UniqueTypeIds(q.types);
    TypeIndexUnique(q.types, ti, typ.id);
    Builder(b.packages[pi := q])
  }

  /** In a sequence of types with unique ids, the search finds the one holding the id. */
  lemma TypeIndexUnique(ts: seq<Type>, i: nat, id: nat)
    requires i < |ts| && ts[i].id == id
    requires UniqueTypeIds(ts) || forall k :: 0 <= k < i ==> ts[k].id != id
    ensures TypeIndex(ts, id) == Some(i)
  {
    var r := TypeIndex(ts, id);
    assert r.Some?;
  }

  /** `build()`: the table of the package builders. */
  function Build(b: Builder): (t: Table)
    ensures PackagesSize(t.packages) == PackagesSize(b.packages)
  {
    Table(b.packages)
  }

  /** One table entry added the way the passes do it: `addPackage(pkg).addResource(type, entry)`. */
  function AddOne(b: Builder, te: TableEntry): (r: Builder)
    ensures Valid(b) ==> Valid(r)
    ensures PackagesSize(r.packages) == PackagesSize(b.packages) + 1
  {
    var (b1, pi) := AddPackage(b, te.pkg);
    PackageAppendSize(b.packages, Package(te.pkg.id, te.pkg.name, []));
    AddResource(b1, pi, te.typ, te.entry)
  }

  /** Adds every entry, in order. */
  function AddAll(b: Builder, es: seq<TableEntry>): Builder
    decreases |es|
  {
    if |es| == 0 then b else AddAll(AddOne(b, es[0]), es[1..])
  }

  /** The table rebuilt from a list of entries. */
  function Rebuild(es: seq<TableEntry>): Table {
    Build(AddAll(Empty, es))
  }

  /** Adding entries one by one adds exactly as many entries and keeps the builder valid. */
  lemma {:induction false} AddAllCount(b: Builder, es: seq<TableEntry>)
    requires Valid(b)
    ensures Valid(AddAll(b, es))
    ensures PackagesSize(AddAll(b, es).packages) == PackagesSize(b.packages) + |es|
    decreases |es|
  {
    if |es| > 0 {
      AddAllCount(AddOne(b, es[0]), es[1..]);
    }
  }

  /** A rebuilt table has exactly the entries given (counted), unique package names and unique type ids. */
  lemma RebuildCount(es: seq<TableEntry>)
    ensures |Entries(Rebuild(es))| == |es|
    ensures Valid(Builder(Rebuild(es).packages))
  {
    AddAllCount(Empty, es);
    EntriesSize(Rebuild(es).packages);
  }

  // ---------------------------------------------------------------------------
  // Entry counts
  // ---------------------------------------------------------------------------

  function TypesSize(ts: seq<Type>): nat {
    if |ts| == 0 then 0 else |ts[0].entries| + TypesSize(ts[1..])
  }

  /** The number of entries of a list of packages. */
  function PackagesSize(ps: seq<Package>): nat {
    if |ps| == 0 then 0 else TypesSize(ps[0].types) + PackagesSize(ps[1..])
  }

  lemma {:induction false} UpdateTypesSize(ts: seq<Type>, i: nat, t: Type)
    requires i < |ts|
    ensures TypesSize(ts[i := t]) + |ts[i].entries| == TypesSize(ts) + |t.entries|
  {
    if i > 0 {
      assert ts[i := t][1..] == ts[1..][i - 1 := t];
      UpdateTypesSize(ts[1..], i - 1, t);
    }
  }

  lemma {:induction false} TypesAppendSize(ts: seq<Type>, t: Type)
    ensures TypesSize(ts + [t]) == TypesSize(ts) + |t.entries|
  {
    if |ts| > 0 {
      assert (ts + [t])[1..] == ts[1..] + [t];
      TypesAppendSize(ts[1..], t);
    }
  }

  lemma EnsureTypeSize(ts: seq<Type>, typ: Type)
    ensures TypesSize(EnsureType(ts, typ).0) == TypesSize(ts)
  {
    TypesAppendSize(ts, Type(typ.id, typ.name, []));
  }

  lemma {:induction false} UpdatePackagesSize(ps: seq<Package>, i: nat, q: Package)
    requires i < |ps|
    ensures PackagesSize(ps[i := q]) + TypesSize(ps[i].types) == PackagesSize(ps) + TypesSize(q.types)
  {
    if i > 0 {
      assert ps[i := q][1..] == ps[1..][i - 1 := q];
      UpdatePackagesSize(ps[1..], i - 1, q);
    }
  }

  lemma {:induction false} PackageAppendSize(ps: seq<Package>, q: Package)
    requires q.types == []
    ensures PackagesSize(ps + [q]) == PackagesSize(ps)
  {
    if |ps| > 0 {
      assert (ps + [q])[1..] == ps[1..] + [q];
      PackageAppendSize(ps[1..], q);
    } else {
      assert PackagesSize([q]) == TypesSize(q.types) + PackagesSize([]);
    }
  }

  lemma {:induction false} TypesEntriesSize(p: Package, ts: seq<Type>)
    ensures |TypesEntries(p, ts)| == TypesSize(ts)
  {
    if |ts| > 0 {
      TypesEntriesSize(p, ts[1..]);
    }
  }

  /** The entries of a table, as enumerated, number exactly its package size. */
  lemma {:induction false} EntriesSize(ps: seq<Package>)
    ensures |Entries(Table(ps))| == PackagesSize(ps)
  {
    if |ps| > 0 {
      TypesEntriesSize(ps[0], ps[0].types);
      EntriesSize(ps[1..]);
    }
  }

  // ---------------------------------------------------------------------------
  // Config values
  // ---------------------------------------------------------------------------

  /** Every config value of the entry satisfies `ok`. */
  predicate EntryConfigsOk(e: Entry, ok: ConfigValue -> bool) {
    forall c :: 0 <= c < |e.configs| ==> ok(e.configs[c])
  }

  predicate TypeConfigsOk(t: Type, ok: ConfigValue -> bool) {
    forall k :: 0 <= k < |t.entries| ==> EntryConfigsOk(t.entries[k], ok)
  }

  predicate PackageConfigsOk(p: Package, ok: ConfigValue -> bool) {
    forall j :: 0 <= j < |p.types| ==> TypeConfigsOk(p.types[j], ok)
  }

  /** Every config value of every entry of every package satisfies `ok`. */
  predicate ConfigsOk(ps: seq<Package>, ok: ConfigValue -> bool) {
    forall i :: 0 <= i < |ps| ==> PackageConfigsOk(ps[i], ok)
  }

  /** Adding an entry whose config values satisfy `ok` keeps every config value satisfying it. */
  lemma AddOneConfigs(b: Builder, te: TableEntry, ok: ConfigValue -> bool)
    requires ConfigsOk(b.packages, ok) && EntryConfigsOk(te.entry, ok)
    ensures ConfigsOk(AddOne(b, te).packages, ok)
  {
    var (b1, pi) := AddPackage(b, te.pkg);
    var p := b1.packages[pi];
    var (ts, ti) := EnsureType(p.types, te.typ);
    assert forall j :: 0 <= j < |ts| ==> TypeConfigsOk(ts[j], ok);
    var t := ts[ti].(entries := ts[ti].entries + [te.entry]);
    assert TypeConfigsOk(t, ok);
    var q := p.(types := ts[ti := t]);
    assert PackageConfigsOk(q, ok);
    assert AddOne(b, te).packages == b1.packages[pi := q];
  }

  lemma {:induction false} AddAllConfigs(b: Builder, es: seq<TableEntry>, ok: ConfigValue -> bool)
    requires ConfigsOk(b.packages, ok) && forall i :: 0 <= i < |es| ==> EntryConfigsOk(es[i].entry, ok)
    ensures ConfigsOk(AddAll(b, es).packages, ok)
    decreases |es|
  {
    if |es| > 0 {
      AddOneConfigs(b, es[0], ok);
      AddAllConfigs(AddOne(b, es[0]), es[1..], ok);
    }
  }

  /** A table rebuilt from entries whose config values all satisfy `ok` holds no other config value. */
  lemma RebuildConfigs(es: seq<TableEntry>, ok: ConfigValue -> bool)
    requires forall i :: 0 <= i < |es| ==> EntryConfigsOk(es[i].entry, ok)
    ensures ConfigsOk(Rebuild(es).packages, ok)
  {
    AddAllConfigs(Empty, es, ok);
  }

  // ---------------------------------------------------------------------------
  // Replaying a table's contents into a builder
  // ---------------------------------------------------------------------------

  /** `addResource(type, entry)` for each entry of one type, in order. */
  function ReplayEntries(b: Builder, pi: nat, typ: Type, es: seq<Entry>): (r: Builder)
    requires pi < |b.packages|
    ensures |r.packages| == |b.packages|
    ensures PackagesSize(r.packages) == PackagesSize(b.packages) + |es|
    decreases |es|
  {
    if |es| == 0 then b else ReplayEntries(AddResource(b, pi, typ, es[0]), pi, typ, es[1..])
  }

  /** The entries of each type, in order. A type without entries is never added. */
  function ReplayTypes(b: Builder, pi: nat, ts: seq<Type>): (r: Builder)
    requires pi < |b.packages|
    ensures |r.packages| == |b.packages|
    ensures PackagesSize(r.packages) == PackagesSize(b.packages) + TypesSize(ts)
    decreases |ts|
  {
    if |ts| == 0 then b else ReplayTypes(ReplayEntries(b, pi, ts[0], ts[0].entries), pi, ts[1..])
  }

  /**
   * A table the builder reproduces: unique package names, unique type ids inside a
   * package, and no type without entries.
   */
  predicate WellFormed(t: Table) {
    UniqueNames(t.packages) && forall i :: 0 <= i < |t.packages| ==> TypesWellFormed(t.packages[i].types)
  }

  predicate TypesWellFormed(ts: seq<Type>) {
    UniqueTypeIds(ts) && forall j :: 0 <= j < |ts| ==> TypeWellFormed(ts[j])
  }

  predicate TypeWellFormed(t: Type) {
    |t.entries| > 0
  }

  /** Adding an entry to an existing type appends it there; nothing else changes. */
  lemma AddResourceExisting(b: Builder, pi: nat, typ: Type, e: Entry, ti: nat)
    requires pi < |b.packages| && ti < |b.packages[pi].types|
    requires b.packages[pi].types[ti].id == typ.id && UniqueTypeIds(b.packages[pi].types)
    ensures var p := b.packages[pi]; var t := p.types[ti];
      AddResource(b, pi, typ, e) == Builder(b.packages[pi := p.(types := p.types[ti := t.(entries := t.entries + [e])])])
  {
    TypeIndexUnique(b.packages[pi].types, ti, typ.id);
  }

  /** Adding an entry under a type id the package lacks appends a new type holding it. */
  lemma AddResourceNew(b: Builder, pi: nat, typ: Type, e: Entry)
    requires pi < |b.packages| && TypeIndex(b.packages[pi].types, typ.id).None?
    ensures var p := b.packages[pi];
      AddResource(b, pi, typ, e) == Builder(b.packages[pi := p.(types := p.types + [Type(typ.id, typ.name, [e])])])
  {
    var p := b.packages[pi];
    var ts := p.types + [Type(typ.id, typ.name, [])];
    assert EnsureType(p.types, typ) == (ts, |p.types|);
    assert [] + [e] == [e];
    SnocUpdate(p.types, Type(typ.id, typ.name, []), Type(typ.id, typ.name, [e]));
  }

  /** Replaying entries onto an existing type appends them to it. */
  lemma {:induction false} ReplayEntriesAppend(b: Builder, pi: nat, typ: Type, es: seq<Entry>, ti: nat)
    requires pi < |b.packages| && ti < |b.packages[pi].types|
    requires b.packages[pi].types[ti].id == typ.id && UniqueTypeIds(b.packages[pi].types)
    ensures var p := b.packages[pi]; var t := p.types[ti];
      ReplayEntries(b, pi, typ, es) == Builder(b.packages[pi := p.(types := p.types[ti := t.(entries := t.entries + es)])])
    decreases |es|
  {
    var p := b.packages[pi];
    var t := p.types[ti];
    if |es| == 0 {
      assert t.entries + es == t.entries;
      assert p.types[ti := t] == p.types;
      assert b.packages[pi := p] == b.packages;
    } else {
      AddResourceExisting(b, pi, typ, es[0], ti);
      var t1 := t.(entries := t.entries + [es[0]]);
      var p1 := p.(types := p.types[ti := t1]);
      var b1 := Builder(b.packages[pi := p1]);
      assert ReplayEntries(b, pi, typ, es) == ReplayEntries(b1, pi, typ, es[1..]);
      assert b1.packages[pi] == p1;
      UniqueTypeIdsUpdate(p.types, ti, t1);
      ReplayEntriesAppend(b1, pi, typ, es[1..], ti);
      var t2 := t.(entries := t.entries + es);
      AppendHeadTail(t.entries, es);
      UpdateTwice(p.types, ti, t1, t2);
      UpdateTwice(b.packages, pi, p1, p.(types := p.types[ti := t2]));
    }
  }

  /** Replacing a type by one with the same id keeps type ids unique. */
  lemma UniqueTypeIdsUpdate(ts: seq<Type>, i: nat, t: Type)
    requires i < |ts| && t.id == ts[i].id && UniqueTypeIds(ts)
    ensures UniqueTypeIds(ts[i := t])
  {
  }

  /** Replaying a well-formed type whose id the package lacks appends that very type. */
  lemma ReplayNewType(b: Builder, pi: nat, t: Type)
    requires pi < |b.packages| && UniqueTypeIds(b.packages[pi].types + [t])
    requires TypeWellFormed(t)
    ensures var p := b.packages[pi];
      ReplayEntries(b, pi, t, t.entries) == Builder(b.packages[pi := p.(types := p.types + [t])])
  {
    var p := b.packages[pi];
    var es := t.entries;
    NewTypeId(p.types, t);
    AddResourceNew(b, pi, t, es[0]);
    var t0 := Type(t.id, t.name, [es[0]]);
    var p1 := p.(types := p.types + [t0]);
    var b1 := Builder(b.packages[pi := p1]);
    assert ReplayEntries(b, pi, t, es) == ReplayEntries(b1, pi, t, es[1..]);
    ReplayRest(b, pi, t, p1, b1);
  }

  /** The rest of `ReplayNewType`: the remaining entries go onto the type the first one made. */
  lemma ReplayRest(b: Builder, pi: nat, t: Type, p1: Package, b1: Builder)
    requires pi < |b.packages| && TypeWellFormed(t)
    requires UniqueTypeIds(b.packages[pi].types) && forall k :: 0 <= k < |b.packages[pi].types| ==> b.packages[pi].types[k].id != t.id
    requires p1 == b.packages[pi].(types := b.packages[pi].types + [Type(t.id, t.name, [t.entries[0]])])
    requires b1 == Builder(b.packages[pi := p1])
    ensures var p := b.packages[pi];
      ReplayEntries(b1, pi, t, t.entries[1..]) == Builder(b.packages[pi := p.(types := p.types + [t])])
  {
    var p := b.packages[pi];
    var t0 := Type(t.id, t.name, [t.entries[0]]);
    assert b1.packages[pi] == p1;
    UniqueTypeIdsSnoc(p.types, t0);
    ReplayEntriesAppend(b1, pi, t, t.entries[1..], |p.types|);
    TypeFromHead(t);
    SnocUpdate(p.types, t0, t);
    UpdateTwice(b.packages, pi, p1, p.(types := p.types + [t]));
  }

  /** A type is its first entry followed by the others. */
  lemma TypeFromHead(t: Type)
    requires |t.entries| > 0
    ensures Type(t.id, t.name, [t.entries[0]]).(entries := [t.entries[0]] + t.entries[1..]) == t
  {
    assert [t.entries[0]] + t.entries[1..] == t.entries;
  }

  /** A type appended with unique ids carries an id no earlier type has. */
  lemma NewTypeId(ts: seq<Type>, t: Type)
    requires UniqueTypeIds(ts + [t])
    ensures TypeIndex(ts, t.id).None? && UniqueTypeIds(ts)
    ensures forall k :: 0 <= k < |ts| ==> ts[k].id != t.id
  {
    forall k | 0 <= k < |ts| ensures ts[k].id != t.id {
      assert (ts + [t])[k] == ts[k] && (ts + [t])[|ts|] == t;
    }
    UniqueTypeIdsPrefix(ts, [t]);
  }

  /** Appending a type whose id is new keeps type ids unique. */
  lemma UniqueTypeIdsSnoc(ts: seq<Type>, t: Type)
    requires UniqueTypeIds(ts) && forall k :: 0 <= k < |ts| ==> ts[k].id != t.id
    ensures UniqueTypeIds(ts + [t])
  {
  }

  /** Replaying well-formed types with fresh ids appends them to the package, in order. */
  lemma {:induction false} ReplayTypesAppend(b: Builder, pi: nat, ts: seq<Type>)
    requires pi < |b.packages| && UniqueTypeIds(b.packages[pi].types + ts)
    requires forall j :: 0 <= j < |ts| ==> TypeWellFormed(ts[j])
    ensures var p := b.packages[pi];
      ReplayTypes(b, pi, ts) == Builder(b.packages[pi := p.(types := p.types + ts)])
    decreases |ts|
  {
    var p := b.packages[pi];
    if |ts| == 0 {
      assert p.types + ts == p.types;
      assert b.packages[pi := p] == b.packages;
    } else {
      var ts1 := p.types + [ts[0]];
      assert p.types + ts == ts1 + ts[1..];
      UniqueTypeIdsPrefix(ts1, ts[1..]);
      ReplayNewType(b, pi, ts[0]);
      var b1 := Builder(b.packages[pi := p.(types := ts1)]);
      assert ReplayTypes(b, pi, ts) == ReplayTypes(b1, pi, ts[1..]);
      ReplayTypesAppend(b1, pi, ts[1..]);
    }
  }

  /** A prefix of types with unique ids has unique ids. */
  lemma UniqueTypeIdsPrefix(a: seq<Type>, c: seq<Type>)
    requires UniqueTypeIds(a + c)
    ensures UniqueTypeIds(a)
  {
    forall i, j | 0 <= i < j < |a| ensures a[i].id != a[j].id {
      assert (a + c)[i] == a[i] && (a + c)[j] == a[j];
    }
  }

  /** A prefix of packages with unique names has unique names. */
  lemma UniqueNamesPrefix(a: seq<Package>, c: seq<Package>)
    requires UniqueNames(a + c)
    ensures UniqueNames(a)
  {
    forall i, j | 0 <= i < j < |a| ensures a[i].name != a[j].name {
      assert (a + c)[i] == a[i] && (a + c)[j] == a[j];
    }
  }

  /** Adding a package whose name is new appends it without types. */
  lemma AddPackageNew(b: Builder, q: Package)
    requires UniqueNames(b.packages + [q])
    ensures AddPackage(b, q) == (Builder(b.packages + [Package(q.id, q.name, [])]), |b.packages|)
  {
    forall k | 0 <= k < |b.packages| ensures b.packages[k].name != q.name {
      assert (b.packages + [q])[k] == b.packages[k] && (b.packages + [q])[|b.packages|] == q;
    }
  }

  // ---------------------------------------------------------------------------
  // Rebuilding a table from its own entries
  // ---------------------------------------------------------------------------

  /**
   * A table `Rebuild` can reproduce from its entries: well formed, and no package
   * without types (the entry list never mentions such a package).
   */
  predicate Rebuildable(t: Table) {
    WellFormed(t) && forall i :: 0 <= i < |t.packages| ==> |t.packages[i].types| > 0
  }

  /** The type with `f` applied to each of its entries. */
  function MapType(t: Type, f: Entry -> Entry): (r: Type)
    ensures r.id == t.id && r.name == t.name && |r.entries| == |t.entries|
    ensures forall k :: 0 <= k < |t.entries| ==> r.entries[k] == f(t.entries[k])
  {
    t.(entries := seq(|t.entries|, k requires 0 <= k < |t.entries| => f(t.entries[k])))
  }

  function MapTypes(ts: seq<Type>, f: Entry -> Entry): (r: seq<Type>)
    ensures |r| == |ts| && forall j :: 0 <= j < |ts| ==> r[j] == MapType(ts[j], f)
  {
    seq(|ts|, j requires 0 <= j < |ts| => MapType(ts[j], f))
  }

  /** The package with `f` applied to every entry of every type. */
  function MapPackage(p: Package, f: Entry -> Entry): (r: Package)
    ensures r.id == p.id && r.name == p.name && r.types == MapTypes(p.types, f)
  {
    p.(types := MapTypes(p.types, f))
  }

  function MapPackages(ps: seq<Package>, f: Entry -> Entry): (r: seq<Package>)
    ensures |r| == |ps| && forall i :: 0 <= i < |ps| ==> r[i] == MapPackage(ps[i], f)
  {
    seq(|ps|, i requires 0 <= i < |ps| => MapPackage(ps[i], f))
  }

  /** The table with `f` applied to every entry, packages and types in place. */
  function MapTable(t: Table, f: Entry -> Entry): (r: Table)
    ensures r.packages == MapPackages(t.packages, f)
  {
    Table(MapPackages(t.packages, f))
  }

  /** Table entries with `f` applied to each entry, their package and type kept. */
  function MapEntries(xs: seq<TableEntry>, f: Entry -> Entry): (ys: seq<TableEntry>)
    ensures |ys| == |xs| && forall i :: 0 <= i < |xs| ==> ys[i] == TableEntry(xs[i].pkg, xs[i].typ, f(xs[i].entry))
  {
    seq(|xs|, i requires 0 <= i < |xs| => TableEntry(xs[i].pkg, xs[i].typ, f(xs[i].entry)))
  }

  /** Entries all filed under package `p` and type `t`. */
  function Tagged(p: Package, t: Type, es: seq<Entry>): (r: seq<TableEntry>)
    ensures |r| == |es| && forall k :: 0 <= k < |es| ==> r[k] == TableEntry(p, t, es[k])
  {
    seq(|es|, k requires 0 <= k < |es| => TableEntry(p, t, es[k]))
  }

  /** Adding a list of entries in two runs adds the whole list. */
  lemma {:induction false} AddAllAppend(b: Builder, xs: seq<TableEntry>, ys: seq<TableEntry>)
    ensures AddAll(b, xs + ys) == AddAll(AddAll(b, xs), ys)
    decreases |xs|
  {
    if |xs| == 0 {
      assert xs + ys == ys;
    } else {
      assert (xs + ys)[0] == xs[0] && (xs + ys)[1..] == xs[1..] + ys;
      AddAllAppend(AddOne(b, xs[0]), xs[1..], ys);
    }
  }

  /** With unique names, the search finds the package holding the name. */
  lemma PackageIndexUnique(ps: seq<Package>, i: nat, name: string)
    requires i < |ps| && ps[i].name == name && UniqueNames(ps)
    ensures PackageIndex(ps, name) == Some(i)
  {
    var r := PackageIndex(ps, name);
    assert r.Some?;
  }

  /** `addResource` reads only the id and name of the type it is given. */
  lemma AddResourceSameType(b: Builder, pi: nat, tt: Type, t: Type, e: Entry)
    requires pi < |b.packages| && tt.id == t.id && tt.name == t.name
    ensures AddResource(b, pi, tt, e) == AddResource(b, pi, t, e)
  {
    assert EnsureType(b.packages[pi].types, tt) == EnsureType(b.packages[pi].types, t);
  }

  /** Entries filed under a package the builder holds go, one by one, to that package. */
  lemma {:induction false} AddAllTagged(b: Builder, pi: nat, p: Package, tt: Type, t: Type, es: seq<Entry>)
    requires Valid(b) && pi < |b.packages| && b.packages[pi].name == p.name
    requires tt.id == t.id && tt.name == t.name
    ensures AddAll(b, Tagged(p, tt, es)) == ReplayEntries(b, pi, t, es)
    decreases |es|
  {
    if |es| > 0 {
      var xs := Tagged(p, tt, es);
      PackageIndexUnique(b.packages, pi, p.name);
      assert AddPackage(b, p) == (b, pi);
      AddResourceSameType(b, pi, tt, t, es[0]);
      var b1 := AddResource(b, pi, t, es[0]);
      assert AddOne(b, xs[0]) == b1;
      assert xs[1..] == Tagged(p, tt, es[1..]);
      AddAllTagged(b1, pi, p, tt, t, es[1..]);
    }
  }

  /** Unique type ids depend only on the ids. */
  lemma UniqueTypeIdsSameIds(a: seq<Type>, c: seq<Type>)
    requires |a| == |c| && (forall j :: 0 <= j < |a| ==> a[j].id == c[j].id) && UniqueTypeIds(a)
    ensures UniqueTypeIds(c)
  {
    forall i, j | 0 <= i < j < |c| ensures c[i].id != c[j].id {
      assert a[i].id != a[j].id;
    }
  }

  /** Unique package names depend only on the names. */
  lemma UniqueNamesSameNames(a: seq<Package>, c: seq<Package>)
    requires |a| == |c| && (forall i :: 0 <= i < |a| ==> a[i].name == c[i].name) && UniqueNames(a)
    ensures UniqueNames(c)
  {
    forall i, j | 0 <= i < j < |c| ensures c[i].name != c[j].name {
      assert a[i].name != a[j].name;
    }
  }

  /** Changing a non-empty list of types is changing its head, then its tail. */
  lemma MapTypesTail(ts: seq<Type>, f: Entry -> Entry)
    requires |ts| > 0
    ensures MapTypes(ts, f)[0] == MapType(ts[0], f) && MapTypes(ts, f)[1..] == MapTypes(ts[1..], f)
  {
  }

  /** The entries of a type, changed by `f`, are that type's changed entries filed under it. */
  lemma MapTypeEntries(p: Package, t: Type, f: Entry -> Entry)
    ensures MapEntries(TypeEntries(p, t), f) == Tagged(p, t, MapType(t, f).entries)
  {
  }

  /** The entries of one well-formed type with a new id, changed by `f`, append that type, changed. */
  lemma AddAllType(b: Builder, pi: nat, p: Package, t: Type, f: Entry -> Entry)
    requires Valid(b) && pi < |b.packages| && b.packages[pi].name == p.name
    requires UniqueTypeIds(b.packages[pi].types + [t]) && TypeWellFormed(t)
    ensures var q := b.packages[pi];
      AddAll(b, MapEntries(TypeEntries(p, t), f)) == Builder(b.packages[pi := q.(types := q.types + [MapType(t, f)])])
  {
    var t' := MapType(t, f);
    MapTypeEntries(p, t, f);
    AddAllTagged(b, pi, p, t, t', t'.entries);
    UniqueTypeIdsLast(b.packages[pi].types, t, t');
    ReplayNewType(b, pi, t');
  }

  /** Unique type ids do not depend on anything but the id of the last type. */
  lemma UniqueTypeIdsLast(ts: seq<Type>, t: Type, t': Type)
    requires UniqueTypeIds(ts + [t]) && t'.id == t.id
    ensures UniqueTypeIds(ts + [t'])
  {
    UniqueTypeIdsSameIds(ts + [t], ts + [t']);
  }

  /** After one type is appended, the builder is still valid and the rest still has fresh ids. */
  lemma AddAllTypesValid(b: Builder, pi: nat, ts: seq<Type>, f: Entry -> Entry)
    requires Valid(b) && pi < |b.packages| && |ts| > 0
    requires UniqueTypeIds(b.packages[pi].types + ts)
    ensures var q := b.packages[pi]; var q1 := q.(types := q.types + [MapType(ts[0], f)]);
      Valid(Builder(b.packages[pi := q1])) && UniqueTypeIds(q1.types + ts[1..])
      && UniqueTypeIds(q.types + [ts[0]])
  {
    var q := b.packages[pi];
    var q1 := q.(types := q.types + [MapType(ts[0], f)]);
    AppendHeadTail(q.types, ts);
    UniqueTypeIdsPrefix(q.types + [ts[0]], ts[1..]);
    UniqueTypeIdsSameIds(q.types + [ts[0]], q1.types);
    UniqueNamesSameNames(b.packages, b.packages[pi := q1]);
    UniqueTypeIdsSameIds(q.types + ts, q1.types + ts[1..]);
  }

  /** Appending the changed head, then the changed tail, appends all the changed types. */
  lemma AddAllTypesJoin(ps: seq<Package>, pi: nat, ts: seq<Type>, f: Entry -> Entry)
    requires pi < |ps| && |ts| > 0
    ensures var q := ps[pi]; var q1 := q.(types := q.types + [MapType(ts[0], f)]);
      ps[pi := q1][pi := q1.(types := q1.types + MapTypes(ts[1..], f))] == ps[pi := q.(types := q.types + MapTypes(ts, f))]
  {
    var q := ps[pi];
    var q1 := q.(types := q.types + [MapType(ts[0], f)]);
    MapTypesTail(ts, f);
    AppendHeadTail(q.types, MapTypes(ts, f));
    UpdateTwice(ps, pi, q1, q.(types := q.types + MapTypes(ts, f)));
  }

  /** The changed entries of a list of types are those of its head, then those of its tail. */
  lemma MapTypesEntries(p: Package, ts: seq<Type>, f: Entry -> Entry)
    requires |ts| > 0
    ensures MapEntries(TypesEntries(p, ts), f) == MapEntries(TypeEntries(p, ts[0]), f) + MapEntries(TypesEntries(p, ts[1..]), f)
  {
  }

  /**
   * The entries of well-formed types, changed by `f` and added to a package the builder
   * holds, append those types, changed, to that package.
   */
  lemma {:induction false} AddAllTypes(b: Builder, pi: nat, p: Package, ts: seq<Type>, f: Entry -> Entry)
    requires Valid(b) && pi < |b.packages| && b.packages[pi].name == p.name
    requires UniqueTypeIds(b.packages[pi].types + ts) && forall j :: 0 <= j < |ts| ==> TypeWellFormed(ts[j])
    ensures var q := b.packages[pi];
      AddAll(b, MapEntries(TypesEntries(p, ts), f)) == Builder(b.packages[pi := q.(types := q.types + MapTypes(ts, f))])
    decreases |ts|
  {
    var q := b.packages[pi];
    if |ts| == 0 {
      assert MapEntries(TypesEntries(p, ts), f) == [];
      assert q.types + MapTypes(ts, f) == q.types;
      assert b.packages[pi := q] == b.packages;
    } else {
      MapTypesEntries(p, ts, f);
      AddAllAppend(b, MapEntries(TypeEntries(p, ts[0]), f), MapEntries(TypesEntries(p, ts[1..]), f));
      AddAllTypesValid(b, pi, ts, f);
      AddAllType(b, pi, p, ts[0], f);
      var q1 := q.(types := q.types + [MapType(ts[0], f)]);
      var b1 := Builder(b.packages[pi := q1]);
      AddAllTypes(b1, pi, p, ts[1..], f);
      AddAllTypesJoin(b.packages, pi, ts, f);
    }
  }

  /** A fresh package without types keeps the builder valid. */
  lemma ValidNewPackage(b: Builder, p: Package)
    requires Valid(b) && UniqueNames(b.packages + [p])
    ensures Valid(Builder(b.packages + [Package(p.id, p.name, [])]))
  {
    var c := b.packages + [Package(p.id, p.name, [])];
    UniqueNamesSameNames(b.packages + [p], c);
    forall i | 0 <= i < |c| ensures UniqueTypeIds(c[i].types) {
      if i < |b.packages| {
        assert c[i] == b.packages[i];
      }
    }
  }

  /**
   * When the first of some entries is filed under a package whose name the builder
   * lacks, adding them starts by appending that package without types.
   */
  lemma {:induction false} AddAllFirstNew(b: Builder, p: Package, xs: seq<TableEntry>)
    requires Valid(b) && UniqueNames(b.packages + [p]) && |xs| > 0 && xs[0].pkg == p
    ensures AddAll(b, xs) == AddAll(Builder(b.packages + [Package(p.id, p.name, [])]), xs)
  {
    var b0 := Builder(b.packages + [Package(p.id, p.name, [])]);
    var pi := |b.packages|;
    AddPackageNew(b, p);
    ValidNewPackage(b, p);
    PackageIndexUnique(b0.packages, pi, p.name);
    assert AddPackage(b0, p) == (b0, pi);
    assert AddOne(b, xs[0]) == AddOne(b0, xs[0]);
  }

  /** The changed entries of a package with a well-formed first type start with an entry filed under it. */
  lemma PackageEntriesFirst(p: Package, f: Entry -> Entry)
    requires |p.types| > 0 && TypeWellFormed(p.types[0])
    ensures var xs := MapEntries(TypesEntries(p, p.types), f); |xs| > 0 && xs[0].pkg == p
  {
    var t := p.types[0];
    var xs := MapEntries(TypesEntries(p, p.types), f);
    assert TypesEntries(p, p.types) == TypeEntries(p, t) + TypesEntries(p, p.types[1..]);
    assert TypesEntries(p, p.types)[0] == TypeEntries(p, t)[0];
  }

  /**
   * The entries of a well-formed package whose name the builder lacks, changed by `f`,
   * append that package, changed.
   */
  lemma AddAllPackage(b: Builder, p: Package, f: Entry -> Entry)
    requires Valid(b) && UniqueNames(b.packages + [p])
    requires TypesWellFormed(p.types) && |p.types| > 0
    ensures AddAll(b, MapEntries(TypesEntries(p, p.types), f)) == Builder(b.packages + [MapPackage(p, f)])
  {
    var xs := MapEntries(TypesEntries(p, p.types), f);
    var e := Package(p.id, p.name, []);
    var b0 := Builder(b.packages + [e]);
    var pi := |b.packages|;
    PackageEntriesFirst(p, f);
    AddAllFirstNew(b, p, xs);
    ValidNewPackage(b, p);
    assert b0.packages[pi].types + p.types == p.types;
    AddAllTypes(b0, pi, p, p.types, f);
    assert e.(types := [] + MapTypes(p.types, f)) == MapPackage(p, f);
    SnocUpdate(b.packages, e, MapPackage(p, f));
  }

  /** A package appended after changing its entries keeps the builder valid and the names fresh. */
  lemma AddAllPackagesValid(b: Builder, ps: seq<Package>, f: Entry -> Entry)
    requires Valid(b) && UniqueNames(b.packages + ps) && |ps| > 0 && TypesWellFormed(ps[0].types)
    ensures Valid(Builder(b.packages + [MapPackage(ps[0], f)]))
    ensures UniqueNames(b.packages + [ps[0]])
    ensures UniqueNames(b.packages + [MapPackage(ps[0], f)] + ps[1..])
  {
    var p := ps[0];
    var ps1 := b.packages + [p];
    var c := b.packages + [MapPackage(p, f)];
    assert b.packages + ps == ps1 + ps[1..];
    UniqueNamesPrefix(ps1, ps[1..]);
    UniqueNamesSameNames(ps1, c);
    UniqueTypeIdsSameIds(p.types, MapTypes(p.types, f));
    forall i | 0 <= i < |c| ensures UniqueTypeIds(c[i].types) {
      if i < |b.packages| {
        assert c[i] == b.packages[i];
      }
    }
    UniqueNamesSameNames(b.packages + ps, c + ps[1..]);
  }

  /** Changing a non-empty list of packages is changing its head, then its tail. */
  lemma MapPackagesTail(ps: seq<Package>, f: Entry -> Entry)
    requires |ps| > 0
    ensures MapPackages(ps, f)[0] == MapPackage(ps[0], f) && MapPackages(ps, f)[1..] == MapPackages(ps[1..], f)
  {
  }

  /** The changed entries of packages are those of the first, then those of the rest. */
  lemma MapPackagesEntries(ps: seq<Package>, f: Entry -> Entry)
    requires |ps| > 0
    ensures MapEntries(PackagesEntries(ps), f)
      == MapEntries(TypesEntries(ps[0], ps[0].types), f) + MapEntries(PackagesEntries(ps[1..]), f)
  {
  }

  /**
   * The entries of well-formed packages with fresh names, each with at least one type,
   * changed by `f`, append those packages, changed, in order.
   */
  lemma {:induction false} AddAllPackages(b: Builder, ps: seq<Package>, f: Entry -> Entry)
    requires Valid(b) && UniqueNames(b.packages + ps)
    requires forall i :: 0 <= i < |ps| ==> TypesWellFormed(ps[i].types) && |ps[i].types| > 0
    ensures AddAll(b, MapEntries(PackagesEntries(ps), f)) == Builder(b.packages + MapPackages(ps, f))
    decreases |ps|
  {
    if |ps| == 0 {
      assert MapEntries(PackagesEntries(ps), f) == [];
      assert b.packages + MapPackages(ps, f) == b.packages;
    } else {
      var p := ps[0];
      MapPackagesEntries(ps, f);
      AddAllAppend(b, MapEntries(TypesEntries(p, p.types), f), MapEntries(PackagesEntries(ps[1..]), f));
      AddAllPackagesValid(b, ps, f);
      AddAllPackage(b, p, f);
      var b1 := Builder(b.packages + [MapPackage(p, f)]);
      AddAllPackages(b1, ps[1..], f);
      MapPackagesTail(ps, f);
      AppendHeadTail(b.packages, MapPackages(ps, f));
    }
  }

  /**
   * Handing every entry of a table, changed by `f`, to a fresh builder gives the table
   * back with its entries changed, when the builder can reproduce the table at all.
   */
  lemma RebuildMapped(t: Table, f: Entry -> Entry)
    requires Rebuildable(t)
    ensures Rebuild(MapEntries(Entries(t), f)) == MapTable(t, f)
  {
    assert Empty.packages + t.packages == t.packages;
    AddAllPackages(Empty, t.packages, f);
    assert Empty.packages + MapPackages(t.packages, f) == MapPackages(t.packages, f);
  }
}
