/**
 * `BundleStringFilter`: prunes the locales of the app's string resources down to a
 * language whitelist and blanks the values of strings a shrink run reported unused.
 * Only the entries of type "string" in the package with id 127 are touched; every
 * table is rebuilt package by package through the table builder.
 */
module BundleStringFilter {
  import opened Wrappers
  import opened Strings
  import opened Seqs
  import opened BundleModel
  import opened ResourceTableBuilder

  /** What a blanked string value reads. */
  const ReplaceValue: string := "[value removed]"

  /** The package id aapt2 gives the app's own resources. */
  const AppPackageId: nat := 127

  const StringTypeName: string := "string"

  /** The entries of `t` in `p` are the ones the filter works on. */
  predicate Targeted(p: Package, t: Type) {
    p.id == AppPackageId && t.name == StringTypeName
  }

  // ---------------------------------------------------------------------------
  // Locales
  // ---------------------------------------------------------------------------

  /**
   * `keepLanguage(locale)`: the default locale (empty or a single space) is always kept;
   * a locale with a dash is kept when the language before its first dash is
   * whitelisted; any other locale is kept when it is whitelisted whole.
   */
  function KeepLanguage(white: set<string>, lan: string): (keep: bool)
    ensures lan == [] || lan == " " ==> keep
    ensures lan != [] && lan != " " && '-' !in lan ==> (keep <==> lan in white)
    ensures forall k :: 0 <= k < |lan| && lan[k] == '-' && '-' !in lan[..k] ==> (keep <==> lan[..k] in white)
  {
    ContainsSingle(lan, '-');
    if lan == " " || lan == [] then true
    else match IndexOf(lan, "-")
      case Some(i) =>
        FirstDash(lan, i);
        lan[..i] in white
      case None => lan in white
  }

  /** The first occurrence of "-" is the one dash with none before it. */
  lemma FirstDash(lan: string, i: nat)
    requires IndexOf(lan, "-") == Some(i)
    ensures i < |lan| && lan[i] == '-' && '-' !in lan[..i]
    ensures forall k :: 0 <= k < |lan| && lan[k] == '-' && '-' !in lan[..k] ==> k == i
  {
    OccursAtSingle(lan, '-', i);
    forall k | 0 <= k < i ensures lan[k] != '-' {
      OccursAtSingle(lan, '-', k);
    }
    forall k | 0 <= k < |lan| && lan[k] == '-' && '-' !in lan[..k] ensures k == i {
      OccursAtSingle(lan, '-', k);
      InPrefix(lan, k, i);
    }
  }

  /**
   * The config values an entry keeps: all of them with an empty whitelist, otherwise
   * those whose locale `KeepLanguage` accepts, in their order.
   */
  function KeptConfigs(white: set<string>, cs: seq<ConfigValue>): (r: seq<ConfigValue>)
    ensures |r| <= |cs|
  {
    if |white| == 0 then cs else Filter(cs, (c: ConfigValue) => KeepLanguage(white, c.config.locale))
  }

  /** A config value survives the locale pruning exactly when it was there and its locale is kept. */
  lemma KeptConfigsMeans(white: set<string>, cs: seq<ConfigValue>, c: ConfigValue)
    ensures c in KeptConfigs(white, cs) <==> c in cs && (|white| == 0 || KeepLanguage(white, c.config.locale))
  {
    if |white| > 0 {
      FilterMember(cs, (c: ConfigValue) => KeepLanguage(white, c.config.locale), c);
    }
  }

  /** A whitelist that takes every locale of an entry leaves its config values as they are. */
  lemma KeptConfigsAll(white: set<string>, cs: seq<ConfigValue>)
    requires forall i :: 0 <= i < |cs| ==> KeepLanguage(white, cs[i].config.locale)
    ensures KeptConfigs(white, cs) == cs
  {
    if |white| > 0 {
      FilterAll(cs, (c: ConfigValue) => KeepLanguage(white, c.config.locale));
    }
  }

  // ---------------------------------------------------------------------------
  // Entries
  // ---------------------------------------------------------------------------

  /** Every config value with its item replaced by the "[value removed]" string; configurations and order stay. */
  function RemoveValues(cs: seq<ConfigValue>): (r: seq<ConfigValue>)
    ensures |r| == |cs|
    ensures forall i :: 0 <= i < |cs| ==> r[i].config == cs[i].config && r[i].item == Str(ReplaceValue)
  {
    seq(|cs|, i requires 0 <= i < |cs| => ConfigValue(cs[i].config, Str(ReplaceValue)))
  }

  /**
   * One entry of the loop: for a targeted entry the locales are pruned first (when
   * there is a whitelist), then, when its name is unused, every remaining value is
   * blanked. Other entries pass unchanged.
   */
  function FilterEntry(unused: set<string>, white: set<string>, p: Package, t: Type, e: Entry): (r: Entry)
    ensures r.id == e.id && r.name == e.name
    ensures !Targeted(p, t) ==> r == e
    ensures |white| == 0 && e.name !in unused ==> r == e
    ensures Targeted(p, t) && e.name !in unused ==> r.configs == KeptConfigs(white, e.configs)
    ensures Targeted(p, t) && e.name in unused ==> r.configs == RemoveValues(KeptConfigs(white, e.configs))
  {
    if !Targeted(p, t) then e
    else
      var e1 := if |white| > 0 then e.(configs := KeptConfigs(white, e.configs)) else e;
      if |unused| > 0 && e1.name in unused then e1.(configs := RemoveValues(e1.configs)) else e1
  }

  /** The entries of a type, each filtered. */
  function FilterType(unused: set<string>, white: set<string>, p: Package, t: Type): (r: Type)
    ensures r.id == t.id && r.name == t.name && |r.entries| == |t.entries|
    ensures forall k :: 0 <= k < |t.entries| ==> r.entries[k] == FilterEntry(unused, white, p, t, t.entries[k])
  {
    t.(entries := seq(|t.entries|, k requires 0 <= k < |t.entries| => FilterEntry(unused, white, p, t, t.entries[k])))
  }

  /** The types of a package, each filtered. */
  function FilterPackage(unused: set<string>, white: set<string>, p: Package): (r: Package)
    ensures r.id == p.id && r.name == p.name && |r.types| == |p.types|
    ensures forall j :: 0 <= j < |p.types| ==> r.types[j] == FilterType(unused, white, p, p.types[j])
  {
    p.(types := seq(|p.types|, j requires 0 <= j < |p.types| => FilterType(unused, white, p, p.types[j])))
  }

  // ---------------------------------------------------------------------------
  // Rebuilding package by package
  // ---------------------------------------------------------------------------

  /** `addPackage(package)`, then its types, for each package in order. A package without entries is still added. */
  function ReplayPackages(b: Builder, ps: seq<Package>): (r: Builder)
    ensures PackagesSize(r.packages) == PackagesSize(b.packages) + PackagesSize(ps)
    decreases |ps|
  {
    if |ps| == 0 then b
    else
      var (b1, pi) := AddPackage(b, ps[0]);
      PackageAppendSize(b.packages, Package(ps[0].id, ps[0].name, []));
      ReplayPackages(ReplayTypes(b1, pi, ps[0].types), ps[1..])
  }

  /** The table a pass builds when it hands every package, type and entry of `t` to a fresh builder. */
  function Replay(t: Table): (r: Table)
    ensures |Entries(r)| == |Entries(t)|
  {
    var r := Build(ReplayPackages(Empty, t.packages));
    EntriesSize(r.packages);
    EntriesSize(t.packages);
    r
  }

  /** Replaying well-formed packages with fresh names appends them to the builder, in order. */
  lemma {:induction false} ReplayPackagesAppend(b: Builder, ps: seq<Package>)
    requires UniqueNames(b.packages + ps)
    requires forall i :: 0 <= i < |ps| ==> TypesWellFormed(ps[i].types)
    ensures ReplayPackages(b, ps) == Builder(b.packages + ps)
    decreases |ps|
  {
    if |ps| == 0 {
      assert b.packages + ps == b.packages;
    } else {
      var q := ps[0];
      var ps1 := b.packages + [q];
      assert b.packages + ps == ps1 + ps[1..];
      UniqueNamesPrefix(ps1, ps[1..]);
      AddPackageNew(b, q);
      var b1 := Builder(b.packages + [Package(q.id, q.name, [])]);
      assert b1.packages[|b.packages|].types + q.types == q.types;
      ReplayTypesAppend(b1, |b.packages|, q.types);
      assert b1.packages[|b.packages| := Package(q.id, q.name, q.types)] == ps1;
      assert ReplayPackages(b, ps) == ReplayPackages(Builder(ps1), ps[1..]);
      ReplayPackagesAppend(Builder(ps1), ps[1..]);
    }
  }

  /** The builder gives back a well-formed table exactly as it was. */
  lemma ReplayWellFormed(t: Table)
    requires WellFormed(t)
    ensures Replay(t) == t
  {
    assert Empty.packages + t.packages == t.packages;
    ReplayPackagesAppend(Empty, t.packages);
  }

  // ---------------------------------------------------------------------------
  // Tables, modules and the bundle
  // ---------------------------------------------------------------------------

  /**
   * `obfuscateResourceTable` on a module's table: a table without packages gives the
   * empty table; otherwise every entry, filtered, goes through a fresh builder.
   */
  function FilterTable(unused: set<string>, white: set<string>, t: Table): (r: Table)
    ensures |Entries(r)| == |Entries(t)|
  {
    if |t.packages| == 0 then Build(Empty)
    else
      var ps := seq(|t.packages|, i requires 0 <= i < |t.packages| => FilterPackage(unused, white, t.packages[i]));
      FilterPackagesSize(unused, white, t.packages, ps);
      EntriesSize(ps);
      EntriesSize(t.packages);
      Replay(Table(ps))
  }

  /** Filtering keeps the number of entries of each type, hence of the packages. */
  lemma {:induction false} FilterPackagesSize(unused: set<string>, white: set<string>, ps: seq<Package>, qs: seq<Package>)
    requires |qs| == |ps| && forall i :: 0 <= i < |ps| ==> qs[i] == FilterPackage(unused, white, ps[i])
    ensures PackagesSize(qs) == PackagesSize(ps)
    decreases |ps|
  {
    if |ps| > 0 {
      FilterTypesSize(unused, white, ps[0], ps[0].types, qs[0].types);
      FilterPackagesSize(unused, white, ps[1..], qs[1..]);
    }
  }

  lemma {:induction false} FilterTypesSize(unused: set<string>, white: set<string>, p: Package, ts: seq<Type>, us: seq<Type>)
    requires |us| == |ts| && forall j :: 0 <= j < |ts| ==> us[j] == FilterType(unused, white, p, ts[j])
    ensures TypesSize(us) == TypesSize(ts)
    decreases |ts|
  {
    if |ts| > 0 {
      FilterTypesSize(unused, white, p, ts[1..], us[1..]);
    }
  }

  /**
   * On a well-formed table the filter changes nothing but entries: the same packages
   * and types in the same order, and each entry replaced by its filtered self.
   */
  lemma FilterTableWellFormed(unused: set<string>, white: set<string>, t: Table)
    requires WellFormed(t)
    ensures var r := FilterTable(unused, white, t);
      |r.packages| == |t.packages|
      && forall i :: 0 <= i < |t.packages| ==> r.packages[i] == FilterPackage(unused, white, t.packages[i])
  {
    if |t.packages| > 0 {
      var ps := seq(|t.packages|, i requires 0 <= i < |t.packages| => FilterPackage(unused, white, t.packages[i]));
      forall i | 0 <= i < |ps| ensures TypesWellFormed(ps[i].types) {
        FilterTypesWellFormed(unused, white, t.packages[i]);
      }
      assert UniqueNames(ps) by {
        forall i, j | 0 <= i < j < |ps| ensures ps[i].name != ps[j].name {
          assert ps[i].name == t.packages[i].name && ps[j].name == t.packages[j].name;
        }
      }
      ReplayWellFormed(Table(ps));
    }
  }

  /** Filtering the types of a package keeps them well formed. */
  lemma FilterTypesWellFormed(unused: set<string>, white: set<string>, p: Package)
    requires TypesWellFormed(p.types)
    ensures TypesWellFormed(FilterPackage(unused, white, p).types)
  {
    var q := FilterPackage(unused, white, p);
    forall j | 0 <= j < |q.types| ensures TypeWellFormed(q.types[j]) {
      assert TypeWellFormed(p.types[j]);
    }
    assert UniqueTypeIds(q.types) by {
      forall i, j | 0 <= i < j < |q.types| ensures q.types[i].id != q.types[j].id {
        assert q.types[i].id == p.types[i].id && q.types[j].id == p.types[j].id;
      }
    }
  }

  /** `obfuscateBundleModule`: a module without a resource table comes back as it was; otherwise only its table changes. */
  function FilterModule(unused: set<string>, white: set<string>, md: Module): (r: Module)
    ensures md.table.None? ==> r == md
    ensures r.name == md.name && r.entries == md.entries && r.native == md.native
    ensures r.table.Some? == md.table.Some?
    ensures md.table.Some? ==> |Entries(r.table.value)| == |Entries(md.table.value)|
  {
    match md.table
    case None => md
    case Some(t) => md.(table := Some(FilterTable(unused, white, t)))
  }

  /**
   * `filter()`: the bundle as it was when there is neither an unused name nor a
   * whitelisted language; otherwise every module filtered. The unused names are those
   * of the shrink report, empty when there is none.
   */
  function FilterBundle(b: Bundle, unused: set<string>, white: set<string>): (r: Bundle)
    ensures |unused| == 0 && |white| == 0 ==> r == b
    ensures r.metadata == b.metadata && |r.modules| == |b.modules|
    ensures forall i :: 0 <= i < |b.modules| ==>
      r.modules[i].name == b.modules[i].name && r.modules[i].entries == b.modules[i].entries
      && r.modules[i].native == b.modules[i].native && (b.modules[i].table.None? ==> r.modules[i] == b.modules[i])
    ensures |unused| > 0 || |white| > 0 ==>
      forall i :: 0 <= i < |b.modules| ==> r.modules[i] == FilterModule(unused, white, b.modules[i])
  {
    if |unused| == 0 && |white| == 0 then b
    else b.(modules := seq(|b.modules|, i requires 0 <= i < |b.modules| => FilterModule(unused, white, b.modules[i])))
  }
}
