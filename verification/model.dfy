/**
 * The data the passes work on: bundletool's `ZipPath`, the aapt2 resource table
 * (`ResourceTable` / `Package` / `Type` / `Entry` / `ConfigValue`), module entries,
 * native-library directories and bundles.
 */
module BundleModel {
  import opened Wrappers
  import opened Strings
  import opened Seqs

  type Byte = b: int | 0 <= b < 256

  // ---------------------------------------------------------------------------
  // ZipPath
  // ---------------------------------------------------------------------------

  /** A path inside an archive: the names between the slashes. */
  datatype ZipPath = ZipPath(names: seq<string>)

  /** Every name is non-empty and slash-free, as `ZipPath.create` produces them. */
  predicate ValidPath(p: ZipPath) {
    forall i :: 0 <= i < |p.names| ==> p.names[i] != [] && '/' !in p.names[i]
  }

  /** `ZipPath.create(s)`: the non-empty pieces between slashes. */
  function CreatePath(s: string): (p: ZipPath)
    ensures ValidPath(p)
  {
    var keep := (x: string) => x != [];
    var names := Filter(Tokens(s, '/'), keep);
    assert forall i :: 0 <= i < |names| ==> names[i] in Tokens(s, '/');
    ZipPath(names)
  }

  /** `ZipPath.toString()`: the names joined with slashes. */
  function PathText(p: ZipPath): string {
    if |p.names| == 0 then "" else Join(p.names, '/')
  }

  /** `ZipPath.getParent()`: all names but the last; absent for the empty path. */
  function Parent(p: ZipPath): (r: Option<ZipPath>)
    ensures r.None? <==> |p.names| == 0
    ensures r.Some? ==> r.value.names + [p.names[|p.names| - 1]] == p.names
  {
    if |p.names| == 0 then None else Some(ZipPath(p.names[..|p.names| - 1]))
  }

  /** `path.startsWith(dir)` for a directory given as text: the names of `dir` are a prefix. */
  predicate StartsWithDir(p: ZipPath, dir: string) {
    CreatePath(dir).names <= p.names
  }

  /** Printing a valid path and reading it back gives the same path. */
  lemma CreatePathText(p: ZipPath)
    requires ValidPath(p)
    ensures CreatePath(PathText(p)) == p
  {
    if |p.names| == 0 {
      assert Tokens("", '/') == [[]];
    } else {
      TokensOfJoin(p.names);
      FilterAll(p.names, (x: string) => x != []);
    }
  }

  // ---------------------------------------------------------------------------
  // The resource table
  // ---------------------------------------------------------------------------

  /** The payload of a config value: a file reference, a string, or anything else (kept opaque). */
  datatype Item = File(path: string) | Str(value: string) | OtherItem(data: string)

  /** A configuration: its locale and, opaquely, every other qualifier. */
  datatype Config = Config(locale: string, qualifiers: string)

  datatype ConfigValue = ConfigValue(config: Config, item: Item)

  /** An entry; `id` is absent when the `EntryId` message is not initialised. */
  datatype Entry = Entry(id: Option<nat>, name: string, configs: seq<ConfigValue>)

  datatype Type = Type(id: nat, name: string, entries: seq<Entry>)

  datatype Package = Package(id: nat, name: string, types: seq<Type>)

  datatype Table = Table(packages: seq<Package>)

  /** `ResourceTableEntry`: an entry together with its package and type. */
  datatype TableEntry = TableEntry(pkg: Package, typ: Type, entry: Entry)

  function TypeEntries(p: Package, t: Type): (r: seq<TableEntry>)
    ensures |r| == |t.entries|
    ensures forall i :: 0 <= i < |r| ==> r[i] == TableEntry(p, t, t.entries[i])
  {
    seq(|t.entries|, i requires 0 <= i < |t.entries| => TableEntry(p, t, t.entries[i]))
  }

  function TypesEntries(p: Package, ts: seq<Type>): seq<TableEntry> {
    if |ts| == 0 then [] else TypeEntries(p, ts[0]) + TypesEntries(p, ts[1..])
  }

  function PackagesEntries(ps: seq<Package>): seq<TableEntry> {
    if |ps| == 0 then [] else TypesEntries(ps[0], ps[0].types) + PackagesEntries(ps[1..])
  }

  /** `ResourcesUtils.entries(table)`: every entry, package by package and type by type. */
  function Entries(t: Table): seq<TableEntry> {
    PackagesEntries(t.packages)
  }

  /** The file references of some entries, in order. */
  function FileRefs(es: seq<TableEntry>): seq<ZipPath> {
    if |es| == 0 then [] else ConfigFileRefs(es[0].entry.configs) + FileRefs(es[1..])
  }

  function ConfigFileRefs(cs: seq<ConfigValue>): seq<ZipPath> {
    if |cs| == 0 then []
    else (if cs[0].item.File? then [CreatePath(cs[0].item.path)] else []) + ConfigFileRefs(cs[1..])
  }

  /** `ResourcesUtils.getAllFileReferences(table)`, in table order. */
  function FileReferences(t: Table): seq<ZipPath> {
    FileRefs(Entries(t))
  }

  // ---------------------------------------------------------------------------
  // Modules and bundles
  // ---------------------------------------------------------------------------

  /** A file of a module; its bytes stand in for the archive content. */
  datatype ModuleEntry = ModuleEntry(path: ZipPath, content: seq<Byte>)

  /** `TargetedNativeDirectory`: a directory path and, opaquely, its targeting. */
  datatype NativeDirectory = NativeDirectory(path: string, targeting: string)

  datatype NativeLibraries = NativeLibraries(directories: seq<NativeDirectory>)

  datatype Module = Module(name: string, entries: seq<ModuleEntry>, table: Option<Table>, native: Option<NativeLibraries>)

  /** The number of entries of all the modules. */
  function TotalEntries(ms: seq<Module>): nat {
    if |ms| == 0 then 0 else |ms[0].entries| + TotalEntries(ms[1..])
  }

  /** A bundle: its modules (in the enumeration order of the module map) and its metadata files. */
  datatype Bundle = Bundle(modules: seq<Module>, metadata: seq<(string, seq<Byte>)>)

  const ResourcesDirectory: string := "res"

  /** `entry.getPath().startsWith("res")`: the entry is a resource file. */
  predicate IsResFile(e: ModuleEntry) {
    StartsWithDir(e.path, ResourcesDirectory)
  }

  const LibDirectory: string := "lib"
  const MetadataDirectory: string := "BUNDLE-METADATA"
}
