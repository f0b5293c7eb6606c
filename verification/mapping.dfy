/**
 * `ResourceMapping`: the obfuscation ledger. It has three maps (resource directories,
 * resource names and entry-file paths, each from raw to obfuscated), two id maps used
 * only when the ledger is written, and the writer itself, which produces the ledger's
 * lines.
 */
module ResourceMapping {
  import opened Wrappers
  import opened Strings
  import opened Seqs

  datatype Mapping = Mapping(
    dirs: map<string, string>,
    resources: map<string, string>,
    entryFiles: map<string, string>,
    nameToId: map<string, string>,
    pathToId: map<string, string>)

  const EmptyMapping: Mapping := Mapping(map[], map[], map[], map[], map[])

  /** No two keys share a value. */
  predicate Injective(m: map<string, string>) {
    forall a, b :: a in m && b in m && a != b ==> m[a] != m[b]
  }

  /**
   * `getResourceSimpleName(name)`: the last piece of the name split at slashes. A name
   * made only of slashes splits into nothing, and reading its last piece fails.
   */
  function ResourceSimpleName(s: string): (r: Result<string>)
    ensures r.Err? <==> |s| > 0 && forall i :: 0 <= i < |s| ==> s[i] == '/'
    ensures r.Err? ==> r.error == IndexOutOfBounds
    ensures r.Ok? ==> '/' !in r.value
    ensures '/' !in s ==> r == Ok(s)
    ensures r.Ok? && '/' in s && s[|s| - 1] != '/' ==>
      0 < |r.value| < |s| && r.value == s[|s| - |r.value|..] && s[|s| - |r.value| - 1] == '/'
  {
    var values := Split(s, '/');
    SplitEmpty(s, '/');
    assert |s| > 0 && (forall i :: 0 <= i < |s| ==> s[i] == '/') ==> s[0] == '/';
    if |values| == 0 then Err(IndexOutOfBounds)
    else
      SplitLast(s);
      Ok(values[|values| - 1])
  }

  /** `putDirMapping(raw, obfuscated)`: records the directory; nothing else changes. */
  function PutDirMapping(m: Mapping, raw: string, obf: string): (r: Mapping)
    ensures raw in r.dirs && r.dirs[raw] == obf
    ensures forall k :: k != raw ==> (k in r.dirs <==> k in m.dirs) && (k in m.dirs ==> r.dirs[k] == m.dirs[k])
    ensures r.(dirs := m.dirs) == m
  {
    m.(dirs := m.dirs[raw := obf])
  }

  /**
   * `putResourceMapping(raw, obfuscated)`: refuses an obfuscated name already given to
   * some resource, so that no two resources end up with the same name.
   */
  function PutResourceMapping(m: Mapping, raw: string, obf: string): (r: Result<Mapping>)
    ensures r.Err? <==> exists k :: k in m.resources && m.resources[k] == obf
    ensures r.Err? ==> r.error == IllegalArgument
    ensures r.Ok? ==> raw in r.value.resources && r.value.resources[raw] == obf
    ensures r.Ok? ==> forall k :: k != raw ==>
      (k in r.value.resources <==> k in m.resources) && (k in m.resources ==> r.value.resources[k] == m.resources[k])
    ensures r.Ok? ==> r.value.(resources := m.resources) == m
    ensures r.Ok? && Injective(m.resources) ==> Injective(r.value.resources)
  {
    if obf in m.resources.Values then Err(IllegalArgument)
    else Ok(m.(resources := m.resources[raw := obf]))
  }

  /** `putEntryFileMapping(raw, obfuscated)`: records the entry file; nothing else changes. */
  function PutEntryFileMapping(m: Mapping, raw: string, obf: string): (r: Mapping)
    ensures raw in r.entryFiles && r.entryFiles[raw] == obf
    ensures forall k :: k != raw ==> (k in r.entryFiles <==> k in m.entryFiles) && (k in m.entryFiles ==> r.entryFiles[k] == m.entryFiles[k])
    ensures r.(entryFiles := m.entryFiles) == m
  {
    m.(entryFiles := m.entryFiles[raw := obf])
  }

  /** `addResourceNameAndId(name, id)`: records the id shown for a resource name. */
  function AddResourceNameAndId(m: Mapping, name: string, id: string): (r: Mapping)
    ensures name in r.nameToId && r.nameToId[name] == id
    ensures forall k :: k != name ==> (k in r.nameToId <==> k in m.nameToId) && (k in m.nameToId ==> r.nameToId[k] == m.nameToId[k])
    ensures r.(nameToId := m.nameToId) == m
  {
    m.(nameToId := m.nameToId[name := id])
  }

  /** `addResourcePathAndId(path, id)`: records the id shown for an entry path. */
  function AddResourcePathAndId(m: Mapping, path: string, id: string): (r: Mapping)
    ensures path in r.pathToId && r.pathToId[path] == id
    ensures forall k :: k != path ==> (k in r.pathToId <==> k in m.pathToId) && (k in m.pathToId ==> r.pathToId[k] == m.pathToId[k])
    ensures r.(pathToId := m.pathToId) == m
  {
    m.(pathToId := m.pathToId[path := id])
  }

  /**
   * `getPathMappingNameList()`: the last piece of every obfuscated directory path (an
   * empty path gives the empty name). A path made only of slashes makes it fail.
   */
  function PathMappingNameList(m: Mapping): (r: Result<set<string>>)
    ensures r.Err? <==> exists v :: v in m.dirs.Values && ResourceSimpleName(v).Err?
    ensures r.Ok? ==> forall x :: x in r.value <==> exists v :: v in m.dirs.Values && ResourceSimpleName(v) == Ok(x)
  {
    if exists v :: v in m.dirs.Values && ResourceSimpleName(v).Err? then Err(IndexOutOfBounds)
    else Ok(set v | v in m.dirs.Values && ResourceSimpleName(v).Ok? :: ResourceSimpleName(v).value)
  }

  /**
   * A directory recorded under `prefix + "/" + name` puts `name` among the names the
   * directory pass must not hand out again.
   */
  lemma DirNameListed(m: Mapping, raw: string, prefix: string, name: string)
    requires name != [] && '/' !in name
    requires PathMappingNameList(m).Ok?
    ensures var r := PathMappingNameList(PutDirMapping(m, raw, prefix + "/" + name));
      r.Ok? && name in r.value
  {
    var v := prefix + "/" + name;
    var m' := PutDirMapping(m, raw, v);
    SimpleNameOfDirPath(prefix, name);
    forall w | w in m'.dirs.Values ensures ResourceSimpleName(w).Ok? {
      var k :| k in m'.dirs && m'.dirs[k] == w;
      if k != raw {
        assert w in m.dirs.Values;
      }
    }
    assert v in m'.dirs.Values;
  }

  /** The simple name of `prefix/name` is `name`. */
  lemma SimpleNameOfDirPath(prefix: string, name: string)
    requires name != [] && '/' !in name
    ensures ResourceSimpleName(prefix + "/" + name) == Ok(name)
  {
    var v := prefix + "/" + name;
    assert v[|v| - 1] == name[|name| - 1];
    assert v[|prefix|] == '/';
    var n := ResourceSimpleName(v);
    forall i | |prefix| < i < |v| ensures v[i] != '/' {
      assert v[i] == name[i - |prefix| - 1];
    }
    SlashFreeTail(v, |prefix|, n.value);
    assert v[|prefix| + 1..] == name;
  }

  /** The slash-free tail after a slash at `j` is the last piece. */
  lemma SlashFreeTail(v: string, j: nat, n: string)
    requires j < |v| && v[j] == '/' && forall i :: j < i < |v| ==> v[i] != '/'
    requires |n| < |v| && n == v[|v| - |n|..] && v[|v| - |n| - 1] == '/' && '/' !in n
    ensures n == v[j + 1..]
  {
    forall i | |v| - |n| <= i < |v| ensures v[i] != '/' {
      assert v[i] == n[i - (|v| - |n|)];
    }
  }

  // ---------------------------------------------------------------------------
  // The written ledger
  // ---------------------------------------------------------------------------

  /**
   * `keys` lists the keys of a map in the order its entry set yields them: each key
   * exactly once.
   */
  predicate Enumerates(keys: seq<string>, ks: set<string>) {
    Distinct(keys) && Elems(keys) == ks
  }

  const DirHeader: string := "res dir mapping:"
  const IdHeader: string := "res id mapping:"
  const EntryHeader: string := "res entries path mapping:"

  /** The id written for a key: its recorded id, or "null" when it has none. */
  function IdText(ids: map<string, string>, key: string): string {
    if key in ids then ids[key] else "null"
  }

  function DirLine(raw: string, obf: string): string {
    "\t" + (raw + " -> " + obf)
  }

  function IdLine(id: string, raw: string, obf: string): string {
    "\t" + (id + " : " + raw + " -> " + obf)
  }

  function DirLines(m: map<string, string>, keys: seq<string>): (r: seq<string>)
    requires forall i :: 0 <= i < |keys| ==> keys[i] in m
    ensures |r| == |keys|
    ensures forall i :: 0 <= i < |keys| ==> r[i] == DirLine(keys[i], m[keys[i]])
  {
    if |keys| == 0 then [] else [DirLine(keys[0], m[keys[0]])] + DirLines(m, keys[1..])
  }

  function IdLines(m: map<string, string>, ids: map<string, string>, keys: seq<string>): (r: seq<string>)
    requires forall i :: 0 <= i < |keys| ==> keys[i] in m
    ensures |r| == |keys|
    ensures forall i :: 0 <= i < |keys| ==> r[i] == IdLine(IdText(ids, keys[i]), keys[i], m[keys[i]])
  {
    if |keys| == 0 then [] else [IdLine(IdText(ids, keys[0]), keys[0], m[keys[0]])] + IdLines(m, ids, keys[1..])
  }

  /** A section of the ledger: its header, its lines, and the two empty lines after them. */
  function Section(header: string, body: seq<string>): seq<string> {
    [header] + (body + ["", ""])
  }

  /**
   * `writeMappingToFile`, as the lines of the file: the directory, resource and
   * entry-file sections, each listing its keys in the given order.
   */
  function MappingLines(m: Mapping, dk: seq<string>, rk: seq<string>, fk: seq<string>): (r: seq<string>)
    requires Enumerates(dk, m.dirs.Keys) && Enumerates(rk, m.resources.Keys) && Enumerates(fk, m.entryFiles.Keys)
    ensures |r| == |dk| + |rk| + |fk| + 9 == |m.dirs| + |m.resources| + |m.entryFiles| + 9
    ensures r[0] == DirHeader && r[|dk| + 3] == IdHeader && r[|dk| + |rk| + 6] == EntryHeader
  {
    EnumeratesSize(dk, m.dirs.Keys);
    EnumeratesSize(rk, m.resources.Keys);
    EnumeratesSize(fk, m.entryFiles.Keys);
    var a := Section(DirHeader, DirLines(m.dirs, dk));
    var b := Section(IdHeader, IdLines(m.resources, m.nameToId, rk));
    var c := Section(EntryHeader, IdLines(m.entryFiles, m.pathToId, fk));
    assert (a + b + c)[|a|] == b[0];
    assert (a + b + c)[|a| + |b|] == c[0];
    a + b + c
  }

  /** An enumeration has as many elements as the set it lists. */
  lemma {:induction false} EnumeratesSize(keys: seq<string>, ks: set<string>)
    requires Enumerates(keys, ks)
    ensures |keys| == |ks|
  {
    if |keys| > 0 {
      DistinctTail(keys);
      ElemsCons(keys[0], keys[1..]);
      assert keys == [keys[0]] + keys[1..];
      EnumeratesSize(keys[1..], ks - {keys[0]});
    }
  }
}
