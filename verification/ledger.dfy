/**
 * The ledger read back: parsing the lines `writeMappingToFile` produces gives back
 * the directory, resource and entry-file maps, for names the format can carry.
 */
module MappingLedger {
  import opened Wrappers
  import opened Strings
  import opened Seqs
  import opened ResourceMapping
  import opened ResourcesMappingParser

  /** No character the regex `.` refuses. */
  predicate NoTerminator(s: string) {
    '\n' !in s && '\r' !in s && '\U{0085}' !in s && '\U{2028}' !in s && '\U{2029}' !in s
  }

  /** A name the ledger carries unchanged: nothing `trim` strips, no colon, no arrow, no line break. */
  predicate LedgerName(s: string) {
    IsTrimmed(s) && ':' !in s && !Contains(s, "->") && NoTerminator(s)
  }

  /** An id text that the leading whitespace run stops at and that does not cut the line short. */
  predicate LedgerId(id: string) {
    |id| > 0 && id[0] > ' ' && NoTerminator(id)
  }

  /** A directory pair the parser takes back: a slash in the raw path, no dot in either. */
  predicate DirOk(raw: string, obf: string) {
    LedgerName(raw) && LedgerName(obf) && '/' in raw && '.' !in raw && '.' !in obf
  }

  /** A resource pair the parser takes back: a ".R." name, and no slash anywhere on the line. */
  predicate ResourceOk(id: string, raw: string, obf: string) {
    LedgerId(id) && LedgerName(raw) && LedgerName(obf)
    && Contains(raw, ".R.") && '/' !in id && '/' !in raw && '/' !in obf
  }

  /** An entry-file pair the parser takes back: a slash in the raw path. */
  predicate EntryOk(id: string, raw: string, obf: string) {
    LedgerId(id) && LedgerName(raw) && LedgerName(obf) && '/' in raw
  }

  /** Every entry of the mapping can be written and read back. */
  predicate Writable(m: Mapping) {
    (forall k :: k in m.dirs ==> DirOk(k, m.dirs[k]))
    && Injective(m.resources)
    && (forall k :: k in m.resources ==> ResourceOk(IdText(m.nameToId, k), k, m.resources[k]))
    && (forall k :: k in m.entryFiles ==> EntryOk(IdText(m.pathToId, k), k, m.entryFiles[k]))
  }

  /**
   * Writing the ledger, in any key order, and parsing it back gives the directory,
   * resource and entry-file maps; the id maps are not read back.
   */
  lemma ParseWritten(m: Mapping, dk: seq<string>, rk: seq<string>, fk: seq<string>)
    requires Enumerates(dk, m.dirs.Keys) && Enumerates(rk, m.resources.Keys) && Enumerates(fk, m.entryFiles.Keys)
    requires Writable(m)
    ensures var r := Parse(MappingLines(m, dk, rk, fk));
      r.Ok? && r.value.dirs == m.dirs && r.value.resources == m.resources && r.value.entryFiles == m.entryFiles
      && r.value.nameToId == map[] && r.value.pathToId == map[]
  {
    WritableAlong(m, dk, rk, fk);
    ParseLedger(m, dk, rk, fk);
    PutAllEnumerated(m.dirs, dk);
    PutAllEnumerated(m.resources, rk);
    PutAllEnumerated(m.entryFiles, fk);
  }

  /** The conditions of `Writable`, read along the key enumerations. */
  lemma WritableAlong(m: Mapping, dk: seq<string>, rk: seq<string>, fk: seq<string>)
    requires Enumerates(dk, m.dirs.Keys) && Enumerates(rk, m.resources.Keys) && Enumerates(fk, m.entryFiles.Keys)
    requires Writable(m)
    ensures forall i :: 0 <= i < |dk| ==> dk[i] in m.dirs && DirOk(dk[i], m.dirs[dk[i]])
    ensures forall i :: 0 <= i < |rk| ==> rk[i] in m.resources && ResourceOk(IdText(m.nameToId, rk[i]), rk[i], m.resources[rk[i]])
    ensures forall i :: 0 <= i < |fk| ==> fk[i] in m.entryFiles && EntryOk(IdText(m.pathToId, fk[i]), fk[i], m.entryFiles[fk[i]])
    ensures DistinctValues(m.resources, rk)
  {
    assert forall i :: 0 <= i < |dk| ==> dk[i] in Elems(dk);
    assert forall i :: 0 <= i < |fk| ==> fk[i] in Elems(fk);
    InjectiveAlong(m.resources, rk);
  }

  /** The three sections parse one after the other, each putting its keys in order. */
  lemma ParseLedger(m: Mapping, dk: seq<string>, rk: seq<string>, fk: seq<string>)
    requires forall i :: 0 <= i < |dk| ==> dk[i] in m.dirs && DirOk(dk[i], m.dirs[dk[i]])
    requires forall i :: 0 <= i < |rk| ==> rk[i] in m.resources && ResourceOk(IdText(m.nameToId, rk[i]), rk[i], m.resources[rk[i]])
    requires forall i :: 0 <= i < |fk| ==> fk[i] in m.entryFiles && EntryOk(IdText(m.pathToId, fk[i]), fk[i], m.entryFiles[fk[i]])
    requires DistinctValues(m.resources, rk)
    ensures ParseFrom(EmptyMapping,
        Section(DirHeader, DirLines(m.dirs, dk))
        + Section(IdHeader, IdLines(m.resources, m.nameToId, rk))
        + Section(EntryHeader, IdLines(m.entryFiles, m.pathToId, fk)))
      == Ok(Mapping(PutAll(map[], m.dirs, dk), PutAll(map[], m.resources, rk), PutAll(map[], m.entryFiles, fk), map[], map[]))
  {
    var a := Section(DirHeader, DirLines(m.dirs, dk));
    var b := Section(IdHeader, IdLines(m.resources, m.nameToId, rk));
    var c := Section(EntryHeader, IdLines(m.entryFiles, m.pathToId, fk));
    var m0 := EmptyMapping;
    ParseFromAppend(m0, a + b, c);
    ParseFromAppend(m0, a, b);
    ParseSection(m0, DirHeader, DirLines(m.dirs, dk));
    ParseDirLines(m0, m.dirs, dk);
    var m1 := m0.(dirs := PutAll(map[], m.dirs, dk));
    ParseSection(m1, IdHeader, IdLines(m.resources, m.nameToId, rk));
    ParseResourceLines(m1, m.resources, m.nameToId, rk);
    var m2 := m1.(resources := PutAll(map[], m.resources, rk));
    ParseSection(m2, EntryHeader, IdLines(m.entryFiles, m.pathToId, fk));
    ParseEntryLines(m2, m.entryFiles, m.pathToId, fk);
  }

  // ---------------------------------------------------------------------------
  // Sections
  // ---------------------------------------------------------------------------

  /** Every header ends with a colon and starts with a letter, so the resource pattern skips it. */
  lemma HeaderSkipped(m: Mapping, h: string)
    requires h == DirHeader || h == IdHeader || h == EntryHeader
    ensures ParseLine(m, h) == Ok(m)
  {
    assert h[0] == 'r' && h[|h| - 1] == ':';
    assert LeadingSpace(h) == 0;
  }

  /** A section parses as its lines: the header and the empty lines are skipped. */
  lemma ParseSection(m: Mapping, h: string, body: seq<string>)
    requires h == DirHeader || h == IdHeader || h == EntryHeader
    ensures ParseFrom(m, Section(h, body)) == ParseFrom(m, body)
  {
    HeaderSkipped(m, h);
    ParseFromSkip(m, h, body + ["", ""]);
    ParseFromAppend(m, body, ["", ""]);
    if ParseFrom(m, body).Ok? {
      ParseFromBlank(ParseFrom(m, body).value);
    }
  }

  /** Parsing a first line, then the rest from its result. */
  lemma ParseFromCons(m: Mapping, line: string, rest: seq<string>)
    ensures ParseFrom(m, [line] + rest)
      == if ParseLine(m, line).Err? then Err(ParseLine(m, line).error) else ParseFrom(ParseLine(m, line).value, rest)
  {
    assert ([line] + rest)[1..] == rest;
  }

  /** A line that leaves the mapping as it is can be dropped from the front. */
  lemma ParseFromSkip(m: Mapping, line: string, rest: seq<string>)
    requires ParseLine(m, line) == Ok(m)
    ensures ParseFrom(m, [line] + rest) == ParseFrom(m, rest)
  {
    assert ([line] + rest)[1..] == rest;
  }

  lemma ParseFromBlank(m: Mapping)
    ensures ParseFrom(m, ["", ""]) == Ok(m)
  {
    assert ["", ""][1..] == [""];
    assert ParseFrom(m, [""]) == Ok(m);
  }

  /** `map.put` of every listed key, in order, with the key's value in `src`. */
  function PutAll(d: map<string, string>, src: map<string, string>, keys: seq<string>): map<string, string>
    requires forall i :: 0 <= i < |keys| ==> keys[i] in src
    decreases |keys|
  {
    if |keys| == 0 then d else PutAll(d[keys[0] := src[keys[0]]], src, keys[1..])
  }

  lemma {:induction false} PutAllFacts(d: map<string, string>, src: map<string, string>, keys: seq<string>)
    requires forall i :: 0 <= i < |keys| ==> keys[i] in src
    ensures forall k :: k in PutAll(d, src, keys) <==> k in d || k in keys
    ensures forall k :: k in keys ==> PutAll(d, src, keys)[k] == src[k]
    ensures forall k :: k in d && k !in keys ==> PutAll(d, src, keys)[k] == d[k]
    decreases |keys|
  {
    if |keys| > 0 {
      PutAllFacts(d[keys[0] := src[keys[0]]], src, keys[1..]);
      assert keys == [keys[0]] + keys[1..];
    }
  }

  /** Putting every key of an enumeration, starting from nothing, rebuilds the map. */
  lemma PutAllEnumerated(src: map<string, string>, keys: seq<string>)
    requires Enumerates(keys, src.Keys)
    ensures forall i :: 0 <= i < |keys| ==> keys[i] in src
    ensures PutAll(map[], src, keys) == src
  {
    assert forall i :: 0 <= i < |keys| ==> keys[i] in Elems(keys);
    PutAllFacts(map[], src, keys);
    assert forall k :: k in keys <==> k in Elems(keys);
  }

  lemma {:induction false} ParseDirLines(m: Mapping, src: map<string, string>, keys: seq<string>)
    requires forall i :: 0 <= i < |keys| ==> keys[i] in src && DirOk(keys[i], src[keys[i]])
    ensures ParseFrom(m, DirLines(src, keys)) == Ok(m.(dirs := PutAll(m.dirs, src, keys)))
    decreases |keys|
  {
    if |keys| > 0 {
      var k := keys[0];
      assert DirLines(src, keys) == [DirLine(k, src[k])] + DirLines(src, keys[1..]);
      ParseFromCons(m, DirLine(k, src[k]), DirLines(src, keys[1..]));
      ParseDirLine(m, k, src[k]);
      ParseDirLines(PutDirMapping(m, k, src[k]), src, keys[1..]);
    }
  }

  /** No value repeats along the listed keys. */
  predicate DistinctValues(src: map<string, string>, keys: seq<string>)
    requires forall i :: 0 <= i < |keys| ==> keys[i] in src
  {
    forall i, j :: 0 <= i < j < |keys| ==> src[keys[i]] != src[keys[j]]
  }

  lemma InjectiveAlong(src: map<string, string>, keys: seq<string>)
    requires Injective(src) && Enumerates(keys, src.Keys)
    ensures forall i :: 0 <= i < |keys| ==> keys[i] in src
    ensures DistinctValues(src, keys)
  {
    assert forall i :: 0 <= i < |keys| ==> keys[i] in Elems(keys);
  }

  /** Some key of `d` has value `v`. */
  predicate HasValue(d: map<string, string>, v: string) {
    exists k :: k in d && d[k] == v
  }

  lemma HasValueUpdate(d: map<string, string>, k: string, v: string, w: string)
    requires w != v && !HasValue(d, w)
    ensures !HasValue(d[k := v], w)
  {
    var d' := d[k := v];
    forall k' | k' in d' ensures d'[k'] != w {
      if k' != k {
        assert k' in d;
      }
    }
  }

  lemma {:induction false} ParseResourceLines(m: Mapping, src: map<string, string>, ids: map<string, string>, keys: seq<string>)
    requires forall i :: 0 <= i < |keys| ==> keys[i] in src && ResourceOk(IdText(ids, keys[i]), keys[i], src[keys[i]])
    requires DistinctValues(src, keys)
    requires forall i :: 0 <= i < |keys| ==> !HasValue(m.resources, src[keys[i]])
    ensures ParseFrom(m, IdLines(src, ids, keys)) == Ok(m.(resources := PutAll(m.resources, src, keys)))
    decreases |keys|
  {
    if |keys| > 0 {
      var k := keys[0];
      var v := src[k];
      IdLinesCons(src, ids, keys);
      ParseFromCons(m, IdLine(IdText(ids, k), k, v), IdLines(src, ids, keys[1..]));
      ParseResourceLine(m, IdText(ids, k), k, v);
      StillFresh(m.resources, src, ids, keys);
      ParseResourceLines(m.(resources := m.resources[k := v]), src, ids, keys[1..]);
    }
  }

  /** The first line of a section and the lines of the remaining keys. */
  lemma IdLinesCons(src: map<string, string>, ids: map<string, string>, keys: seq<string>)
    requires |keys| > 0 && forall i :: 0 <= i < |keys| ==> keys[i] in src
    ensures var lines := IdLines(src, ids, keys);
      lines == [IdLine(IdText(ids, keys[0]), keys[0], src[keys[0]])] + IdLines(src, ids, keys[1..])
  {
  }

  /** After the first key's name is recorded, the remaining keys' names are still free. */
  lemma StillFresh(d: map<string, string>, src: map<string, string>, ids: map<string, string>, keys: seq<string>)
    requires |keys| > 0
    requires forall i :: 0 <= i < |keys| ==> keys[i] in src && ResourceOk(IdText(ids, keys[i]), keys[i], src[keys[i]])
    requires DistinctValues(src, keys)
    requires forall i :: 0 <= i < |keys| ==> !HasValue(d, src[keys[i]])
    ensures var t := keys[1..];
      (forall i :: 0 <= i < |t| ==> t[i] in src && ResourceOk(IdText(ids, t[i]), t[i], src[t[i]]))
      && DistinctValues(src, t)
      && forall i :: 0 <= i < |t| ==> !HasValue(d[keys[0] := src[keys[0]]], src[t[i]])
  {
    var t := keys[1..];
    forall i | 0 <= i < |t| ensures !HasValue(d[keys[0] := src[keys[0]]], src[t[i]]) {
      assert t[i] == keys[i + 1];
      HasValueUpdate(d, keys[0], src[keys[0]], src[keys[i + 1]]);
    }
  }

  lemma {:induction false} ParseEntryLines(m: Mapping, src: map<string, string>, ids: map<string, string>, keys: seq<string>)
    requires forall i :: 0 <= i < |keys| ==> keys[i] in src && EntryOk(IdText(ids, keys[i]), keys[i], src[keys[i]])
    ensures ParseFrom(m, IdLines(src, ids, keys)) == Ok(m.(entryFiles := PutAll(m.entryFiles, src, keys)))
    decreases |keys|
  {
    if |keys| > 0 {
      var k := keys[0];
      IdLinesCons(src, ids, keys);
      ParseFromCons(m, IdLine(IdText(ids, k), k, src[k]), IdLines(src, ids, keys[1..]));
      ParseEntryLine(m, IdText(ids, k), k, src[k]);
      ParseEntryLines(PutEntryFileMapping(m, k, src[k]), src, ids, keys[1..]);
    }
  }

  // ---------------------------------------------------------------------------
  // Single lines
  // ---------------------------------------------------------------------------

  /** A tab followed by a text that starts with a visible character: the body is that text. */
  lemma TabBody(rest: string)
    requires |rest| > 0 && rest[0] > ' ' && NoTerminator(rest)
    ensures LeadingSpace("\t" + rest) == 1 && Body("\t" + rest) == rest
  {
    var line := "\t" + rest;
    assert line[1..] == rest;
    assert LeadingSpace(rest) == 0;
    forall i | 1 <= i < |line| ensures !IsLineTerminator(line[i]) {
      assert line[i] == rest[i - 1];
    }
  }

  /** The last arrow of `x + " -> " + obf` is the written one when `obf` holds no arrow. */
  lemma LastArrow(x: string, obf: string)
    requires !Contains(obf, "->")
    ensures LastIndexOf(x + " -> " + obf, "->") == Some(|x| + 1)
  {
    var s := x + " -> " + obf;
    assert s[|x| + 1..|x| + 3] == "->";
    forall j: nat | |x| + 1 < j ensures !OccursAt(s, "->", j) {
      if j >= |x| + 4 {
        assert s == (x + " -> ") + obf;
        OccursInSuffix(x + " -> ", obf, "->", j - (|x| + 4));
      } else {
        assert s[j] != '-';
      }
    }
    LastIndexOfIs(s, "->", |x| + 1);
  }

  /** The last colon of `id + " : " + raw + " "` is the written one when `raw` holds none. */
  lemma LastColon(id: string, raw: string)
    requires ':' !in raw
    ensures LastIndexOf(id + " : " + raw + " ", ":") == Some(|id| + 1)
  {
    var s := id + " : " + raw + " ";
    OccursAtSingle(s, ':', |id| + 1);
    forall j: nat | |id| + 1 < j ensures !OccursAt(s, ":", j) {
      OccursAtSingle(s, ':', j);
      if |id| + 3 <= j < |id| + 3 + |raw| {
        assert s[j] == raw[j - (|id| + 3)];
      }
    }
    LastIndexOfIs(s, ":", |id| + 1);
  }

  lemma DirLineGroups(raw: string, obf: string)
    requires DirOk(raw, obf)
    ensures DirGroups(DirLine(raw, obf)) == Some((raw + " ", " " + obf))
  {
    var rest := raw + " -> " + obf;
    assert raw[0] > ' ';
    TabBody(rest);
    LastArrow(raw, obf);
    ArrowParts(raw, obf);
    DirGroupsAt(DirLine(raw, obf), rest, |raw| + 1);
  }

  lemma ArrowParts(x: string, obf: string)
    ensures var rest := x + " -> " + obf;
      rest[..|x| + 1] == x + " " && rest[|x| + 3..] == " " + obf
  {
  }

  lemma ParseDirLine(m: Mapping, raw: string, obf: string)
    requires DirOk(raw, obf)
    ensures ParseLine(m, DirLine(raw, obf)) == Ok(PutDirMapping(m, raw, obf))
  {
    var line := DirLine(raw, obf);
    DirLineGroups(raw, obf);
    assert ':' !in line && '/' in line && '.' !in line;
    TrimSpaced(raw);
    TrimSpaced(obf);
  }

  lemma IdLineGroups(id: string, raw: string, obf: string)
    requires LedgerId(id) && LedgerName(raw) && LedgerName(obf)
    ensures ResGroups(IdLine(id, raw, obf)) == Some((id + " ", " " + raw + " ", " " + obf))
  {
    var x := id + " : " + raw;
    var rest := x + " -> " + obf;
    TabBody(rest);
    LastArrow(x, obf);
    ArrowParts(x, obf);
    LastColon(id, raw);
    IdLineParts(id, raw, obf);
    ResGroupsAt(IdLine(id, raw, obf), rest, |x| + 1, |id| + 1);
  }

  lemma IdLineParts(id: string, raw: string, obf: string)
    ensures var x := id + " : " + raw; var rest := x + " -> " + obf;
      rest[..|id| + 1] == id + " " && rest[|id| + 2..|x| + 1] == " " + raw + " " && rest[|x| + 3..] == " " + obf
  {
  }

  lemma ParseResourceLine(m: Mapping, id: string, raw: string, obf: string)
    requires ResourceOk(id, raw, obf) && !HasValue(m.resources, obf)
    ensures ParseLine(m, IdLine(id, raw, obf)) == Ok(m.(resources := m.resources[raw := obf]))
  {
    var line := IdLine(id, raw, obf);
    IdLineGroups(id, raw, obf);
    assert ':' in line && '/' !in line;
    TrimSpaced(raw);
    TrimSpaced(obf);
  }

  lemma ParseEntryLine(m: Mapping, id: string, raw: string, obf: string)
    requires EntryOk(id, raw, obf)
    ensures ParseLine(m, IdLine(id, raw, obf)) == Ok(PutEntryFileMapping(m, raw, obf))
  {
    var line := IdLine(id, raw, obf);
    IdLineGroups(id, raw, obf);
    assert ':' in line && '/' in line;
    TrimSpaced(raw);
    TrimSpaced(obf);
  }
}
