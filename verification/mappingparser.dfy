/**
 * `ResourcesMappingParser`: reads a ledger back, line by line. A line without a colon
 * is a directory line (`^\s+(.*)->(.*)`); a line with one is a resource or entry-file
 * line (`^\s+(.*):(.*)->(.*)`). A line that the pattern does not find is skipped.
 */
module ResourcesMappingParser {
  import opened Wrappers
  import opened Strings
  import opened Seqs
  import opened ResourceMapping

  // ---------------------------------------------------------------------------
  // The two patterns
  // ---------------------------------------------------------------------------

  /** How many characters the anchored, greedy `^\s+` takes: the whole leading whitespace run. */
  function LeadingSpace(s: string): (n: nat)
    ensures n <= |s|
    ensures forall i :: 0 <= i < n ==> IsRegexSpace(s[i])
    ensures n < |s| ==> !IsRegexSpace(s[n])
  {
    if |s| > 0 && IsRegexSpace(s[0]) then 1 + LeadingSpace(s[1..]) else 0
  }

  /** Where `.*` started at `from` stops: at the first line terminator, or at the end. */
  function SegmentEnd(s: string, from: nat): (t: nat)
    requires from <= |s|
    ensures from <= t <= |s|
    ensures forall i :: from <= i < t ==> !IsLineTerminator(s[i])
    ensures t < |s| ==> IsLineTerminator(s[t])
    decreases |s| - from
  {
    if from == |s| || IsLineTerminator(s[from]) then from else SegmentEnd(s, from + 1)
  }

  /**
   * The text the groups of either pattern share out: after the leading whitespace, up to
   * the first line terminator. `\n` and `\r` are both whitespace and terminators, but a
   * line from `readLine` holds neither, so on such a line the whitespace run holds no
   * terminator and giving back part of it never lets a group reach further.
   */
  function Body(line: string): (b: string)
    ensures forall i :: 0 <= i < |b| ==> !IsLineTerminator(b[i])
    ensures |b| == 0 || !IsRegexSpace(b[0])
    ensures LeadingSpace(line) + |b| <= |line|
    ensures b == line[LeadingSpace(line)..LeadingSpace(line) + |b|]
    ensures LeadingSpace(line) + |b| < |line| ==> IsLineTerminator(line[LeadingSpace(line) + |b|])
  {
    var a := LeadingSpace(line);
    line[a..SegmentEnd(line, a)]
  }

  /**
   * `MAP_DIR_PATTERN.matcher(line).find()` and its two groups: group 1 runs up to the
   * last "->" of the body (greedy), group 2 is the rest.
   */
  function DirGroups(line: string): (r: Option<(string, string)>)
    ensures r.None? <==> LeadingSpace(line) == 0 || !Contains(Body(line), "->")
    ensures r.Some? ==> Body(line) == r.value.0 + "->" + r.value.1 && !Contains(r.value.1, "->")
  {
    var b := Body(line);
    if LeadingSpace(line) == 0 then None
    else match LastIndexOf(b, "->")
      case None => None
      case Some(q) =>
        SplitAround(b, q, 2);
        NoLaterOccurrence(b[..q + 2], b[q + 2..], "->", q);
        Some((b[..q], b[q + 2..]))
  }

  /**
   * `MAP_RES_PATTERN.matcher(line).find()` and its three groups: group 3 is what follows
   * the last "->", group 2 what lies between the last colon before that arrow and the
   * arrow, group 1 everything before that colon.
   */
  function ResGroups(line: string): (r: Option<(string, string, string)>)
    ensures r.Some? ==>
      Body(line) == r.value.0 + ":" + r.value.1 + "->" + r.value.2
      && ':' !in r.value.1 && !Contains(r.value.2, "->")
    ensures LeadingSpace(line) == 0 || !Contains(Body(line), "->") ==> r.None?
  {
    var b := Body(line);
    if LeadingSpace(line) == 0 then None
    else match LastIndexOf(b, "->")
      case None => None
      case Some(q) =>
        match LastIndexOf(b[..q], ":")
        case None => None
        case Some(p) =>
          SplitAround(b, q, 2);
          NoLaterOccurrence(b[..q + 2], b[q + 2..], "->", q);
          ColonSplit(b[..q], p);
          assert b[..q] == b[..p] + ":" + b[p + 1..q];
          assert b == b[..p] + ":" + b[p + 1..q] + "->" + b[q + 2..];
          Some((b[..p], b[p + 1..q], b[q + 2..]))
  }

  /** The directory groups once the body and its last arrow are known. */
  lemma DirGroupsAt(line: string, b: string, q: nat)
    requires LeadingSpace(line) > 0 && Body(line) == b && LastIndexOf(b, "->") == Some(q)
    ensures DirGroups(line) == Some((b[..q], b[q + 2..]))
  {
  }

  /** The resource groups once the body, its last arrow and the last colon before it are known. */
  lemma ResGroupsAt(line: string, b: string, q: nat, p: nat)
    requires LeadingSpace(line) > 0 && Body(line) == b && LastIndexOf(b, "->") == Some(q)
    requires q <= |b| && LastIndexOf(b[..q], ":") == Some(p)
    ensures p < q && ResGroups(line) == Some((b[..p], b[p + 1..q], b[q + 2..]))
  {
  }

  /** A text cut around an occurrence at `q` of a pattern of length `n`. */
  lemma SplitAround(b: string, q: nat, n: nat)
    requires q + n <= |b|
    ensures b == b[..q] + b[q..q + n] + b[q + n..]
    ensures b[..q + n] == b[..q] + b[q..q + n]
  {
  }

  /** After the last occurrence, the rest of the text holds none. */
  lemma NoLaterOccurrence(a: string, c: string, p: string, q: nat)
    requires |a| == q + |p| && |p| > 0
    requires forall j: nat :: q < j ==> !OccursAt(a + c, p, j)
    ensures !Contains(c, p)
  {
    forall i: nat | i <= |c| ensures !OccursAt(c, p, i) {
      OccursInSuffix(a, c, p, i);
    }
  }

  /** An occurrence in the second part of a concatenation is one in the whole. */
  lemma OccursInSuffix(a: string, c: string, p: string, i: nat)
    ensures OccursAt(c, p, i) <==> OccursAt(a + c, p, |a| + i)
  {
    if i + |p| <= |c| {
      assert (a + c)[|a| + i..|a| + i + |p|] == c[i..i + |p|];
    }
  }

  /** The last colon of a text splits it into a part and a colon-free rest. */
  lemma ColonSplit(s: string, p: nat)
    requires OccursAt(s, ":", p) && forall j: nat :: p < j ==> !OccursAt(s, ":", j)
    ensures p < |s| && s[p] == ':' && ':' !in s[p + 1..]
    ensures s == s[..p] + ":" + s[p + 1..]
  {
    OccursAtSingle(s, ':', p);
    forall i | p < i < |s| ensures s[i] != ':' {
      OccursAtSingle(s, ':', i);
    }
  }

  // ---------------------------------------------------------------------------
  // Parsing
  // ---------------------------------------------------------------------------

  /**
   * One line of `parse()`. Empty lines and lines the pattern does not find are skipped.
   * A directory line must mention a slash and no dot. A line with a slash is an
   * entry-file line. Otherwise it is a resource line, which must name a ".R." resource
   * whose obfuscated name is not yet taken. Names are trimmed; ids are not read back.
   */
  function ParseLine(m: Mapping, line: string): (r: Result<Mapping>)
    ensures line == [] ==> r == Ok(m)
    ensures r.Err? ==> r.error == IllegalArgument
    ensures r.Ok? ==> r.value.nameToId == m.nameToId && r.value.pathToId == m.pathToId
    ensures ':' !in line && DirGroups(line).Some? ==> (r.Err? <==> '/' !in line || '.' in line)
    ensures ':' !in line && DirGroups(line).None? ==> r == Ok(m)
    ensures ':' in line && ResGroups(line).None? ==> r == Ok(m)
    ensures ':' in line && '/' in line ==> r.Ok? && r.value.dirs == m.dirs && r.value.resources == m.resources
  {
    if line == [] then Ok(m)
    else if ':' !in line then
      match DirGroups(line)
      case None => Ok(m)
      case Some((g1, g2)) =>
        if '/' !in line || '.' in line then Err(IllegalArgument)
        else Ok(PutDirMapping(m, Trim(g1), Trim(g2)))
    else
      match ResGroups(line)
      case None => Ok(m)
      case Some((_, g2, g3)) =>
        var raw, obf := Trim(g2), Trim(g3);
        if '/' in line then Ok(PutEntryFileMapping(m, raw, obf))
        else if IndexOf(raw, ".R.").None? then Err(IllegalArgument)
        else PutResourceMapping(m, raw, obf)
  }

  /** The lines in order, from a mapping; the first failure ends the parse. */
  function ParseFrom(m: Mapping, lines: seq<string>): (r: Result<Mapping>)
    ensures r.Err? ==> r.error == IllegalArgument
    ensures r.Ok? ==> r.value.nameToId == m.nameToId && r.value.pathToId == m.pathToId
    decreases |lines|
  {
    if |lines| == 0 then Ok(m)
    else
      var m' :- ParseLine(m, lines[0]);
      ParseFrom(m', lines[1..])
  }

  /** `parse()` over the lines of the ledger, starting from an empty mapping. */
  function Parse(lines: seq<string>): (r: Result<Mapping>)
    ensures r.Ok? ==> r.value.nameToId == map[] && r.value.pathToId == map[]
  {
    ParseFrom(EmptyMapping, lines)
  }

  /** Parsing two runs of lines is parsing the first, then the second from its result. */
  lemma {:induction false} ParseFromAppend(m: Mapping, a: seq<string>, b: seq<string>)
    ensures ParseFrom(m, a + b) == match ParseFrom(m, a) case Err(e) => Err(e) case Ok(m') => ParseFrom(m', b)
    decreases |a|
  {
    if |a| == 0 {
      assert a + b == b;
    } else {
      assert (a + b)[0] == a[0];
      assert (a + b)[1..] == a[1..] + b;
      match ParseLine(m, a[0])
      case Err(_) =>
      case Ok(m1) => ParseFromAppend(m1, a[1..], b);
    }
  }
}
