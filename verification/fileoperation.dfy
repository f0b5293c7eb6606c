/**
 * The path and name helpers of `FileOperation`: splitting an archive path into its
 * parent and file name, a file name into prefix and suffix, and the size text of the log.
 */
module FileOperation {
  import opened Wrappers
  import opened Strings
  import opened BundleModel

  // ---------------------------------------------------------------------------
  // Names of a ZipPath
  // ---------------------------------------------------------------------------

  /** `getFileSimpleName(zipPath)`: the last name of the path; the empty path has none. */
  function FileSimpleName(p: ZipPath): (r: Result<string>)
    ensures r.Ok? <==> |p.names| > 0
    ensures r.Ok? ==> r.value == p.names[|p.names| - 1]
  {
    if |p.names| == 0 then Err(RuntimeFailure) else Ok(p.names[|p.names| - 1])
  }

  /** The file name is made only of dots and slashes (and has at least one dot). */
  predicate OnlyDots(name: string) {
    '.' in name && forall i :: 0 <= i < |name| ==> name[i] == '.' || name[i] == '/'
  }

  /**
   * `getFileSuffix(zipPath)`: the last name from its FIRST dot on (".tar.gz" for
   * "a.tar.gz"), the whole name when it has no dot; a name of dots alone fails.
   */
  function FileSuffix(p: ZipPath): (r: Result<string>)
    ensures |p.names| == 0 ==> r.Err?
    ensures |p.names| > 0 ==> (r.Err? <==> OnlyDots(p.names[|p.names| - 1]))
    ensures r.Ok? && '.' !in p.names[|p.names| - 1] ==> r.value == p.names[|p.names| - 1]
    ensures r.Ok? && '.' in p.names[|p.names| - 1] && '/' !in p.names[|p.names| - 1] ==>
      var name := p.names[|p.names| - 1];
      0 < |r.value| <= |name| && r.value == name[|name| - |r.value|..] && r.value[0] == '.'
      && '.' !in name[..|name| - |r.value|]
  {
    if |p.names| == 0 then Err(RuntimeFailure)
    else
      var name := p.names[|p.names| - 1];
      if '.' !in name then Ok(name)
      else
        var values := SplitDotsAndSlashes(name);
        DotSplitEmpty(name);
        if |values| == 0 then Err(IndexOutOfBounds)
        else
          DotSplitHead(name);
          Ok(name[|values[0]|..])
  }

  /**
   * `getFilePrefixByFileName(fileName)`: the text before the first dot; a name
   * without a dot is rejected, and a name of dots alone fails.
   */
  function FilePrefixByFileName(fileName: string): (r: Result<string>)
    ensures '.' !in fileName ==> r == Err(IllegalArgument)
    ensures r.Err? <==> '.' !in fileName || OnlyDots(fileName)
    ensures r.Ok? ==>
      |r.value| < |fileName| && r.value == fileName[..|r.value|] && '.' !in r.value && '/' !in r.value
    ensures r.Ok? && '/' !in fileName ==> fileName[|r.value|] == '.'
  {
    if '.' !in fileName then Err(IllegalArgument)
    else
      var values := SplitDotsAndSlashes(fileName);
      DotSplitEmpty(fileName);
      if |values| == 0 then Err(IndexOutOfBounds)
      else
        DotSplitHead(fileName);
        Ok(values[0])
  }

  /** Prefix and suffix of a file name put back together give the name. */
  lemma PrefixSuffix(p: ZipPath)
    requires |p.names| > 0
    requires '.' in p.names[|p.names| - 1] && '/' !in p.names[|p.names| - 1]
    requires !OnlyDots(p.names[|p.names| - 1])
    ensures FilePrefixByFileName(p.names[|p.names| - 1]).Ok? && FileSuffix(p).Ok?
    ensures FilePrefixByFileName(p.names[|p.names| - 1]).value + FileSuffix(p).value == p.names[|p.names| - 1]
  {
    var name := p.names[|p.names| - 1];
    DotSplitEmpty(name);
    var values := SplitDotsAndSlashes(name);
    assert |values| > 0;
    DotSplitHead(name);
    var h := values[0];
    assert FilePrefixByFileName(name) == Ok(h);
    assert FileSuffix(p) == Ok(name[|h|..]);
    assert h + name[|h|..] == name[..|h|] + name[|h|..] == name;
  }

  // ---------------------------------------------------------------------------
  // Paths as text
  // ---------------------------------------------------------------------------

  /**
   * `getNameFromZipFilePath(zipPath)`: the last non-empty piece between slashes; a text
   * without a slash is rejected and a text of slashes alone fails.
   */
  function NameFromZipFilePath(s: string): (r: Result<string>)
    ensures '/' !in s ==> r == Err(IllegalArgument)
    ensures r.Err? <==> '/' !in s || forall i :: 0 <= i < |s| ==> s[i] == '/'
    ensures r.Ok? ==> r.value != [] && '/' !in r.value
    ensures r.Ok? && s[|s| - 1] != '/' ==>
      |r.value| < |s| && r.value == s[|s| - |r.value|..] && s[|s| - |r.value| - 1] == '/'
  {
    if '/' !in s then Err(IllegalArgument)
    else
      var values := Split(s, '/');
      SplitEmpty(s, '/');
      if |values| == 0 then Err(IndexOutOfBounds)
      else
        SplitLast(s);
        Ok(values[|values| - 1])
  }

  /**
   * `getParentFromZipFilePath(zipPath)` as written: the text before the FIRST
   * occurrence of the name, less one character. It fails where the name fails and
   * where the name first occurs at the very start.
   */
  function ParentFromZipFilePath(s: string): (r: Result<string>)
    ensures NameFromZipFilePath(s).Err? ==> r == NameFromZipFilePath(s)
    ensures r.Ok? ==> NameFromZipFilePath(s).Ok?
    ensures r.Ok? ==> var n := NameFromZipFilePath(s).value;
      OccursAt(s, n, |r.value| + 1) && forall j: nat :: j <= |r.value| ==> !OccursAt(s, n, j)
    ensures NameFromZipFilePath(s).Ok? && s[|s| - 1] != '/' ==>
      (r.Ok? <==> !OccursAt(s, NameFromZipFilePath(s).value, 0))
  {
    if '/' !in s then Err(IllegalArgument)
    else
      var values := Split(s, '/');
      SplitEmpty(s, '/');
      if |values| == 0 then Err(IndexOutOfBounds)
      else
        var name := values[|values| - 1];
        var k := match IndexOf(s, name) case Some(i) => i as int case None => -1;
        SplitLast(s);
        if k - 1 < 0 then Err(IndexOutOfBounds) else Ok(s[..k - 1])
  }

  /** The text of a path of at least two names, seen as the text of its parent, a slash and its last name. */
  lemma PathTextParts(p: ZipPath)
    requires ValidPath(p) && |p.names| >= 2
    ensures var s := PathText(p); var last := p.names[|p.names| - 1];
      s == PathText(Parent(p).value) + "/" + last && '/' in s && s[|s| - 1] != '/' && Split(s, '/') == p.names
  {
    var s := PathText(p);
    var last := p.names[|p.names| - 1];
    JoinSnoc(p.names, '/');
    assert s[|s| - 1] == last[|last| - 1];
    TokensOfJoin(p.names);
    SplitNoTrailing(s, '/');
  }

  /**
   * For the text of a path of at least two names whose last name first occurs at
   * its end, the helpers give back the path's own last name and parent.
   */
  lemma PathParentAndName(p: ZipPath)
    requires ValidPath(p) && |p.names| >= 2
    requires IndexOf(PathText(p), p.names[|p.names| - 1]) == Some(|PathText(p)| - |p.names[|p.names| - 1]|)
    ensures NameFromZipFilePath(PathText(p)) == Ok(p.names[|p.names| - 1])
    ensures ParentFromZipFilePath(PathText(p)) == Ok(PathText(Parent(p).value))
  {
    var s := PathText(p);
    var last := p.names[|p.names| - 1];
    PathTextParts(p);
    SliceBeforeLast(PathText(Parent(p).value), last, s);
  }

  lemma SliceBeforeLast(a: string, b: string, s: string)
    requires s == a + "/" + b
    ensures s[..|s| - |b| - 1] == a
  {
  }

  /** The first-occurrence search cuts short a parent whose text ends with the name. */
  lemma ParentFirstOccurrence()
    ensures NameFromZipFilePath("ab/b") == Ok("b")
    ensures ParentFromZipFilePath("ab/b") == Ok("")
    ensures ParentFromZipFilePath("b/b") == Err(IndexOutOfBounds)
  {
    var s := "ab/b";
    assert s == "ab" + "/" + "b" && s[2] == '/';
    TokensCons("ab", "b");
    TokensOfPlain("b");
    assert Split(s, '/') == ["ab", "b"];
    assert OccursAt(s, "b", 1) && !OccursAt(s, "b", 0);
    IndexOfIs(s, "b", 1);
    var u := "b/b";
    assert u == "b" + "/" + "b" && u[1] == '/';
    TokensCons("b", "b");
    assert Split(u, '/') == ["b", "b"];
    assert OccursAt(u, "b", 0);
    IndexOfIs(u, "b", 0);
  }

  // ---------------------------------------------------------------------------
  // Size text
  // ---------------------------------------------------------------------------

  /**
   * The text `getNetFileSizeDescription` builds: a plain count of bytes, or the size
   * divided by `divisor` printed with `DecimalFormat("###.0")` and followed by `unit`.
   */
  datatype SizeText = Plain(text: string) | Scaled(size: int, divisor: nat, unit: string)

  const KiB: nat := 1024
  const MiB: nat := 1024 * 1024
  const GiB: nat := 1024 * 1024 * 1024

  /**
   * `getNetFileSizeDescription(size)`: the largest unit the size reaches, so that
   * the printed quotient lies in [1, 1024) except for gigabytes; "0B" for a size
   * that is not positive.
   */
  function NetFileSizeDescription(size: int): (r: SizeText)
    ensures r.Plain? <==> size < KiB
    ensures size <= 0 ==> r == Plain("0B")
    ensures 0 < size < KiB ==>
      |r.text| >= 2 && r.text[|r.text| - 1] == 'B'
      && (forall i :: 0 <= i < |r.text| - 1 ==> IsDigit(r.text[i]))
      && ParseDigits(r.text[..|r.text| - 1]) == size
    ensures r.Scaled? ==>
      r.size == size && r.divisor > 0 && 1 <= size / r.divisor
      && (r.unit == "GB" || size / r.divisor < 1024)
      && ((r.unit == "KB" && r.divisor == KiB) || (r.unit == "MB" && r.divisor == MiB) || (r.unit == "GB" && r.divisor == GiB))
  {
    if size >= GiB then Scaled(size, GiB, "GB")
    else if size >= MiB then Scaled(size, MiB, "MB")
    else if size >= KiB then Scaled(size, KiB, "KB")
    else if size <= 0 then Plain("0B")
    else
      ParseNatToString(size);
      var t := NatToString(size) + "B";
      assert t[..|t| - 1] == NatToString(size);
      Plain(t)
  }

  /** 0 for bytes, then 1, 2, 3 for kilo-, mega- and gigabytes. */
  function UnitRank(t: SizeText): nat {
    match t
    case Plain(_) => 0
    case Scaled(_, _, unit) => if unit == "KB" then 1 else if unit == "MB" then 2 else 3
  }

  /** A larger size never gets a smaller unit. */
  lemma SizeUnitMonotone(a: int, b: int)
    requires a <= b
    ensures UnitRank(NetFileSizeDescription(a)) <= UnitRank(NetFileSizeDescription(b))
  {
  }
}
