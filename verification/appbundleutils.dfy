/**
 * The name and digest helpers of `AppBundleUtils`: full resource names
 * ("package.R.type.entry") and the reading of their type and entry back, and the
 * lowercase hexadecimal text of a (signed) byte array.
 */
module AppBundleUtils {
  import opened Wrappers
  import opened Strings

  // ---------------------------------------------------------------------------
  // Resource names
  // ---------------------------------------------------------------------------

  /** `getResourceFullName(packageName, typeName, entryName)`: "package.R.type.entry". */
  function ResourceFullName(packageName: string, typeName: string, entryName: string): string {
    packageName + ".R." + typeName + "." + entryName
  }

  /**
   * What `getTypeNameByResourceName` and `getEntryNameByResourceName` both compute: the
   * text after the first ".R." (after the second character when there is none), split at
   * dots and slashes, must give exactly two pieces, the type and the entry.
   */
  function ResourceParts(resourceName: string): (r: Result<(string, string)>)
    ensures r == Err(IndexOutOfBounds) <==> !Contains(resourceName, ".R.") && |resourceName| < 2
    ensures r.Ok? ==>
      '.' !in r.value.0 && '/' !in r.value.0 && '.' !in r.value.1 && '/' !in r.value.1 && r.value.1 != []
  {
    var index := match IndexOf(resourceName, ".R.") case Some(i) => i as int case None => -1;
    var begin := index + 3;
    if begin > |resourceName| then Err(IndexOutOfBounds)
    else
      var values := SplitDotsAndSlashes(resourceName[begin..]);
      if |values| != 2 then Err(RuntimeFailure)
      else
        DotPiecesPlain(resourceName[begin..]);
        LastPieceNonEmpty(resourceName[begin..]);
        Ok((values[0], values[1]))
  }

  /** The last piece of a dot-and-slash split is never empty. */
  lemma LastPieceNonEmpty(s: string)
    requires |SplitDotsAndSlashes(s)| >= 2
    ensures SplitDotsAndSlashes(s)[|SplitDotsAndSlashes(s)| - 1] != []
  {
  }

  /** `getTypeNameByResourceName(resourceName)`. */
  function TypeNameByResourceName(resourceName: string): (r: Result<string>)
    ensures r.Ok? <==> ResourceParts(resourceName).Ok?
    ensures r.Ok? ==> '.' !in r.value && '/' !in r.value
  {
    var parts :- ResourceParts(resourceName);
    Ok(parts.0)
  }

  /** `getEntryNameByResourceName(resourceName)`. */
  function EntryNameByResourceName(resourceName: string): (r: Result<string>)
    ensures r.Ok? <==> ResourceParts(resourceName).Ok?
    ensures r.Ok? ==> r.value != [] && '.' !in r.value && '/' !in r.value
  {
    var parts :- ResourceParts(resourceName);
    Ok(parts.1)
  }

  /** A name without separators, as the type and entry names of a full name must be. */
  predicate PlainName(s: string) {
    '.' !in s && '/' !in s
  }

  /**
   * Reading a full name back gives its type and entry, when the package name does not
   * already produce a ".R." and the type and entry names have no dot or slash.
   */
  lemma ResourceNameRoundTrip(packageName: string, typeName: string, entryName: string)
    requires !Contains(packageName + ".R", ".R.")
    requires PlainName(typeName) && PlainName(entryName) && entryName != []
    ensures TypeNameByResourceName(ResourceFullName(packageName, typeName, entryName)) == Ok(typeName)
    ensures EntryNameByResourceName(ResourceFullName(packageName, typeName, entryName)) == Ok(entryName)
  {
    var s := ResourceFullName(packageName, typeName, entryName);
    MarkerAfterPackage(packageName, typeName + "." + entryName, s);
    assert s[|packageName| + 3..] == typeName + "." + entryName;
    TypeAndEntry(typeName, entryName);
  }

  /** The first ".R." of `package + ".R." + rest` is the one after the package, unless the package already makes one. */
  lemma MarkerAfterPackage(packageName: string, rest: string, s: string)
    requires s == packageName + ".R." + rest
    requires !Contains(packageName + ".R", ".R.")
    ensures IndexOf(s, ".R.") == Some(|packageName|)
  {
    var head := packageName + ".R";
    assert s[|packageName|..|packageName| + 3] == ".R.";
    forall j: nat | j < |packageName| ensures !OccursAt(s, ".R.", j) {
      if OccursAt(s, ".R.", j) {
        assert s[j..j + 3] == head[j..j + 3];
        assert OccursAt(head, ".R.", j);
      }
    }
    IndexOfIs(s, ".R.", |packageName|);
  }

  /** "type.entry" splits into the type and the entry. */
  lemma TypeAndEntry(typeName: string, entryName: string)
    requires PlainName(typeName) && PlainName(entryName) && entryName != []
    ensures SplitDotsAndSlashes(typeName + "." + entryName) == [typeName, entryName]
  {
    var v := typeName + "." + entryName;
    var x := ReplaceChar(v, '.', '/');
    assert x == typeName + "/" + entryName by {
      ReplacePlain(typeName, entryName, v, x);
    }
    TokensCons(typeName, entryName);
    TokensOfPlain(entryName);
    assert x[|typeName|] == '/';
    assert x[|x| - 1] != '/';
    SplitNoTrailing(x, '/');
  }

  lemma ReplacePlain(t: string, e: string, v: string, x: string)
    requires PlainName(t) && PlainName(e)
    requires v == t + "." + e && x == ReplaceChar(v, '.', '/')
    ensures x == t + "/" + e
  {
    forall i | 0 <= i < |x| ensures x[i] == (t + "/" + e)[i] {
      if i < |t| {
        assert v[i] == t[i];
      } else if i > |t| {
        assert v[i] == e[i - |t| - 1];
      }
    }
  }

  // ---------------------------------------------------------------------------
  // Hexadecimal text of signed bytes
  // ---------------------------------------------------------------------------

  /** A Java `byte`. */
  type JByte = b: int | -128 <= b < 128

  /** `b & 0xFF`: the byte read as unsigned. */
  function Unsigned(b: JByte): (v: nat)
    ensures v < 256
  {
    if b < 0 then b + 256 else b
  }

  /** The byte whose unsigned reading is `v`. */
  function Signed(v: nat): JByte
    requires v < 256
  {
    if v >= 128 then v - 256 else v
  }

  /** A lowercase hexadecimal digit. */
  function HexDigit(d: nat): char
    requires d < 16
  {
    if d < 10 then ('0' as int + d) as char else ('a' as int + d - 10) as char
  }

  /** The value of a lowercase hexadecimal digit. */
  function HexValue(c: char): (r: Option<nat>)
    ensures r.Some? ==> r.value < 16
  {
    if '0' <= c <= '9' then Some(c as int - '0' as int)
    else if 'a' <= c <= 'f' then Some(c as int - 'a' as int + 10)
    else None
  }

  predicate IsHexDigit(c: char) {
    HexValue(c).Some?
  }

  lemma HexDigitValue(d: nat)
    requires d < 16
    ensures HexValue(HexDigit(d)) == Some(d)
  {
  }

  /** `Integer.toHexString(v)` for a non-negative value: lowercase digits, no leading zeros. */
  function HexText(v: nat): (r: string)
    ensures |r| >= 1 && (v > 0 ==> r[0] != '0')
    decreases v
  {
    if v < 16 then [HexDigit(v)] else HexText(v / 16) + [HexDigit(v % 16)]
  }

  /** Reads text made of pairs of lowercase hex digits back into bytes. */
  function ParseHex(t: string): (r: Option<seq<JByte>>)
    ensures r.Some? ==> |t| == 2 * |r.value|
    decreases |t|
  {
    if |t| == 0 then Some([])
    else if |t| == 1 then None
    else
      match (HexValue(t[0]), HexValue(t[1]), ParseHex(t[2..]))
      case (Some(h), Some(l), Some(rest)) => Some([Signed(16 * h + l)] + rest)
      case _ => None
  }

  /** Parsing a concatenation of readable texts reads each part. */
  lemma {:induction false} ParseHexAppend(t: string, p: string)
    requires ParseHex(t).Some? && ParseHex(p).Some?
    ensures ParseHex(t + p) == Some(ParseHex(t).value + ParseHex(p).value)
    decreases |t|
  {
    if |t| > 0 {
      var h, l := HexValue(t[0]).value, HexValue(t[1]).value;
      var rest, tail := ParseHex(t[2..]).value, ParseHex(p).value;
      assert ParseHex(t).value == [Signed(16 * h + l)] + rest;
      assert (t + p)[2..] == t[2..] + p;
      ParseHexAppend(t[2..], p);
      assert (t + p)[0] == t[0] && (t + p)[1] == t[1];
      assert ParseHex(t + p).value == [Signed(16 * h + l)] + (rest + tail);
      assert [Signed(16 * h + l)] + (rest + tail) == ([Signed(16 * h + l)] + rest) + tail;
    } else {
      assert t + p == p;
      assert ParseHex(t).value + ParseHex(p).value == ParseHex(p).value;
    }
  }

  /** The two characters written for one byte, and reading them back. */
  lemma BytePiece(b: JByte)
    ensures var hv := HexText(Unsigned(b)); var piece := if |hv| < 2 then "0" + hv else hv;
      piece == [HexDigit(Unsigned(b) / 16), HexDigit(Unsigned(b) % 16)]
      && ParseHex(piece) == Some([b])
  {
    var v := Unsigned(b);
    var piece := [HexDigit(v / 16), HexDigit(v % 16)];
    HexDigitValue(v / 16);
    HexDigitValue(v % 16);
    assert piece[2..] == [] && ParseHex(piece[2..]) == Some([]);
    assert 16 * (v / 16) + v % 16 == v;
    assert Signed(v) == b;
    assert HexValue(piece[0]) == Some(v / 16) && HexValue(piece[1]) == Some(v % 16);
    assert ParseHex(piece) == Some([Signed(16 * (v / 16) + v % 16)] + []);
    assert [Signed(16 * (v / 16) + v % 16)] + [] == [b];
    if v < 16 {
      assert HexText(v) == [HexDigit(v)];
      assert "0" + [HexDigit(v)] == [HexDigit(0), HexDigit(v)];
    } else {
      assert v / 16 < 16;
      assert HexText(v) == HexText(v / 16) + [HexDigit(v % 16)];
      assert HexText(v / 16) == [HexDigit(v / 16)];
      assert HexText(v) == piece;
    }
  }

  /** One step of the loop: appending the piece of the next byte keeps the text readable. */
  lemma AppendPiece(r: string, src: seq<JByte>, i: nat, piece: string)
    requires i < |src| && |r| == 2 * i
    requires forall k :: 0 <= k < |r| ==> IsHexDigit(r[k])
    requires ParseHex(r) == Some(src[..i])
    requires piece == [HexDigit(Unsigned(src[i]) / 16), HexDigit(Unsigned(src[i]) % 16)]
    requires ParseHex(piece) == Some([src[i]])
    ensures |r + piece| == 2 * (i + 1)
    ensures forall k :: 0 <= k < |r + piece| ==> IsHexDigit((r + piece)[k])
    ensures ParseHex(r + piece) == Some(src[..i + 1])
  {
    var v := Unsigned(src[i]);
    HexDigitValue(v / 16);
    HexDigitValue(v % 16);
    ParseHexAppend(r, piece);
    assert src[..i + 1] == src[..i] + [src[i]];
  }

  /**
   * `bytesToHexString(src)`: two lowercase hex digits per byte, the byte read as
   * unsigned; the text reads back into exactly the bytes given.
   */
  method BytesToHexString(src: seq<JByte>) returns (r: string)
    ensures |r| == 2 * |src|
    ensures forall k :: 0 <= k < |r| ==> IsHexDigit(r[k])
    ensures ParseHex(r) == Some(src)
  {
    if |src| == 0 {
      return "";
    }
    r := "";
    var i := 0;
    while i < |src|
      invariant 0 <= i <= |src|
      invariant |r| == 2 * i
      invariant forall k :: 0 <= k < |r| ==> IsHexDigit(r[k])
      invariant ParseHex(r) == Some(src[..i])
    {
      var v := Unsigned(src[i]);
      var hv := HexText(v);
      var piece := if |hv| < 2 then "0" + hv else hv;
      BytePiece(src[i]);
      AppendPiece(r, src, i, piece);
      r := r + piece;
      i := i + 1;
    }
    assert src[..|src|] == src;
  }
}
