/** `TimeClock.getElapsedTime`, with the clock readings replaced by the elapsed milliseconds. */
module TimeClock {
  import opened Strings

  /**
   * The elapsed-time text: whole minutes and leftover whole seconds from a minute on
   * ("2min 5s", or "2min" when under a second is left over), whole seconds from a
   * second on ("45s"), and milliseconds below that ("500ms", also for a negative span).
   */
  function ElapsedTime(elapsed: int): (r: string)
    ensures elapsed < 1000 ==> |r| >= 3 && r[|r| - 2..] == "ms"
    ensures 1000 <= elapsed < 60000 ==>
      |r| >= 2 && r[|r| - 1] == 's' && (forall i :: 0 <= i < |r| - 1 ==> IsDigit(r[i]))
      && ParseDigits(r[..|r| - 1]) == elapsed / 1000
    ensures elapsed >= 60000 ==>
      NatToString(elapsed / 60000) + "min" <= r && (r == NatToString(elapsed / 60000) + "min" <==> elapsed % 60000 < 1000)
  {
    if elapsed >= 60000 then
      var minutes := elapsed / 60000;
      var seconds := elapsed % 60000 / 1000;
      if seconds > 0 then NatToString(minutes) + "min " + NatToString(seconds) + "s"
      else NatToString(minutes) + "min"
    else if elapsed >= 1000 then
      var t := NatToString(elapsed / 1000) + "s";
      ParseNatToString(elapsed / 1000);
      assert t[..|t| - 1] == NatToString(elapsed / 1000);
      t
    else IntToString(elapsed) + "ms"
  }

  /** All characters of `s` are digits. */
  predicate AllDigits(s: string) {
    forall i :: 0 <= i < |s| ==> IsDigit(s[i])
  }

  /** Two texts that each start with a run of digits ended by a non-digit agree on the run and on the rest. */
  lemma DigitsThenRest(a: string, x: string, b: string, y: string)
    requires AllDigits(a) && AllDigits(b)
    requires |x| > 0 && !IsDigit(x[0]) && |y| > 0 && !IsDigit(y[0])
    requires a + x == b + y
    ensures a == b && x == y
  {
    assert !IsDigit((b + y)[|a|]);
    assert !IsDigit((a + x)[|b|]);
    assert |a| == |b|;
    assert a == (a + x)[..|a|];
    assert x == (a + x)[|a|..];
  }

  /** Texts with the same ending agree on what precedes it. */
  lemma SameEnding(a: string, b: string, e: string)
    requires a + e == b + e
    ensures a == b
  {
    assert a == (a + e)[..|a|];
    assert b == (b + e)[..|b|];
  }

  /** The milliseconds text is read back from the number before "ms". */
  lemma IntToStringInjective(a: int, b: int)
    requires IntToString(a) == IntToString(b)
    ensures a == b
  {
    if a >= 0 && b >= 0 {
      NatToStringInjective(a, b);
    } else if a < 0 && b < 0 {
      SameStart("-", NatToString(-a), NatToString(-b));
      NatToStringInjective(-a, -b);
    }
  }

  lemma SameStart(s: string, a: string, b: string)
    requires s + a == s + b
    ensures a == b
  {
    assert a == (s + a)[|s|..];
    assert b == (s + b)[|s|..];
  }

  /** Whole seconds are sixty per whole minute plus the whole seconds left over. */
  lemma SecondsOfMinutes(e: int)
    requires e >= 0
    ensures e / 1000 == e / 60000 * 60 + e % 60000 / 1000
  {
    var q, r := e / 60000, e % 60000;
    var s, t := r / 1000, r % 1000;
    assert e == 1000 * (q * 60 + s) + t;
  }

  /** The four shapes of the text, told apart by how it ends. */
  datatype Shape = Millis | Seconds | Minutes | MinutesSeconds

  function ShapeOf(elapsed: int): Shape {
    if elapsed < 1000 then Millis
    else if elapsed < 60000 then Seconds
    else if elapsed % 60000 / 1000 > 0 then MinutesSeconds
    else Minutes
  }

  /** The shape of the text is visible in the text. */
  lemma ShapeVisible(elapsed: int)
    ensures var r := ElapsedTime(elapsed);
      |r| >= 2
      && (ShapeOf(elapsed) == Millis <==> r[|r| - 1] == 's' && r[|r| - 2] == 'm')
      && (ShapeOf(elapsed) == Minutes <==> r[|r| - 1] == 'n')
      && (ShapeOf(elapsed) == MinutesSeconds <==> r[|r| - 1] == 's' && ' ' in r)
  {
    var r := ElapsedTime(elapsed);
    var m := elapsed / 60000;
    var s := elapsed % 60000 / 1000;
    match ShapeOf(elapsed)
    case Millis =>
      assert r == IntToString(elapsed) + "ms";
      NoSpace(IntToString(elapsed), "ms");
    case Seconds =>
      assert r == NatToString(elapsed / 1000) + "s";
      NoSpace(NatToString(elapsed / 1000), "s");
    case Minutes =>
      assert r == NatToString(m) + "min";
    case MinutesSeconds =>
      assert r == NatToString(m) + "min " + NatToString(s) + "s";
      assert r[|NatToString(m)| + 3] == ' ';
  }

  /** A number followed by a unit has no space, and its unit starts right after the number. */
  lemma NoSpace(n: string, unit: string)
    requires |n| >= 1 && (forall i :: 1 <= i < |n| ==> IsDigit(n[i])) && (n[0] == '-' || IsDigit(n[0]))
    requires unit == "ms" || unit == "s"
    ensures ' ' !in n + unit
    ensures unit == "s" && IsDigit(n[|n| - 1]) ==> (n + unit)[|n + unit| - 2] != 'm'
  {
    var r := n + unit;
    forall i | 0 <= i < |r| ensures r[i] != ' ' {
      if i >= |n| {
        assert r[i] == unit[i - |n|];
      }
    }
  }

  /** Equal texts have equal shapes. */
  lemma SameShape(a: int, b: int)
    requires ElapsedTime(a) == ElapsedTime(b)
    ensures ShapeOf(a) == ShapeOf(b)
  {
    ShapeVisible(a);
    ShapeVisible(b);
  }

  lemma MillisDetermine(a: int, b: int)
    requires a < 1000 && b < 1000 && ElapsedTime(a) == ElapsedTime(b)
    ensures a == b
  {
    SameEnding(IntToString(a), IntToString(b), "ms");
    IntToStringInjective(a, b);
  }

  lemma SecondsDetermine(a: int, b: int)
    requires 1000 <= a < 60000 && 1000 <= b < 60000 && ElapsedTime(a) == ElapsedTime(b)
    ensures a / 1000 == b / 1000
  {
    SameEnding(NatToString(a / 1000), NatToString(b / 1000), "s");
    NatToStringInjective(a / 1000, b / 1000);
  }

  lemma MinutesDetermine(a: int, b: int)
    requires ShapeOf(a) == Minutes && ShapeOf(b) == Minutes && ElapsedTime(a) == ElapsedTime(b)
    ensures a / 1000 == b / 1000
  {
    assert ElapsedTime(a) == NatToString(a / 60000) + "min";
    assert ElapsedTime(b) == NatToString(b / 60000) + "min";
    SameEnding(NatToString(a / 60000), NatToString(b / 60000), "min");
    NatToStringInjective(a / 60000, b / 60000);
    SecondsOfMinutes(a);
    SecondsOfMinutes(b);
  }

  lemma MinutesSecondsDetermine(a: int, b: int)
    requires ShapeOf(a) == MinutesSeconds && ShapeOf(b) == MinutesSeconds && ElapsedTime(a) == ElapsedTime(b)
    ensures a / 1000 == b / 1000
  {
    var ma, sa := a / 60000, a % 60000 / 1000;
    var mb, sb := b / 60000, b % 60000 / 1000;
    MinutesSecondsText(a);
    MinutesSecondsText(b);
    DigitsThenRest(NatToString(ma), "min " + (NatToString(sa) + "s"), NatToString(mb), "min " + (NatToString(sb) + "s"));
    SameStart("min ", NatToString(sa) + "s", NatToString(sb) + "s");
    SameEnding(NatToString(sa), NatToString(sb), "s");
    NatToStringInjective(ma, mb);
    NatToStringInjective(sa, sb);
    SecondsOfMinutes(a);
    SecondsOfMinutes(b);
  }

  lemma MinutesSecondsText(e: int)
    requires ShapeOf(e) == MinutesSeconds
    ensures ElapsedTime(e) == NatToString(e / 60000) + ("min " + (NatToString(e % 60000 / 1000) + "s"))
    ensures AllDigits(NatToString(e / 60000))
  {
  }

  /**
   * The text determines the elapsed time: to the millisecond below a second, and to
   * the whole second from a second on.
   */
  lemma ElapsedTimeDetermines(a: int, b: int)
    requires ElapsedTime(a) == ElapsedTime(b)
    ensures a < 1000 <==> b < 1000
    ensures a < 1000 ==> a == b
    ensures a >= 1000 ==> a / 1000 == b / 1000
  {
    SameShape(a, b);
    match ShapeOf(a)
    case Millis => MillisDetermine(a, b);
    case Seconds => SecondsDetermine(a, b);
    case Minutes => MinutesDetermine(a, b);
    case MinutesSeconds => MinutesSecondsDetermine(a, b);
  }
}
