/** The text a video card renders (src/VideoCard.tsx): the `M:SS` duration
    badge, the abbreviated view count and the title in the chosen language. */
module VideoCard {

  import opened Common
  import opened Decimal

  /** The fields of a catalog video that the card's text depends on. */
  datatype Video = Video(title: string, titleBn: string, duration: nat, views: int)

  /** The card's title: the Bengali title in Bengali, the English one otherwise. */
  function Title(video: Video, lang: Language): (r: string)
    ensures lang == Bn ==> r == video.titleBn
    ensures lang == En ==> r == video.title
  {
    Pick(lang, video.title, video.titleBn)
  }

  // ---------------------------------------------------------------------------
  // Duration badge
  // ---------------------------------------------------------------------------

  /** `formatDuration`: whole minutes, a colon, then the remaining seconds
      padded with '0' to two characters. */
  function FormatDuration(seconds: nat): (r: string)
    ensures |r| >= 4 && r[|r| - 3] == ':'
    ensures AllDigits(r[..|r| - 3]) && AllDigits(r[|r| - 2..])
    ensures r[..|r| - 3] == NatToString(seconds / 60)
    ensures ParseNat(r[..|r| - 3]) == seconds / 60
    ensures ParseNat(r[|r| - 2..]) == seconds % 60 < 60
  {
    var mins := NatToString(seconds / 60);
    var secs := PadStart(NatToString(seconds % 60), 2, '0');
    assert secs == if seconds % 60 < 10 then "0" + NatToString(seconds % 60) else NatToString(seconds % 60);
    assert ParseNat(secs) == seconds % 60 by {
      ParseNatToString(seconds % 60);
      if seconds % 60 < 10 {
        assert secs[..1] == "0";
      }
    }
    var r := mins + ":" + secs;
    assert r[..|r| - 3] == mins && r[|r| - 2..] == secs;
    ParseNatToString(seconds / 60);
    r
  }

  /** Reads an `M:SS` badge back as a number of seconds. */
  function ParseDuration(t: string): Option<nat>
  {
    if |t| >= 4 && t[|t| - 3] == ':' && AllDigits(t[..|t| - 3]) && AllDigits(t[|t| - 2..])
    then Some(ParseNat(t[..|t| - 3]) * 60 + ParseNat(t[|t| - 2..]))
    else None
  }

  /** Round trip: the minutes and seconds of the badge add up to the
      duration it was made from. */
  lemma FormatDurationRoundTrip(seconds: nat)
    ensures ParseDuration(FormatDuration(seconds)) == Some(seconds)
  {
    ParseBadge(FormatDuration(seconds), seconds / 60, seconds % 60);
    MinutesAndSeconds(seconds);
  }

  /** A badge of the `M:SS` shape reads back as its minutes and seconds. */
  lemma ParseBadge(r: string, mins: nat, secs: nat)
    requires |r| >= 4 && r[|r| - 3] == ':' && AllDigits(r[..|r| - 3]) && AllDigits(r[|r| - 2..])
    requires ParseNat(r[..|r| - 3]) == mins && ParseNat(r[|r| - 2..]) == secs
    ensures ParseDuration(r) == Some(mins * 60 + secs)
  {
  }

  lemma MinutesAndSeconds(seconds: nat)
    ensures (seconds / 60) * 60 + seconds % 60 == seconds
  {
  }

  lemma FormatDurationExamples()
    ensures FormatDuration(125) == "2:05"
    ensures FormatDuration(59) == "0:59"
  {
    assert NatToString(2) == "2";
    assert NatToString(5) == "5";
    assert PadStart("5", 2, '0') == "05";
    assert FormatDuration(125) == "2" + ":" + "05";
    assert NatToString(0) == "0";
    assert NatToString(59) == "59" by { assert NatToString(5) == "5"; }
    assert PadStart("59", 2, '0') == "59";
    assert FormatDuration(59) == "0" + ":" + "59";
  }

  // ---------------------------------------------------------------------------
  // View count
  // ---------------------------------------------------------------------------

  const Thousand: nat := 1000
  const Million: nat := 1000000

  /** What the view-count text stands for: the exact count, or a number of
      tenths of the unit its suffix ('K' or 'M') names. */
  datatype ViewCount = Exact(count: int) | Abbreviated(tenths: nat, suffix: char)

  function Unit(suffix: char): nat {
    if suffix == 'M' then Million else Thousand
  }

  /** `(v / unit).toFixed(1)` on integers: the number of tenths of `unit`
      nearest to `v`. Exact halves are rounded up here; the contract holds
      for either neighbour. */
  function RoundTenths(v: nat, unit: nat): (t: nat)
    requires unit > 0
    ensures -(unit as int) <= 2 * t * unit - 20 * v <= unit
  {
    var t := (20 * v + unit) / (2 * unit);
    DivBounds(20 * v + unit, 2 * unit);
    t
  }

  lemma DivBounds(a: nat, b: nat)
    requires b > 0
    ensures (a / b) * b <= a < (a / b) * b + b
  {
  }

  /** Which branch `formatViews` takes, decided on the count itself. */
  function Abbreviate(v: int): (a: ViewCount)
    ensures a.Exact? <==> v < Thousand
    ensures a.Exact? ==> a.count == v
    ensures a.Abbreviated? ==> (a.suffix == 'K' <==> v < Million) && (a.suffix == 'M' <==> v >= Million)
  {
    if v >= Million then Abbreviated(RoundTenths(v, Million), 'M')
    else if v >= Thousand then Abbreviated(RoundTenths(v, Thousand), 'K')
    else Exact(v)
  }

  /** `x.toFixed(1)` for `x` given in tenths: the whole part, a point and
      exactly one digit. */
  function FixedOne(tenths: nat): (r: string)
    ensures |r| >= 3 && r[|r| - 2] == '.' && IsDigit(r[|r| - 1])
    ensures AllDigits(r[..|r| - 2])
    ensures r[..|r| - 2] == NatToString(tenths / 10)
    ensures ParseNat(r[..|r| - 2]) * 10 + DigitValue(r[|r| - 1]) == tenths
  {
    var whole := NatToString(tenths / 10);
    var r := whole + "." + [DigitChar(tenths % 10)];
    assert r[..|r| - 2] == whole;
    ParseNatToString(tenths / 10);
    DigitValueOfChar(tenths % 10);
    r
  }

  /** The text for a view count: the count's own text when exact, otherwise
      the one-decimal figure followed by the suffix. */
  function Render(a: ViewCount): (r: string)
    ensures a.Exact? ==> r == IntToString(a.count)
    ensures a.Abbreviated? ==> |r| >= 4 && r[|r| - 1] == a.suffix && r[|r| - 3] == '.'
    ensures a.Abbreviated? ==> AllDigits(r[..|r| - 3]) && IsDigit(r[|r| - 2])
    ensures a.Abbreviated? ==> r[..|r| - 3] == NatToString(a.tenths / 10)
    ensures a.Abbreviated? ==> ParseNat(r[..|r| - 3]) * 10 + DigitValue(r[|r| - 2]) == a.tenths
  {
    match a
    case Exact(n) => IntToString(n)
    case Abbreviated(t, c) =>
      var f := FixedOne(t);
      var r := f + [c];
      assert r[..|r| - 3] == f[..|f| - 2] && r[|r| - 2] == f[|f| - 1];
      r
  }

  /** `formatViews`. */
  function FormatViews(v: int): (r: string)
    ensures v < Thousand ==> r == IntToString(v)
    ensures Thousand <= v ==> |r| >= 4 && r[|r| - 3] == '.' && IsDigit(r[|r| - 2])
    ensures Thousand <= v < Million ==> r[|r| - 1] == 'K'
    ensures Million <= v ==> r[|r| - 1] == 'M'
  {
    Render(Abbreviate(v))
  }

  /** Reads a view-count text back. */
  function ParseViews(s: string): Option<ViewCount>
  {
    if |s| >= 4 && (s[|s| - 1] == 'K' || s[|s| - 1] == 'M') && s[|s| - 3] == '.'
       && IsDigit(s[|s| - 2]) && AllDigits(s[..|s| - 3])
    then Some(Abbreviated(ParseNat(s[..|s| - 3]) * 10 + DigitValue(s[|s| - 2]), s[|s| - 1]))
    else match ParseInt(s)
      case Some(n) => Some(Exact(n))
      case None => None
  }

  /** The text denotes `v`: exactly, or to within half a tenth of its unit. */
  predicate Denotes(a: ViewCount, v: int) {
    match a
    case Exact(n) => n == v
    case Abbreviated(t, c) =>
      (c == 'K' || c == 'M') && -(Unit(c) as int) <= 2 * t * Unit(c) - 20 * v <= Unit(c)
  }

  lemma RenderRoundTrip(a: ViewCount)
    requires a.Abbreviated? ==> a.suffix == 'K' || a.suffix == 'M'
    ensures ParseViews(Render(a)) == Some(a)
  {
    match a
    case Exact(n) =>
      ParseIntToString(n);
      var s := IntToString(n);
      assert IsDigit(s[|s| - 1]) by {
        if n < 0 { assert s[|s| - 1] == s[1..][|s| - 2]; }
      }
    case Abbreviated(t, c) =>
      var s := Render(a);
      var w := NatToString(t / 10);
      assert s == w + "." + [DigitChar(t % 10)] + [c];
      assert s[..|s| - 3] == w;
      ParseNatToString(t / 10);
      DigitValueOfChar(t % 10);
  }

  /** Reading the rendered count back gives a value within half a tenth of
      the unit of the real count (the count itself below 1000). */
  lemma FormatViewsRoundTrip(v: int)
    ensures ParseViews(FormatViews(v)).Some?
    ensures Denotes(ParseViews(FormatViews(v)).value, v)
  {
    RenderRoundTrip(Abbreviate(v));
  }

  /** A count of `k` whole units is rounded to exactly `10 * k` tenths. */
  lemma RoundTenthsWhole(k: nat, unit: nat)
    requires unit > 0
    ensures RoundTenths(k * unit, unit) == 10 * k
  {
    var t := RoundTenths(k * unit, unit);
    var d := t - 10 * k;
    assert 2 * t * unit - 20 * (k * unit) == 2 * (d * unit) by {
      assert t * unit == (10 * k + d) * unit == 10 * (k * unit) + d * unit;
    }
    ZeroWithinHalf(d, unit);
  }

  /** A whole number of units within half a unit of 0 is 0. */
  lemma ZeroWithinHalf(d: int, unit: nat)
    requires unit > 0
    requires -(unit as int) <= 2 * (d * unit) <= unit
    ensures d == 0
  {
  }

  /** A count that is a whole number of its unit renders as that number,
      a point and the digit 0, e.g. 1000 as "1.0K". */
  lemma FormatViewsWholeUnits(v: int)
    requires v >= Thousand
    ensures var unit := if v >= Million then Million else Thousand;
            var r := FormatViews(v);
            v % unit == 0 ==> r[..|r| - 1] == NatToString(v / unit) + ".0"
  {
    var unit := if v >= Million then Million else Thousand;
    if v % unit == 0 {
      RoundTenthsWhole(v / unit, unit);
      assert Abbreviate(v).tenths == 10 * (v / unit);
      assert (10 * (v / unit)) / 10 == v / unit;
    }
  }

  lemma FormatViewsExamples()
    ensures FormatViews(999) == "999"
    ensures FormatViews(1000) == "1.0K"
    ensures FormatViews(1500000) == "1.5M"
    ensures FormatViews(999999) == "1000.0K"
  {
    assert NatToString(999) == "999" by {
      assert NatToString(9) == "9";
      assert NatToString(99) == "99";
    }
    FixedOneExamples();
    assert Abbreviate(1000) == Abbreviated(10, 'K');
    assert Abbreviate(1500000) == Abbreviated(15, 'M');
    assert Abbreviate(999999) == Abbreviated(10000, 'K');
  }

  lemma FixedOneExamples()
    ensures FixedOne(10) == "1.0"
    ensures FixedOne(15) == "1.5"
    ensures FixedOne(10000) == "1000.0"
  {
    assert NatToString(1) == "1";
    assert NatToString(1000) == "1000" by {
      assert NatToString(10) == "10";
      assert NatToString(100) == "100";
    }
  }
}
