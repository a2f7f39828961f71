/** The display of a result value (`formatResultValue` in ResultManagment.tsx) and the
    clock decomposition it shares with `TimeInput`. A value is kept exactly, as a
    non-negative fraction, so that the floor/mod arithmetic of the display can be stated
    without floating point; everything the display shows is a function of the value's
    whole number of hundredths, `floor(100 v)`. */
module ResultCodec {
  import opened Text
  import opened Arithmetic
  import opened Sequences

  datatype ResultType = Time | Distance | Points

  type Pos = n: nat | n > 0 witness 1

  /** The non-negative number `num / den`. */
  datatype Magnitude = Magnitude(num: nat, den: Pos)

  /** `floor(100 v)`: the whole number of hundredths in `v`. */
  function Hundredths(v: Magnitude): (c: nat)
    ensures c * v.den <= 100 * v.num < (c + 1) * v.den
  {
    100 * v.num / v.den
  }

  /** `v` has no digits beyond the hundredths. */
  predicate HundredthPrecise(v: Magnitude)
  {
    100 * v.num % v.den == 0
  }

  /** Counting hundredths loses nothing exactly when the value is hundredth-precise. */
  lemma HundredthsExact(v: Magnitude)
    ensures HundredthPrecise(v) <==> Hundredths(v) * v.den == 100 * v.num
  {
    assert 100 * v.num == v.den * Hundredths(v) + 100 * v.num % v.den;
  }

  /** The value `c / 100`. */
  function FromHundredths(c: nat): (v: Magnitude)
    ensures HundredthPrecise(v) && Hundredths(v) == c
  {
    Magnitude(c, 100)
  }

  /** Hours, minutes, seconds and hundredths of a second. */
  datatype Clock = Clock(hours: int, minutes: int, seconds: int, hundredths: int)

  /** `hours * 3600 + minutes * 60 + seconds + hundredths / 100`, counted in hundredths. */
  function Recombine(p: Clock): int
  {
    p.hours * 360000 + p.minutes * 6000 + p.seconds * 100 + p.hundredths
  }

  /** The clock fields as the display and `TimeInput` compute them from `v`:
      `floor(v / 3600)`, `floor((v % 3600) / 60)`, `floor(v % 60)`, `floor((v % 1) * 100)`. */
  function Decompose(v: Magnitude): Clock
  {
    var n, d := v.num, v.den;
    Clock(n / (3600 * d), n % (3600 * d) / (60 * d), n % (60 * d) / d, 100 * (n % d) / d)
  }

  /** A count of hundredths in mixed radix: the one clock with minutes and seconds below 60
      and hundredths below 100 that recombines to `c`. */
  function Split(c: nat): (p: Clock)
    ensures p.hours >= 0 && 0 <= p.minutes < 60 && 0 <= p.seconds < 60 && 0 <= p.hundredths < 100
    ensures Recombine(p) == c
  {
    ModOfMod(c, 6000, 60);
    ModOfMod(c, 100, 60);
    Clock(c / 360000, c % 360000 / 6000, c % 6000 / 100, c % 100)
  }

  /** A bounded clock is determined by what it recombines to. */
  lemma SplitUnique(p: Clock, c: nat)
    requires p.hours >= 0 && 0 <= p.minutes < 60 && 0 <= p.seconds < 60 && 0 <= p.hundredths < 100
    requires Recombine(p) == c
    ensures p == Split(c)
  {
    var low := p.seconds * 100 + p.hundredths;
    var mid := p.minutes * 6000 + low;
    DivModUnique(c, 360000, p.hours, mid);
    DivModUnique(mid, 6000, p.minutes, low);
    DivModUnique(low, 100, p.seconds, p.hundredths);
    DivModUnique(c, 100, p.hours * 3600 + p.minutes * 60 + p.seconds, p.hundredths);
    DivModUnique(c, 6000, p.hours * 60 + p.minutes, low);
  }

  /** The floor/mod fields of `v` are the mixed-radix split of its hundredths; in
      particular minutes and seconds lie in 0..59, hundredths in 0..99, hours is unbounded,
      and the fields recombine to `floor(100 v)`. */
  lemma DecomposeSplit(v: Magnitude)
    ensures Decompose(v) == Split(Hundredths(v))
  {
    var n, d := v.num, v.den;
    ScaleSplit(n, d, 3600);
    ScaleSplit(n % (3600 * d), d, 60);
    ScaleSplit(n, d, 60);
    ScaleSplit(n % (60 * d), d, 1);
    ScaleSplit(n, d, 1);
  }

  /** The clock fields of a value recombine to the value itself when it is hundredth-precise. */
  lemma DecomposeRoundTrip(v: Magnitude)
    requires HundredthPrecise(v)
    ensures Recombine(Decompose(v)) * v.den == 100 * v.num
  {
    DecomposeSplit(v);
    HundredthsExact(v);
  }

  /** What the results table shows in its Result and Unit columns. */
  datatype Display = Display(value: string, unit: string)

  function FormatResultValue(v: Magnitude, t: ResultType): Display
  {
    match t
    case Time =>
      DecomposeSplit(v);
      Display(ClockText(Decompose(v)), "HH:MM:SS:CC")
    case Distance =>
      Display(DistanceText(v.num / v.den, 100 * (v.num % v.den) / v.den), "m")
    case Points =>
      Display(PointsText(Hundredths(v)), "points")
  }

  /** `HH:MM:SS.CC`, each field padded to at least two digits. */
  function ClockText(p: Clock): string
    requires p.hours >= 0 && p.minutes >= 0 && p.seconds >= 0 && p.hundredths >= 0
  {
    ClockLayout(Pad2(p.hours), Pad2(p.minutes), Pad2(p.seconds), Pad2(p.hundredths))
  }

  function ClockLayout(h: string, m: string, sec: string, cc: string): string
  {
    h + ":" + m + ":" + sec + "." + cc
  }

  /** Metres, a point, and centimetres padded to two digits. */
  function DistanceText(metres: nat, centimetres: nat): string
  {
    NatToString(metres) + "." + Pad2(centimetres)
  }

  /** The shortest decimal text of `c / 100`: no fraction for a whole number, one digit when
      the hundredths digit is zero, two otherwise. */
  function PointsText(c: nat): string
  {
    var whole, frac := NatToString(c / 100), c % 100;
    if frac == 0 then whole
    else if frac % 10 == 0 then whole + "." + [DigitChar(frac / 10)]
    else whole + "." + Pad2(frac)
  }

  /** Reads a displayed value back as a number of hundredths. */
  function ParseDisplay(text: string, t: ResultType): Option<nat>
  {
    match t
    case Time =>
      (match ParseClock(text)
       case None => None
       case Some(p) => Some(p.hours * 360000 + p.minutes * 6000 + p.seconds * 100 + p.hundredths))
    case Distance => ParseDistance(text)
    case Points => ParsePoints(text)
  }

  function ParseClock(text: string): (r: Option<Clock>)
    ensures r.Some? ==> r.value.hours >= 0 && r.value.minutes >= 0 && r.value.seconds >= 0 && r.value.hundredths >= 0
  {
    match CutClock(text)
    case None => None
    case Some((h, m, sec, cc)) => ReadClock(h, m, sec, cc)
  }

  /** The texts between the ':', ':' and '.' of `HH:MM:SS.CC`. */
  function CutClock(text: string): Option<(string, string, string, string)>
  {
    var (h, rest, ok1) := SplitFirst(text, ':');
    var (m, rest', ok2) := SplitFirst(rest, ':');
    var (sec, cc, ok3) := SplitFirst(rest', '.');
    if ok1 && ok2 && ok3 then Some((h, m, sec, cc)) else None
  }

  function ReadClock(h: string, m: string, sec: string, cc: string): (r: Option<Clock>)
    ensures r.Some? ==> r.value.hours >= 0 && r.value.minutes >= 0 && r.value.seconds >= 0 && r.value.hundredths >= 0
  {
    if AllDigits(h) && AllDigits(m) && AllDigits(sec) && AllDigits(cc) then
      Some(Clock(ParseNat(h), ParseNat(m), ParseNat(sec), ParseNat(cc)))
    else None
  }

  function ParseDistance(text: string): Option<nat>
  {
    var (m, cm, ok) := SplitFirst(text, '.');
    if ok then ReadDistance(m, cm) else None
  }

  function ReadDistance(m: string, cm: string): Option<nat>
  {
    if AllDigits(m) && AllDigits(cm) then Some(ParseNat(m) * 100 + ParseNat(cm)) else None
  }

  function ParsePoints(text: string): Option<nat>
  {
    var (whole, frac, dot) := SplitFirst(text, '.');
    ReadPoints(whole, frac, dot)
  }

  /** A whole part, and after a point a fraction of one or two digits. */
  function ReadPoints(whole: string, frac: string, dot: bool): Option<nat>
  {
    if !AllDigits(whole) || !AllDigits(frac) then None
    else if !dot then Some(ParseNat(whole) * 100)
    else if |frac| == 1 then Some(ParseNat(whole) * 100 + ParseNat(frac) * 10)
    else if |frac| == 2 then Some(ParseNat(whole) * 100 + ParseNat(frac))
    else None
  }

  /** Cutting `HH:MM:SS.CC` gives back its four fields when they hold no separators. */
  lemma CutClockLayout(h: string, m: string, sec: string, cc: string)
    requires ':' !in h && ':' !in m && '.' !in sec
    ensures CutClock(ClockLayout(h, m, sec, cc)) == Some((h, m, sec, cc))
  {
    var text := ClockLayout(h, m, sec, cc);
    var tail := sec + "." + cc;
    var rest := m + ":" + tail;
    assert text == h + ":" + rest;
    SplitFirstAt(h, ':', rest);
    SplitFirstAt(m, ':', tail);
    SplitFirstAt(sec, '.', cc);
  }

  /** Any four digit strings laid out as `HH:MM:SS.CC` read back as the clock they spell. */
  lemma ParseClockFields(p: Clock, h: string, m: string, sec: string, cc: string)
    requires AllDigits(h) && AllDigits(m) && AllDigits(sec) && AllDigits(cc)
    requires ParseNat(h) == p.hours && ParseNat(m) == p.minutes
    requires ParseNat(sec) == p.seconds && ParseNat(cc) == p.hundredths
    ensures ParseClock(ClockLayout(h, m, sec, cc)) == Some(p)
  {
    DigitsHaveNo(h, ':');
    DigitsHaveNo(m, ':');
    DigitsHaveNo(sec, '.');
    CutClockLayout(h, m, sec, cc);
    ParseClockCut(ClockLayout(h, m, sec, cc), h, m, sec, cc);
    ReadClockDigits(h, m, sec, cc);
  }

  lemma ClockTextRoundTrip(p: Clock)
    requires p.hours >= 0 && p.minutes >= 0 && p.seconds >= 0 && p.hundredths >= 0
    ensures ParseClock(ClockText(p)) == Some(p)
  {
    ParseClockFields(p, Pad2(p.hours), Pad2(p.minutes), Pad2(p.seconds), Pad2(p.hundredths));
  }

  lemma ParseClockCut(text: string, h: string, m: string, sec: string, cc: string)
    requires CutClock(text) == Some((h, m, sec, cc))
    ensures ParseClock(text) == ReadClock(h, m, sec, cc)
  {
  }

  lemma ReadClockDigits(h: string, m: string, sec: string, cc: string)
    requires AllDigits(h) && AllDigits(m) && AllDigits(sec) && AllDigits(cc)
    ensures ReadClock(h, m, sec, cc) == Some(Clock(ParseNat(h), ParseNat(m), ParseNat(sec), ParseNat(cc)))
  {
  }

  lemma DistanceTextRoundTrip(metres: nat, centimetres: nat)
    ensures ParseDistance(DistanceText(metres, centimetres)) == Some(metres * 100 + centimetres)
  {
    var m, cm := NatToString(metres), Pad2(centimetres);
    ParseNatToString(metres);
    DigitsHaveNo(m, '.');
    SplitFirstAt(m, '.', cm);
  }

  lemma PointsTextRoundTrip(c: nat)
    ensures ParsePoints(PointsText(c)) == Some(c)
  {
    var whole, frac := NatToString(c / 100), c % 100;
    ParseNatToString(c / 100);
    DigitsHaveNo(whole, '.');
    if frac == 0 {
      SplitFirstParts(whole, '.');
      IndexOfFirst(whole, '.');
    } else if frac % 10 == 0 {
      var f := [DigitChar(frac / 10)];
      assert ParseNat(f) == frac / 10 by { assert f[..0] == []; }
      SplitFirstAt(whole, '.', f);

    } else {
      var f := Pad2(frac);
      SplitFirstAt(whole, '.', f);

    }
  }

  lemma ClockDisplayRoundTrip(p: Clock)
    requires p.hours >= 0 && p.minutes >= 0 && p.seconds >= 0 && p.hundredths >= 0
    ensures ParseDisplay(ClockText(p), Time) == Some(Recombine(p))
  {
    ClockTextRoundTrip(p);
  }

  lemma TimeRoundTrip(v: Magnitude)
    ensures ParseDisplay(FormatResultValue(v, Time).value, Time) == Some(Hundredths(v))
  {
    DecomposeSplit(v);
    ClockDisplayRoundTrip(Decompose(v));
  }

  lemma DistanceRoundTrip(v: Magnitude)
    ensures ParseDisplay(FormatResultValue(v, Distance).value, Distance) == Some(Hundredths(v))
  {
    ScaleSplit(v.num, v.den, 1);
    DistanceTextRoundTrip(v.num / v.den, 100 * (v.num % v.den) / v.den);
  }

  /** Reading the display back gives `floor(100 v)`: the display truncates to hundredths and
      loses nothing more, so for a hundredth-precise value it is exact. */
  lemma FormatRoundTrip(v: Magnitude, t: ResultType)
    ensures ParseDisplay(FormatResultValue(v, t).value, t) == Some(Hundredths(v))
  {
    match t
    case Time => TimeRoundTrip(v);
    case Distance => DistanceRoundTrip(v);
    case Points => PointsTextRoundTrip(Hundredths(v));
  }

  /** Two values show the same text exactly when they have the same whole number of
      hundredths; the unit depends on the result type alone. */
  lemma FormatDeterminedByHundredths(v: Magnitude, w: Magnitude, t: ResultType)
    ensures FormatResultValue(v, t).value == FormatResultValue(w, t).value <==> Hundredths(v) == Hundredths(w)
    ensures FormatResultValue(v, t).unit == FormatResultValue(w, t).unit
  {
    FormatRoundTrip(v, t);
    FormatRoundTrip(w, t);
    if Hundredths(v) == Hundredths(w) {
      match t
      case Time =>
        DecomposeSplit(v);
        DecomposeSplit(w);
      case Distance =>
        ScaleSplit(v.num, v.den, 1);
        ScaleSplit(w.num, w.den, 1);
      case Points =>
    }
  }

  /** 3661.5 seconds shows as one hour, one minute, one and a half seconds. */
  lemma TimeExample()
    ensures FormatResultValue(Magnitude(7323, 2), Time) == Display("01:01:01.50", "HH:MM:SS:CC")
  {
    var p := Decompose(Magnitude(7323, 2));
    assert p == Clock(1, 1, 1, 50);
    Pad2Digits(1);
    Pad2Digits(50);
  }

  /** DISTANCE truncates: 12.345 m shows as "12.34", not "12.35". */
  lemma DistanceTruncates()
    ensures FormatResultValue(Magnitude(12345, 1000), Distance) == Display("12.34", "m")
  {
    Pad2Digits(34);
    assert NatToString(12) == "12" by { assert NatToString(1) == "1"; }
  }

  /** POINTS shows the shortest decimal: no trailing zeros and no point for whole values. */
  lemma PointsExamples()
    ensures FormatResultValue(Magnitude(12, 1), Points).value == "12"
    ensures FormatResultValue(Magnitude(25, 2), Points).value == "12.5"
    ensures FormatResultValue(Magnitude(1205, 100), Points).value == "12.05"
  {
    assert NatToString(12) == "12" by { assert NatToString(1) == "1"; }
    assert Hundredths(Magnitude(12, 1)) == 1200;
    assert Hundredths(Magnitude(25, 2)) == 1250;
    assert Hundredths(Magnitude(1205, 100)) == 1205;
    Pad2Digits(5);
  }
}
