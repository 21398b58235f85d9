/** The human-readable formatters of prgi.c: time intervals (timehms with divmod) and rates
    with SI prefixes (dec3 and sipref). The printf rendering of real numbers ("%.*f", "%.2E",
    "%.2G") is not modelled: the formatters return the numbers and the layout they print. */
module Formatters {
  import opened Base

  // ---------------------------------------------------------------------------------------------
  // timehms

  /** The fields timehms prints, chosen by the magnitude of the whole number of seconds. */
  datatype Interval =
    | Secs(s: nat)
    | MinSecs(m: nat, s: nat)
    | HourMins(h: nat, m: nat)
    | DayHours(d: nat, h: nat)

  /** The divmod chain of timehms on n whole seconds: each form names the largest unit that is
      at least 1 and the next smaller unit, rounded down. */
  function Decompose(n: nat): (iv: Interval)
    ensures iv.Secs? <==> n < 60
    ensures iv.MinSecs? <==> 60 <= n < 3600
    ensures iv.HourMins? <==> 3600 <= n < 86400
    ensures iv.Secs? ==> iv.s == n
    ensures iv.MinSecs? ==> iv.m * 60 + iv.s == n && iv.s < 60
    ensures iv.HourMins? ==> iv.h < 24 && iv.m < 60 &&
                             iv.h * 3600 + iv.m * 60 <= n < iv.h * 3600 + iv.m * 60 + 60
    ensures iv.DayHours? ==> iv.d >= 1 && iv.h < 24 &&
                             iv.d * 86400 + iv.h * 3600 <= n < iv.d * 86400 + iv.h * 3600 + 3600
  {
    if n < 60 then Secs(n)
    else
      var s, n1 := n % 60, n / 60;
      if n1 < 60 then MinSecs(n1, s)
      else
        var m, n2 := n1 % 60, n1 / 60;
        if n2 < 24 then HourMins(n2, m)
        else DayHours(n2 / 24, n2 % 24)
  }

  /** The printf formats of timehms as written: "%ds", "%dm%02ds", "%dh%02dm", "%dd%d02h". */
  function RenderAsWritten(iv: Interval): seq<char> {
    match iv
    case Secs(s) => Dec(s) + "s"
    case MinSecs(m, s) => Dec(m) + "m" + Pad2(s) + "s"
    case HourMins(h, m) => Dec(h) + "h" + Pad2(m) + "m"
    case DayHours(d, h) => Dec(d) + "d" + Dec(h) + "02h"
  }

  /** The day format the other three call for: hours as two digits, "%dd%02dh". */
  function RenderIntended(iv: Interval): seq<char> {
    match iv
    case DayHours(d, h) => Dec(d) + "d" + Pad2(h) + "h"
    case _ => RenderAsWritten(iv)
  }

  /** What timehms writes: text, or a number of seconds printed with "%.2Es". */
  datatype TimeText = Text(chars: seq<char>) | Scientific(seconds: real)

  const SevenDays: real := 604800.0

  /** timehms as written. */
  function TimeHms(t: Reading): (r: TimeText)
    ensures t.NonFinite? || t.value < 0.0 ==> r == Text("?")
    ensures t.Finite? && t.value > SevenDays ==> r == Scientific(t.value)
    ensures t.Finite? && 0.0 <= t.value <= SevenDays ==>
              r == Text(RenderAsWritten(Decompose(t.value.Floor)))
  {
    if t.NonFinite? || t.value < 0.0 then Text("?")
    else if t.value > SevenDays then Scientific(t.value)
    else Text(RenderAsWritten(Decompose(t.value.Floor)))
  }

  /** timehms with the day format corrected. */
  function TimeHmsIntended(t: Reading): (r: TimeText)
    ensures t.NonFinite? || t.value < 0.0 ==> r == Text("?")
    ensures t.Finite? && t.value > SevenDays ==> r == Scientific(t.value)
    ensures t.Finite? && 0.0 <= t.value <= SevenDays ==>
              r == Text(RenderIntended(Decompose(t.value.Floor)))
  {
    if t.NonFinite? || t.value < 0.0 then Text("?")
    else if t.value > SevenDays then Scientific(t.value)
    else Text(RenderIntended(Decompose(t.value.Floor)))
  }

  /** The documented examples: 45 -> "45s", 125 -> "2m05s", 3725 -> "1h02m"; and the day
      format as written, where 90000 seconds (one day and one hour) prints "1d102h". */
  lemma TimeHmsExamples()
    ensures TimeHms(Finite(45.0)) == Text("45s")
    ensures TimeHms(Finite(125.0)) == Text("2m05s")
    ensures TimeHms(Finite(3725.0)) == Text("1h02m")
    ensures TimeHms(Finite(90000.0)) == Text("1d102h")
    ensures TimeHms(Finite(-1.0)) == Text("?") && TimeHms(NonFinite) == Text("?")
  {
    assert (45.0).Floor == 45 && (125.0).Floor == 125;
    assert (3725.0).Floor == 3725 && (90000.0).Floor == 90000;
    assert Decompose(125) == MinSecs(2, 5);
    assert Decompose(3725) == HourMins(1, 2);
    assert Decompose(90000) == DayHours(1, 1);
    assert Dec(45) == "45";
    assert Dec(2) == "2" && Pad2(5) == "05";
    assert Dec(1) == "1" && Pad2(2) == "02";
  }

  /** As written, the day format does not give the hour of the day in its hour field: for
      90000 seconds (1 day, 1 hour) the digits between 'd' and 'h' read 102. */
  lemma DayFormatAsWritten()
    ensures var r := TimeHms(Finite(90000.0));
            r.Text? && r.chars[..2] == "1d" && r.chars[|r.chars| - 1] == 'h' &&
            DigitsValue(r.chars[2..|r.chars| - 1]) == 102
  {
    TimeHmsExamples();
    var r := TimeHms(Finite(90000.0));
    assert r.chars[2..|r.chars| - 1] == "102";
    assert "102"[..2] == "10" && "10"[..1] == "1" && "1"[..0] == [];
  }

  /** With the corrected format, a time of at least a day and at most a week prints the whole
      days, 'd', the hour of the day as exactly two digits, and 'h'. */
  lemma TimeHmsIntendedDays(t: real)
    requires 86400.0 <= t <= SevenDays
    ensures var n := t.Floor;
            exists d: nat, h: nat ::
              TimeHmsIntended(Finite(t)) == Text(Dec(d) + "d" + Pad2(h) + "h") &&
              |Pad2(h)| == 2 && DigitsValue(Pad2(h)) == h && h < 24 &&
              d * 86400 + h * 3600 <= n < d * 86400 + h * 3600 + 3600
  {
    var n := t.Floor;
    var iv := Decompose(n);
    assert iv.DayHours?;
    Pad2RoundTrip(iv.h);
  }

  // ---------------------------------------------------------------------------------------------
  // dec3 and sipref

  /** dec3: the number of decimals that shows 3 significant digits: together with the digits
      of the integer part they make three, for 1 <= x < 1000. */
  function Dec3(x: real): (d: nat)
    ensures d <= 2
    ensures 1.0 <= x < 1000.0 ==> |Dec(x.Floor)| + d == 3
  {
    DecLength(x.Floor);
    if x < 10.0 then 2 else if x < 100.0 then 1 else 0
  }

  lemma DecLength(n: int)
    ensures 1 <= n < 10 ==> |Dec(n)| == 1
    ensures 10 <= n < 100 ==> |Dec(n)| == 2
    ensures 100 <= n < 1000 ==> |Dec(n)| == 3
  {
    if 10 <= n < 1000 {
      DecLength(n / 10);
    }
  }

  /** The prefix table of sipref: 10^3 ... 10^30 with K, M, G, T, P, E, Z, Y, R and Q. */
  const PrefixValues: seq<real> := [
    1_000.0, 1_000_000.0, 1_000_000_000.0, 1_000_000_000_000.0, 1_000_000_000_000_000.0,
    1_000_000_000_000_000_000.0, 1_000_000_000_000_000_000_000.0,
    1_000_000_000_000_000_000_000_000.0, 1_000_000_000_000_000_000_000_000_000.0,
    1_000_000_000_000_000_000_000_000_000_000.0]
  const PrefixSymbols: seq<char> := "KMGTPEZYRQ"

  /** What sipref prints: "?", a number with dec3 decimals and no suffix, a mantissa with dec3
      decimals followed by PrefixSymbols[index], or "%.2G" of the number. */
  datatype SiText =
    | Unknown
    | Plain(decimals: nat, value: real)
    | Prefixed(decimals: nat, mantissa: real, index: nat)
    | General(x: real)

  /** sipref: chooses the largest prefix whose value does not exceed x, scanning the table. */
  method SiPref(x: Reading) returns (r: SiText)
    ensures x.NonFinite? || x.value < 0.0 <==> r == Unknown
    ensures x.Finite? && 0.0 <= x.value < 1000.0 ==> r == Plain(Dec3(x.value), x.value)
    ensures x.Finite? && 1000.0 <= x.value < PrefixValues[9] ==>
              r.Prefixed? && r.index < 9 &&
              PrefixValues[r.index] <= x.value < PrefixValues[r.index + 1] &&
              r.mantissa == x.value / PrefixValues[r.index] &&
              1.0 <= r.mantissa < 1000.0 && r.decimals == Dec3(r.mantissa)
    ensures x.Finite? && x.value >= PrefixValues[9] ==> r == General(x.value)
    ensures r.Prefixed? ==> PrefixSymbols[r.index] != 'Q'
  {
    if x.NonFinite? || x.value < 0.0 {
      return Unknown;
    }
    var v := x.value;
    if v < 1000.0 {
      return Plain(Dec3(v), v);
    }
    var i := 0;
    while i + 1 < |PrefixValues|
      invariant 0 <= i <= 9
      invariant PrefixValues[i] <= v
    {
      if v < PrefixValues[i + 1] {
        var m := v / PrefixValues[i];
        assert PrefixValues[i + 1] == 1000.0 * PrefixValues[i];
        return Prefixed(Dec3(m), m, i);
      }
      i := i + 1;
    }
    return General(v);
  }
}
