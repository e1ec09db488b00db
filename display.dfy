/**
 * The four readers of the shared calculation: the temperature text, the
 * time text, the data grid and the trend chart, each a function of the
 * tuple it is given. The chart reader's conversion of the shared table's
 * timestamp column to datetime values is not modelled.
 */
module Display {
  import opened Options
  import opened Telemetry

  predicate IsDigit(c: char) {
    '0' <= c <= '9'
  }

  predicate AllDigits(s: string) {
    forall i :: 0 <= i < |s| ==> IsDigit(s[i])
  }

  function DigitChar(d: nat): (c: char)
    requires d < 10
    ensures IsDigit(c)
  {
    (48 + d) as char
  }

  function DigitValue(c: char): (d: nat)
    requires IsDigit(c)
    ensures d < 10 && DigitChar(d) == c
  {
    c as int - 48
  }

  /** The decimal numeral of `n`, most significant digit first, without leading zeros. */
  function Decimal(n: nat): (s: string)
    ensures 0 < |s| && AllDigits(s)
    ensures 1 < |s| ==> s[0] != '0'
    ensures n < 10 <==> |s| == 1
    ensures 10 <= n < 100 ==> |s| == 2
  {
    if n < 10 then [DigitChar(n)] else Decimal(n / 10) + [DigitChar(n % 10)]
  }

  /** The number a string of decimal digits denotes. */
  function DecimalValue(s: string): nat
    requires AllDigits(s)
  {
    if s == [] then 0 else DecimalValue(s[..|s| - 1]) * 10 + DigitValue(s[|s| - 1])
  }

  lemma {:induction false} DecimalRoundTrip(n: nat)
    ensures DecimalValue(Decimal(n)) == n
  {
    if n >= 10 {
      var s := Decimal(n);
      assert s[..|s| - 1] == Decimal(n / 10);
      DecimalRoundTrip(n / 10);
    }
  }

  /** Reads back a numeral of the form "<digits>.<digit>" as a number of tenths. */
  function ParseUnsignedTenths(s: string): Option<nat> {
    if 3 <= |s| && s[|s| - 2] == '.' && IsDigit(s[|s| - 1]) && AllDigits(s[..|s| - 2]) then
      Some(DecimalValue(s[..|s| - 2]) * 10 + DigitValue(s[|s| - 1]))
    else
      None
  }

  /** Reads back an optionally signed numeral "<digits>.<digit>" as a number of tenths. */
  function ParseTenths(s: string): Option<int> {
    if 0 < |s| && s[0] == '-' then
      match ParseUnsignedTenths(s[1..])
      case Some(m) => Some(0 - m as int)
      case None => None
    else
      match ParseUnsignedTenths(s)
      case Some(m) => Some(m)
      case None => None
  }

  /**
   * How Python prints a float rounded to one decimal place, given as a whole
   * number of tenths: the integer part, a point, and the tenths digit
   * ("65.0", "72.3"). The numeral reads back as the same number, and every
   * temperature the sampler can draw prints as four characters.
   */
  function FormatTenths(t: int): (s: string)
    ensures ParseTenths(s) == Some(t)
    ensures ValidTemp(t) ==> |s| == 4
  {
    var m: nat := if t < 0 then -t else t;
    var u := Decimal(m / 10) + "." + [DigitChar(m % 10)];
    assert u[..|u| - 2] == Decimal(m / 10);
    DecimalRoundTrip(m / 10);
    if t < 0 then "-" + u else u
  }

  /**
   * `display_temp`: the newest reading's temperature followed by " F". The
   * number before the unit is the temperature of the last row of the table.
   */
  function DisplayTemp(s: Snapshot): (r: string)
    ensures 2 <= |r| && r[|r| - 2..] == " F"
    ensures ParseTenths(r[..|r| - 2]) == Some(s.latest.temp)
    ensures Consistent(s) ==>
      |r| == 6 && ParseTenths(r[..|r| - 2]) == Some(s.frame.temp[|s.frame.temp| - 1])
  {
    var text := FormatTenths(s.latest.temp);
    assert (text + " F")[..|text|] == text;
    text + " F"
  }

  /** `display_time`: the newest reading's timestamp, which is the last row of the table. */
  function DisplayTime(s: Snapshot): (r: string)
    ensures Consistent(s) ==>
      r == s.history[|s.history| - 1].timestamp && r == s.frame.timestamp[|s.frame.timestamp| - 1]
  {
    s.latest.timestamp
  }

  /** `display_df`: the data grid shows the table, one row per retained reading, never empty. */
  function DisplayTable(s: Snapshot): (f: Table)
    ensures Consistent(s) ==>
      && !f.Empty() && |f.temp| <= DequeSize && |f.temp| == |s.history|
      && forall i :: 0 <= i < |s.history| ==>
           f.temp[i] == s.history[i].temp && f.timestamp[i] == s.history[i].timestamp
  {
    s.frame
  }

  /** One point of the temperature trend line. */
  datatype Point = Point(time: string, temp: int)

  /**
   * `display_plot`: when the table has rows, the trace added to the chart,
   * time against temperature row by row; otherwise no trace. Every tuple the
   * calculation hands out has rows, so the trace is always drawn and follows
   * the history oldest first.
   */
  function DisplayPlot(s: Snapshot): (trace: Option<seq<Point>>)
    ensures trace.Some? <==> !s.frame.Empty()
    ensures Consistent(s) ==>
      && trace.Some? && |trace.value| == |s.history|
      && forall i :: 0 <= i < |s.history| ==>
           trace.value[i] == Point(s.history[i].timestamp, s.history[i].temp)
  {
    var f := s.frame;
    if f.Empty() then None
    else Some(seq(|f.temp|, i requires 0 <= i < |f.temp| => Point(f.timestamp[i], f.temp[i])))
  }
}
