/**
 * The two formatters of the chart: the axis tooltip, which lists one row per
 * series that has a value at the hovered year, and the value-axis label, which
 * writes a "+" before every non-negative tick.
 */
module Tooltip {
  import opened Wrappers
  import opened Decimal
  import opened TemperatureData
  import opened Average
  import opened Chart

  /**
   * One entry of the tooltip's `params`: the hovered category, a series' colour and
   * name, and its data point there (`None` for `undefined`).
   */
  datatype Param = Param(axisValue: string, color: string, seriesName: string, value: Option<Point>)

  const Indent: string := "                            "
  const CloseIndent: string := "                        "

  const TitleOpen: string := "<div style=\"font-weight:600;margin-bottom:8px;color:#1e3a8a\">"
  const TitleClose: string := "年</div>"
  const Subtitle: string := "<div style=\"font-size:12px;color:#666;margin-bottom:6px\">相对于1850-1900年平均值的偏差</div>"

  /** The title line (the hovered year) and the fixed subtitle. */
  function Header(axisValue: string): string
  {
    TitleOpen + axisValue + TitleClose + Subtitle
  }

  /** `p.value !== null && p.value !== undefined`. */
  predicate Shown(p: Param)
  {
    p.value.Some? && p.value.value != Null
  }

  /** A decimal text denotes a value >= 0, "-0" and "-0.00" included. */
  predicate NonNegativeDec(d: Dec)
  {
    !d.neg || d.digits == 0
  }

  /**
   * `v >= 0` as JavaScript evaluates it: `null` converts to 0, a string converts
   * to the number it spells (the empty string to 0, a string that spells none to
   * NaN, which compares false).
   */
  predicate AtLeastZero(v: Point)
  {
    match v
    case Null => true
    case Number(c) => c >= 0
    case Text(s) => s == "" || (ParseDecimal(s).Some? && NonNegativeDec(ParseDecimal(s).value))
  }

  /** `${p.value}`: a number in its shortest form, a string as it is. */
  function ValueText(v: Point): string
  {
    match v
    case Null => "null"
    case Number(c) => CentiToString(c)
    case Text(s) => s
  }

  /** The sign, the value and the unit, as the row shows them. */
  function SignedValue(v: Point): string
  {
    (if AtLeastZero(v) then "+" else "") + ValueText(v) + "°C"
  }

  const RowOpen: string := "<div style=\"display:flex;align-items:center;margin:4px 0\">\n"
    + Indent + "<span style=\"display:inline-block;width:10px;height:10px;border-radius:50%;background:"
  const DotClose: string := ";margin-right:8px\"></span>\n" + Indent + "<span style=\"flex:1\">"
  const NameClose: string := "</span>\n" + Indent + "<span style=\"font-weight:600;color:"
  const ValueClose: string := "</span>\n" + CloseIndent + "</div>"

  /** The row of one shown series: a colour dot, the series name and the signed value. */
  function Row(p: Param): string
    requires p.value.Some?
  {
    RowOpen + p.color + DotClose + p.seriesName + NameClose
    + (if AtLeastZero(p.value.value) then "#e74c3c" else "#3498db")
    + "\">" + SignedValue(p.value.value) + ValueClose
  }

  /** The rows the `forEach` appends for the params, first to last. */
  function RowsHtml(ps: seq<Param>): string
  {
    if ps == [] then ""
    else
      var p := ps[|ps| - 1];
      RowsHtml(ps[..|ps| - 1]) + (if Shown(p) then Row(p) else "")
  }

  /**
   * The tooltip formatter. `None` when `params` is empty, where reading
   * `params[0].axisValue` throws; otherwise the header for the first entry's
   * category followed by one row per shown entry, in order.
   */
  method FormatTooltip(params: seq<Param>) returns (html: Option<string>)
    ensures html.None? <==> params == []
    ensures html.Some? ==> html.value == Header(params[0].axisValue) + RowsHtml(params)
  {
    if |params| == 0 {
      return None;
    }
    var s := Header(params[0].axisValue);
    var i := 0;
    while i < |params|
      invariant 0 <= i <= |params|
      invariant s == Header(params[0].axisValue) + RowsHtml(params[..i])
    {
      var p := params[i];
      assert params[..i + 1][..i] == params[..i];
      if p.value != None && p.value != Some(Null) {
        Associative(Header(params[0].axisValue), RowsHtml(params[..i]), Row(p));
        s := s + Row(p);
      }
      i := i + 1;
    }
    assert params[..|params|] == params;
    html := Some(s);
  }

  lemma Associative(a: string, b: string, c: string)
    ensures (a + b) + c == a + (b + c)
  {
  }

  // ---------------------------------------------------------------------------
  // Which rows appear

  /** The params that get a row, in order. */
  function Visible(ps: seq<Param>): seq<Param>
  {
    if ps == [] then []
    else
      var p := ps[|ps| - 1];
      Visible(ps[..|ps| - 1]) + (if Shown(p) then [p] else [])
  }

  /** A param gets a row exactly when it is one of the params and its value is neither `null` nor `undefined`. */
  lemma {:induction false} VisibleMembers(ps: seq<Param>, p: Param)
    ensures p in Visible(ps) <==> p in ps && Shown(p)
  {
    if ps != [] {
      var init := ps[..|ps| - 1];
      VisibleMembers(init, p);
      assert ps == init + [ps[|ps| - 1]];
    }
  }

  /** The rows are the rows of the visible params alone: hidden params contribute nothing. */
  lemma {:induction false} RowsOfVisible(ps: seq<Param>)
    ensures RowsHtml(ps) == RowsHtml(Visible(ps))
  {
    if ps != [] {
      var init, p := ps[..|ps| - 1], ps[|ps| - 1];
      RowsOfVisible(init);
      if Shown(p) {
        var v := Visible(init) + [p];
        assert Visible(ps) == v && v[..|v| - 1] == Visible(init) && v[|v| - 1] == p;
      } else {
        assert Visible(ps) == Visible(init) + [] == Visible(init);
        assert RowsHtml(ps) == RowsHtml(init) + "" == RowsHtml(init);
      }
    }
  }

  /** No rows at all exactly when no param has a value. */
  lemma {:induction false} RowsEmptyIff(ps: seq<Param>)
    ensures RowsHtml(ps) == "" <==> forall i :: 0 <= i < |ps| ==> !Shown(ps[i])
  {
    if ps != [] {
      var init := ps[..|ps| - 1];
      RowsEmptyIff(init);
      assert forall i :: 0 <= i < |init| ==> init[i] == ps[i];
    }
  }

  /** Rows come out in the order of the params. */
  lemma {:induction false} RowsAppend(a: seq<Param>, b: seq<Param>)
    ensures RowsHtml(a + b) == RowsHtml(a) + RowsHtml(b)
    decreases |b|
  {
    if b == [] {
      assert a + b == a;
    } else {
      var init, p := b[..|b| - 1], b[|b| - 1];
      assert (a + b)[..|a + b| - 1] == a + init && (a + b)[|a + b| - 1] == p;
      RowsAppend(a, init);
      Associative(RowsHtml(a), RowsHtml(init), if Shown(p) then Row(p) else "");
    }
  }

  // ---------------------------------------------------------------------------
  // The sign of a row

  /**
   * A source reading shows as its shortest decimal text, preceded by "+" when it
   * is >= 0; a negative one carries its own "-" and no "+".
   */
  lemma NumberSign(c: int)
    ensures var t := SignedValue(Number(c));
            && (t[0] == '+' <==> c >= 0)
            && (t[0] == '-' <==> c < 0)
            && var d := ParseDecimal(CentiToString(c));
               d.Some? && d.value.digits * 100 == Abs(c) * Pow10(d.value.scale)
  {
    CentiToStringParses(c);
    var a := Abs(c);
    if a % 100 == 0 {
      FixedTextSign(c < 0, a / 100, 0);
    } else if a % 10 == 0 {
      FixedTextSign(c < 0, a / 10, 1);
    } else {
      FixedTextSign(c < 0, a, 2);
    }
  }

  /**
   * An average point gets a "+" exactly when its rounded value is >= 0: the
   * string compares with 0 as the number it spells.
   */
  lemma AverageSign(vs: seq<Reading>)
    requires Present(vs) != []
    ensures var d := ParseDecimal(AveragePoint(vs).value);
            d.Some? && (AtLeastZero(Text(AveragePoint(vs).value)) <==> Hundredths(d.value) >= 0)
  {
    AveragePointText(vs);
  }

  /**
   * A mean just below zero is written "-0.00", which compares as -0, so >= 0:
   * its row reads "+-0.00°C".
   */
  lemma NegativeZeroGetsPlus()
    ensures AveragePoint([Some(-1), Some(0), Some(0)]) == Some("-0.00")
    ensures SignedValue(Text("-0.00")) == "+-0.00°C"
  {
    NegativeZeroMean();
    NegativeZeroRow();
  }

  lemma NegativeZeroRow()
    ensures SignedValue(Text("-0.00")) == "+-0.00°C"
  {
    ParseNegativeZero();
    assert AtLeastZero(Text("-0.00"));
  }

  /** Readings -0.01, 0.00 and 0.00 average to -0.0033..., written "-0.00". */
  lemma NegativeZeroMean()
    ensures AveragePoint([Some(-1), Some(0), Some(0)]) == Some("-0.00")
  {
    var vs := [Some(-1), Some(0), Some(0)];
    assert vs[1..] == [Some(0), Some(0)] && vs[1..][1..] == [Some(0)] && [Some(0)][1..] == [];
    assert Present(vs) == [-1, 0, 0];
    SumCons(-1, [0, 0]); SumCons(0, [0]); SumCons(0, []);
    PointText(vs, [-1, 0, 0], -1, 0, "-0.00");
  }

  lemma ParseNegativeZero()
    ensures ParseDecimal("-0.00") == Some(Dec(true, 0, 2))
  {
    FixedTextParses(true, 0, 2);
    TwoDecimalText(true, 0);
  }

  // ---------------------------------------------------------------------------
  // The value-axis label

  /** `v >= 0 ? '+' + v.toFixed(1) : v.toFixed(1)` for the tick value v = num / den. */
  function AxisLabel(num: int, den: nat): string
    requires den > 0
  {
    if num >= 0 then "+" + ToFixed(num, den, 1) else ToFixed(num, den, 1)
  }

  /**
   * A tick label starts with "+" for a tick >= 0 and with "-" for one below;
   * after the "+" it reads back as the tick rounded to one decimal.
   */
  lemma AxisLabelSign(num: int, den: nat)
    requires den > 0
    ensures var l := AxisLabel(num, den);
            && |l| >= 2
            && (l[0] == '+' <==> num >= 0)
            && (l[0] == '-' <==> num < 0)
            && ParseDecimal(if num >= 0 then l[1..] else l)
               == Some(Dec(num < 0, RoundHalfUp(Abs(num) * 10, den), 1))
  {
    var t := ToFixed(num, den, 1);
    assert Pow10(1) == 10;
    ToFixedParses(num, den, 1);
    FixedTextSign(num < 0, RoundHalfUp(Abs(num) * Pow10(1), den), 1);
    var l := AxisLabel(num, den);
    if num >= 0 {
      assert l == "+" + t && l[1..] == t;
    } else {
      assert l == t;
    }
  }

  /** The labels of the six ticks from -0.5 to 2.0, the last tick being the axis maximum. */
  lemma YAxisLabels()
    ensures YMin + 5 * YInterval == YMax
    ensures AxisLabel(YMin, 100) == "-0.5"
    ensures AxisLabel(YMin + YInterval, 100) == "+0.0"
    ensures AxisLabel(YMin + 2 * YInterval, 100) == "+0.5"
    ensures AxisLabel(YMin + 3 * YInterval, 100) == "+1.0"
    ensures AxisLabel(YMin + 4 * YInterval, 100) == "+1.5"
    ensures AxisLabel(YMin + 5 * YInterval, 100) == "+2.0"
  {
    TickLabel(-50, "-0.5");
    TickLabel(0, "+0.0");
    TickLabel(50, "+0.5");
    TickLabel(100, "+1.0");
    TickLabel(150, "+1.5");
    TickLabel(200, "+2.0");
  }

  lemma TickLabel(c: int, text: string)
    requires -1000 < c < 1000 && c % 10 == 0
    requires var a := Abs(c) / 10;
             text == (if c >= 0 then "+" else "-") + [DigitChar(a / 10), '.', DigitChar(a % 10)]
    ensures AxisLabel(c, 100) == text
  {
    OneDecimalLabel(c);
  }

  /** The label of a tick v = c / 100 that is a whole number of tenths below 10. */
  lemma OneDecimalLabel(c: int)
    requires -1000 < c < 1000 && c % 10 == 0
    ensures var a := Abs(c) / 10;
            AxisLabel(c, 100)
            == (if c >= 0 then "+" else "-") + [DigitChar(a / 10), '.', DigitChar(a % 10)]
  {
    var a := Abs(c) / 10;
    assert Pow10(1) == 10;
    assert RoundHalfUp(Abs(c) * 10, 100) == a;
    assert Whole(a, 1) == a / 10 && Fraction(a, 1) == a % 10;
    assert PadDigits(a % 10, 1) == [DigitChar(a % 10)];
  }
}
