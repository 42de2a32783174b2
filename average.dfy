/**
 * The "multi-source average" series (`avgData`): for every year, the mean of the
 * sources that have a value there, written with two decimals, or `null` when none has.
 */
module Average {
  import opened Wrappers
  import opened Decimal
  import opened TemperatureData

  /** `values.filter(v => v !== null)`: the readings that are present, in order. */
  function Present(vs: seq<Reading>): (ds: seq<int>)
    ensures |ds| <= |vs|
  {
    if vs == [] then [] else Kept(vs[0]) + Present(vs[1..])
  }

  /** What the filter keeps of one reading. */
  function Kept(v: Reading): seq<int>
  {
    if v.Some? then [v.value] else []
  }

  /** `values.reduce((a, b) => a + b, 0)`. */
  function Sum(xs: seq<int>): int
  {
    Fold(0, xs)
  }

  /** The reduction step by step: the accumulator takes in each element, first to last. */
  function Fold(acc: int, xs: seq<int>): int
    decreases xs
  {
    if xs == [] then acc else Fold(acc + xs[0], xs[1..])
  }

  /**
   * One point of `avgData`: `null` when no reading is present, otherwise
   * `(sum / count).toFixed(2)` of the present readings, in degrees.
   */
  function AveragePoint(vs: seq<Reading>): Option<string>
  {
    var ds := Present(vs);
    if |ds| > 0 then Some(ToFixed(Sum(ds), 100 * |ds|, 2)) else None
  }

  /** The array literal `values` of one year: the six sources at index i. */
  function Column(t: TemperatureTable, i: nat): (vs: seq<Reading>)
    requires Valid(t) && i < |t.years|
    ensures |vs| == |SourceFields| && forall c :: 0 <= c < |vs| ==> vs[c] == Columns(t)[c][i]
  {
    [t.berkeleyEarth[i], t.era5[i], t.gistemp[i], t.hadcrut5[i], t.jra3q[i], t.noaa[i]]
  }

  /** `temperatureData.years.map((year, i) => ...)`: one average point per year. */
  function AverageData(t: TemperatureTable): (avg: seq<Option<string>>)
    requires Valid(t)
    ensures |avg| == |t.years|
  {
    seq(|t.years|, i requires 0 <= i < |t.years| => AveragePoint(Column(t, i)))
  }

  // ---------------------------------------------------------------------------
  // What the filter keeps

  /** The filter keeps exactly the present values: a present 0 is kept like any other. */
  lemma {:induction false} PresentMembers(vs: seq<Reading>, x: int)
    ensures x in Present(vs) <==> Some(x) in vs
  {
    if vs != [] {
      PresentMembers(vs[1..], x);
      assert vs == [vs[0]] + vs[1..];
    }
  }

  /** Nothing is kept exactly when every reading is `null`. */
  lemma {:induction false} PresentEmpty(vs: seq<Reading>)
    ensures Present(vs) == [] <==> forall i :: 0 <= i < |vs| ==> vs[i].None?
  {
    if vs != [] {
      PresentEmpty(vs[1..]);
      assert forall i :: 1 <= i < |vs| ==> vs[i] == vs[1..][i - 1];
    }
  }

  /** The filter commutes with concatenation, so it keeps order and multiplicity. */
  lemma {:induction false} PresentAppend(a: seq<Reading>, b: seq<Reading>)
    ensures Present(a + b) == Present(a) + Present(b)
  {
    if a == [] {
      assert a + b == b;
    } else {
      assert (a + b)[0] == a[0];
      assert (a + b)[1..] == a[1..] + b;
      PresentAppend(a[1..], b);
    }
  }

  // ---------------------------------------------------------------------------
  // The mean

  /** Every bound on the summands bounds the sum: count * lo <= sum <= count * hi. */
  lemma SumBounds(xs: seq<int>, lo: int, hi: int)
    requires forall k :: 0 <= k < |xs| ==> lo <= xs[k] <= hi
    ensures |xs| * lo <= Sum(xs) <= |xs| * hi
  {
    FoldBounds(0, xs, lo, hi);
  }

  lemma {:induction false} FoldBounds(acc: int, xs: seq<int>, lo: int, hi: int)
    requires forall k :: 0 <= k < |xs| ==> lo <= xs[k] <= hi
    ensures acc + |xs| * lo <= Fold(acc, xs) <= acc + |xs| * hi
    decreases xs
  {
    if xs != [] {
      var rest := xs[1..];
      assert forall k :: 0 <= k < |rest| ==> rest[k] == xs[k + 1];
      FoldBounds(acc + xs[0], rest, lo, hi);
      assert |xs| * lo == |rest| * lo + lo;
      assert |xs| * hi == |rest| * hi + hi;
    }
  }

  function Min(xs: seq<int>): (m: int)
    requires xs != []
    ensures m in xs && forall k :: 0 <= k < |xs| ==> m <= xs[k]
  {
    if |xs| == 1 then xs[0] else var r := Min(xs[1..]); if xs[0] <= r then xs[0] else r
  }

  function Max(xs: seq<int>): (m: int)
    requires xs != []
    ensures m in xs && forall k :: 0 <= k < |xs| ==> xs[k] <= m
  {
    if |xs| == 1 then xs[0] else var r := Max(xs[1..]); if xs[0] >= r then xs[0] else r
  }

  /** The unrounded mean lies between the least and the greatest present reading. */
  lemma MeanBetweenExtremes(vs: seq<Reading>)
    requires Present(vs) != []
    ensures var ds := Present(vs);
            |ds| * Min(ds) <= Sum(ds) <= |ds| * Max(ds)
  {
    var ds := Present(vs);
    SumBounds(ds, Min(ds), Max(ds));
  }

  /** The value, in hundredths, of a two-decimal text. */
  function Hundredths(d: Dec): int
  {
    if d.neg then -(d.digits as int) else d.digits
  }

  /** A defined point is the toFixed text of sign(sum) * round(|sum| / count) hundredths. */
  lemma AveragePointText(vs: seq<Reading>)
    requires Present(vs) != []
    ensures var ds := Present(vs);
            ParseDecimal(AveragePoint(vs).value)
            == Some(Dec(Sum(ds) < 0, RoundHalfUp(Abs(Sum(ds)), |ds|), 2))
  {
    var ds := Present(vs);
    var n, s := |ds|, Sum(ds);
    ToFixedParses(s, 100 * n, 2);
    assert Pow10(2) == 100;
    RoundHalfUpScale(Abs(s), n, 100);
    assert Abs(s) * 100 == Abs(s) * Pow10(2);
    assert n * 100 == 100 * n;
  }

  /**
   * A defined point is the mean of the present readings rounded to hundredths:
   * its text keeps the sign of the sum and reads back as the magnitude |sum| / count
   * rounded to the nearest integer, halves rounded up.
   */
  lemma AveragePointIsRoundedMean(vs: seq<Reading>)
    requires Present(vs) != []
    ensures var ds := Present(vs);
            var d := ParseDecimal(AveragePoint(vs).value);
            && d.Some? && d.value.scale == 2 && d.value.neg == (Sum(ds) < 0)
            && 2 * Abs(Sum(ds)) - |ds| < 2 * |ds| * d.value.digits <= 2 * Abs(Sum(ds)) + |ds|
  {
    var ds := Present(vs);
    AveragePointText(vs);
    RoundHalfUpBounds(Abs(Sum(ds)), |ds|);
  }

  /** The rounded point also lies between the least and the greatest present reading. */
  lemma AveragePointBetweenExtremes(vs: seq<Reading>)
    requires Present(vs) != []
    ensures var ds := Present(vs);
            var d := ParseDecimal(AveragePoint(vs).value);
            d.Some? && Min(ds) <= Hundredths(d.value) <= Max(ds)
  {
    var ds := Present(vs);
    AveragePointText(vs);
    MeanBetweenExtremes(vs);
    SignedRoundWithin(Sum(ds), |ds|, Min(ds), Max(ds));
  }

  /** A point is `null` if and only if every source is `null` there. */
  lemma AveragePointNullIff(vs: seq<Reading>)
    ensures AveragePoint(vs).None? <==> forall i :: 0 <= i < |vs| ==> vs[i].None?
  {
    PresentEmpty(vs);
  }

  /** A reading of exactly 0 is present: it makes the point defined and is counted in it. */
  lemma ZeroIsCounted(vs: seq<Reading>, i: nat)
    requires i < |vs| && vs[i] == Some(0)
    ensures 0 in Present(vs) && AveragePoint(vs).Some?
  {
    PresentMembers(vs, 0);
  }

  // ---------------------------------------------------------------------------
  // Per year

  /** Year i of the average is `null` if and only if all six sources are `null` at i. */
  lemma AverageDataNullIff(t: TemperatureTable, i: nat)
    requires Valid(t) && i < |t.years|
    ensures AverageData(t)[i].None? <==> forall c :: 0 <= c < |SourceFields| ==> Columns(t)[c][i].None?
  {
    AveragePointNullIff(Column(t, i));
  }

  /** The filter unrolled over a six-element array literal. */
  lemma PresentOfSix(vs: seq<Reading>)
    requires |vs| == 6
    ensures Present(vs) == Kept(vs[0]) + (Kept(vs[1]) + (Kept(vs[2]) + (Kept(vs[3]) + (Kept(vs[4]) + Kept(vs[5])))))
  {
    var v1 := vs[1..];
    var v2 := v1[1..];
    var v3 := v2[1..];
    var v4 := v3[1..];
    var v5 := v4[1..];
    assert v1[0] == vs[1] && v2[0] == vs[2] && v3[0] == vs[3] && v4[0] == vs[4] && v5[0] == vs[5];
    assert v5[1..] == [];
    assert Present(v5) == Kept(vs[5]) + [];
    assert Kept(vs[5]) + [] == Kept(vs[5]);
    assert Present(v4) == Kept(vs[4]) + Present(v5);
    assert Present(v3) == Kept(vs[3]) + Present(v4);
    assert Present(v2) == Kept(vs[2]) + Present(v3);
    assert Present(v1) == Kept(vs[1]) + Present(v2);
  }

  // ---------------------------------------------------------------------------
  // The bundled dataset

  /**
   * The average series of the bundled data, year by year from 1850 to 2024, with
   * the sum and the mean taken exactly (see README for the two years where
   * floating point rounds the other way).
   */

  /**
   * In 1920 GISTEMP reports exactly 0.00: it is one of the four readings averaged,
   * giving 0.05 / 4 = 0.0125, written "0.01"; a truthiness filter would have
   * dropped it and written 0.05 / 3 as "0.02".
   */
  lemma ZeroCountedIn1920()
    ensures Valid(Temperature) && Temperature.years[7] == 1920 && Temperature.gistemp[7] == Some(0)
    ensures Present(Column(Temperature, 7)) == [-1, 0, 4, 2]
    ensures AverageData(Temperature)[7] == Some("0.01")
    ensures ToFixed(Sum([-1, 4, 2]), 100 * 3, 2) == "0.02"
  {
    BundledDataConsistent();
    Column1920();
    Point1920();
    WithoutTheZero();
  }

  lemma Point1920()
    ensures Present([Some(-1), None, Some(0), Some(4), None, Some(2)]) == [-1, 0, 4, 2]
    ensures AveragePoint([Some(-1), None, Some(0), Some(4), None, Some(2)]) == Some("0.01")
  {
    var vs := [Some(-1), None, Some(0), Some(4), None, Some(2)];
    PresentOfSix(vs);
    assert Present(vs) == [-1, 0, 4, 2];
    SumCons(-1, [0, 4, 2]); SumCons(0, [4, 2]); SumCons(4, [2]); SumCons(2, []);
    PointText(vs, [-1, 0, 4, 2], 5, 1, "0.01");
  }

  lemma WithoutTheZero()
    ensures ToFixed(Sum([-1, 4, 2]), 100 * 3, 2) == "0.02"
  {
    SumCons(-1, [4, 2]); SumCons(4, [2]); SumCons(2, []);
    assert Sum([-1, 4, 2]) == 5;
    ToFixedTwo(5, 300, 2);
  }

  /**
   * A point whose present readings ds sum to total, with the rounded magnitude
   * m below 10 degrees, is the text of that one integer digit and two decimals.
   */
  lemma PointText(vs: seq<Reading>, ds: seq<int>, total: int, m: nat, text: string)
    requires Present(vs) == ds && ds != [] && Sum(ds) == total
    requires RoundHalfUp(Abs(total) * 100, 100 * |ds|) == m < 1000
    requires text == SignText(total < 0) + [DigitChar(m / 100), '.', DigitChar(m / 10 % 10), DigitChar(m % 10)]
    ensures AveragePoint(vs) == Some(text)
  {
    ToFixedTwo(total, 100 * |ds|, m);
  }

  /** The six readings of 1920, GISTEMP's 0.00 among them. */
  lemma Column1920()
    ensures Valid(Temperature) && Temperature.years[7] == 1920 && Temperature.gistemp[7] == Some(0)
    ensures Column(Temperature, 7) == [Some(-1), None, Some(0), Some(4), None, Some(2)]
  {
    BundledDataConsistent();
  }

  /**
   * In 1960 and 2022 all six sources report and the exact mean falls halfway
   * between two hundredths (0.245 and 1.155): the half is rounded up, to "0.25"
   * and "1.16".
   */
  lemma HalfwayMeansRoundUp()
    ensures Valid(Temperature) && Temperature.years[11] == 1960 && Temperature.years[24] == 2022
    ensures AverageData(Temperature)[11] == Some("0.25")
    ensures AverageData(Temperature)[24] == Some("1.16")
  {
    BundledDataConsistent();
    Column1960And2022();
    Mean1960();
    Mean2022();
  }

  lemma Mean1960()
    ensures AveragePoint([Some(21), Some(27), Some(24), Some(22), Some(28), Some(25)]) == Some("0.25")
  {
    FullYear(21, 27, 24, 22, 28, 25);
    PointText([Some(21), Some(27), Some(24), Some(22), Some(28), Some(25)], [21, 27, 24, 22, 28, 25], 147, 25, "0.25");
  }

  lemma Mean2022()
    ensures AveragePoint([Some(116), Some(118), Some(116), Some(114), Some(115), Some(114)]) == Some("1.16")
  {
    FullYear(116, 118, 116, 114, 115, 114);
    PointText([Some(116), Some(118), Some(116), Some(114), Some(115), Some(114)],
              [116, 118, 116, 114, 115, 114], 693, 116, "1.16");
  }

  lemma Column1960And2022()
    ensures Valid(Temperature) && Temperature.years[11] == 1960 && Temperature.years[24] == 2022
    ensures Column(Temperature, 11) == [Some(21), Some(27), Some(24), Some(22), Some(28), Some(25)]
    ensures Column(Temperature, 24) == [Some(116), Some(118), Some(116), Some(114), Some(115), Some(114)]
  {
    BundledDataConsistent();
  }

  /** A year where all six sources report: every reading counts. */
  lemma FullYear(a: int, b: int, c: int, d: int, e: int, f: int)
    ensures Present([Some(a), Some(b), Some(c), Some(d), Some(e), Some(f)]) == [a, b, c, d, e, f]
    ensures Sum([a, b, c, d, e, f]) == a + b + c + d + e + f
  {
    var vs := [Some(a), Some(b), Some(c), Some(d), Some(e), Some(f)];
    PresentOfSix(vs);
    var ds := [a, b, c, d, e, f];
    assert ds == [a] + ds[1..] && ds[1..] == [b] + ds[2..] && ds[2..] == [c] + ds[3..];
    assert ds[3..] == [d] + ds[4..] && ds[4..] == [e] + ds[5..] && ds[5..] == [f] + [];
    SumCons(a, ds[1..]); SumCons(b, ds[2..]); SumCons(c, ds[3..]);
    SumCons(d, ds[4..]); SumCons(e, ds[5..]); SumCons(f, []);
  }

  /** The reduction with a start value is that value plus the reduction from 0. */
  lemma {:induction false} FoldShift(acc: int, xs: seq<int>)
    ensures Fold(acc, xs) == acc + Sum(xs)
    decreases xs
  {
    if xs != [] {
      FoldShift(acc + xs[0], xs[1..]);
      FoldShift(xs[0], xs[1..]);
    }
  }

  /** Summing peels off the first element. */
  lemma SumCons(x: int, xs: seq<int>)
    ensures Sum([x] + xs) == x + Sum(xs)
  {
    assert ([x] + xs)[1..] == xs;
    FoldShift(x, xs);
  }

  /**
   * A year in which only the first and third of the six sources report 1.00 and
   * 2.00 averages to "1.50"; one in which only the third reports 4.00 gives "4.00".
   */
  lemma TwoSourceScenario()
    ensures AveragePoint([Some(100), None, Some(200), None, None, None]) == Some("1.50")
    ensures AveragePoint([None, None, Some(400), None, None, None]) == Some("4.00")
  {
    var first: seq<Reading> := [Some(100), None, Some(200), None, None, None];
    var second: seq<Reading> := [None, None, Some(400), None, None, None];
    OnlyFirstAndThird(first, 100, 200);
    OnlyThird(second, 400);
    SumCons(100, [200]); SumCons(200, []); SumCons(400, []);
    PointText(first, [100, 200], 300, 150, "1.50");
    PointText(second, [400], 400, 400, "4.00");
  }

  lemma OnlyFirstAndThird(vs: seq<Reading>, a: int, c: int)
    requires vs == [Some(a), None, Some(c), None, None, None]
    ensures Present(vs) == [a, c]
  {
    PresentOfSix(vs);
  }

  lemma OnlyThird(vs: seq<Reading>, c: int)
    requires vs == [None, None, Some(c), None, None, None]
    ensures Present(vs) == [c]
  {
    PresentOfSix(vs);
  }

  /** A year in which none of the six sources reports has a `null` point. */
  lemma NoSourceScenario()
    ensures AveragePoint([None, None, None, None, None, None]) == None
  {
    PresentOfSix([None, None, None, None, None, None]);
  }
}
