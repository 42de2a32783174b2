/**
 * The bundled dataset of `temperature-chart.js`: global mean temperature
 * deviations (relative to the 1850-1900 baseline) from six sources, one slot per
 * year, and the two records that give each source key its display name and colour.
 */
module TemperatureData {
  import opened Wrappers

  /** A deviation in hundredths of a degree, or `null` where a source has no value. */
  type Reading = Option<int>

  /** The `temperatureData` object: the shared year axis and one array per source. */
  datatype TemperatureTable = TemperatureTable(
    years: seq<int>,
    berkeleyEarth: seq<Reading>,
    era5: seq<Reading>,
    gistemp: seq<Reading>,
    hadcrut5: seq<Reading>,
    jra3q: seq<Reading>,
    noaa: seq<Reading>)

  /** The six source arrays, in the order the average reads them. */
  function Columns(t: TemperatureTable): (cs: seq<seq<Reading>>)
    ensures |cs| == |SourceFields|
  {
    [t.berkeleyEarth, t.era5, t.gistemp, t.hadcrut5, t.jra3q, t.noaa]
  }

  /** The property names of the six source arrays. */
  const SourceFields: seq<string> := ["berkeleyEarth", "era5", "gistemp", "hadcrut5", "jra3q", "noaa"]

  /** Every source array has exactly one slot per year. */
  predicate Valid(t: TemperatureTable)
  {
    && |t.berkeleyEarth| == |t.years| && |t.era5| == |t.years| && |t.gistemp| == |t.years|
    && |t.hadcrut5| == |t.years| && |t.jra3q| == |t.years| && |t.noaa| == |t.years|
  }

  /**
   * `temperatureData[key]`: the array of that name (the year axis, in hundredths
   * like every other number here, for "years"), or `undefined` for any other key.
   */
  function Lookup(t: TemperatureTable, key: string): (r: Option<seq<Reading>>)
    ensures r.Some? <==> key in SourceFields || key == "years"
    ensures forall c :: 0 <= c < |SourceFields| && SourceFields[c] == key ==> r == Some(Columns(t)[c])
    ensures key == "years" ==>
              && r.Some? && |r.value| == |t.years|
              && forall i :: 0 <= i < |t.years| ==> r.value[i] == Some(100 * t.years[i])
  {
    if key == "berkeleyEarth" then Some(t.berkeleyEarth)
    else if key == "era5" then Some(t.era5)
    else if key == "gistemp" then Some(t.gistemp)
    else if key == "hadcrut5" then Some(t.hadcrut5)
    else if key == "jra3q" then Some(t.jra3q)
    else if key == "noaa" then Some(t.noaa)
    else if key == "years" then Some(seq(|t.years|, i requires 0 <= i < |t.years| => Some(100 * t.years[i])))
    else None
  }

  /** A plain object with string keys, entries in insertion order. */
  type Record<V> = seq<(string, V)>

  /** `Object.keys(r)`. */
  function Keys<V>(r: Record<V>): (ks: seq<string>)
    ensures |ks| == |r| && forall i :: 0 <= i < |r| ==> ks[i] == r[i].0
  {
    seq(|r|, i requires 0 <= i < |r| => r[i].0)
  }

  /** `Object.values(r)`. */
  function Values<V>(r: Record<V>): (vs: seq<V>)
    ensures |vs| == |r| && forall i :: 0 <= i < |r| ==> vs[i] == r[i].1
  {
    seq(|r|, i requires 0 <= i < |r| => r[i].1)
  }

  /** An object has each key once. */
  predicate UniqueKeys<V>(r: Record<V>)
  {
    forall i, j :: 0 <= i < j < |r| ==> r[i].0 != r[j].0
  }

  /** `r[key]`: the value stored under key, or `undefined`. */
  function Get<V>(r: Record<V>, key: string): (v: Option<V>)
    ensures v.None? <==> key !in Keys(r)
    ensures v.Some? ==> (key, v.value) in r
  {
    if r == [] then None
    else if r[0].0 == key then Some(r[0].1)
    else Get(r[1..], key)
  }

  /** In an object with unique keys, looking up the i-th key gives the i-th value. */
  lemma {:induction false} GetEntry<V>(r: Record<V>, i: nat)
    requires UniqueKeys(r) && i < |r|
    ensures Get(r, r[i].0) == Some(r[i].1)
  {
    if i > 0 {
      assert r[0].0 != r[i].0;
      assert r[1..][i - 1] == r[i];
      GetEntry(r[1..], i - 1);
    }
  }

  /** `temperatureData` as bundled, in hundredths of a degree. */
  const Temperature: TemperatureTable :=
    TemperatureTable(
      years := [
        1850, 1860, 1870, 1880, 1890, 1900, 1910, 1920, 1930,
        1940, 1950, 1960, 1970, 1980, 1990, 2000, 2010, 2015,
        2016, 2017, 2018, 2019, 2020, 2021, 2022, 2023, 2024],
      berkeleyEarth := [
        Some(-18), Some(-15), Some(-6), Some(-7), Some(-22), Some(12), Some(-23), Some(-1), Some(10),
        Some(31), Some(6), Some(21), Some(25), Some(54), Some(69), Some(68), Some(100), Some(115),
        Some(129), Some(119), Some(111), Some(125), Some(128), Some(112), Some(116), Some(145), Some(154)],
      era5 := [
        None, None, None, None, None, None, None, None, None,
        Some(20), Some(12), Some(27), Some(31), Some(59), Some(75), Some(63), Some(101), Some(114),
        Some(132), Some(123), Some(115), Some(128), Some(132), Some(116), Some(118), Some(148), Some(160)],
      gistemp := [
        None, None, None, Some(10), Some(-9), Some(18), Some(-17), Some(0), Some(12),
        Some(39), Some(10), Some(24), Some(29), Some(52), Some(72), Some(66), Some(99), Some(116),
        Some(128), Some(119), Some(112), Some(124), Some(127), Some(111), Some(116), Some(144), Some(155)],
      hadcrut5 := [
        Some(-8), Some(-5), Some(1), Some(2), Some(-17), Some(11), Some(-19), Some(4), Some(16),
        Some(42), Some(11), Some(22), Some(26), Some(54), Some(70), Some(67), Some(102), Some(117),
        Some(127), Some(119), Some(110), Some(123), Some(126), Some(110), Some(114), Some(144), Some(153)],
      jra3q := [
        None, None, None, None, None, None, None, None, None,
        None, Some(10), Some(28), Some(27), Some(53), Some(74), Some(68), Some(99), Some(115),
        Some(132), Some(120), Some(111), Some(125), Some(127), Some(108), Some(115), Some(147), Some(157)],
      noaa := [
        Some(5), Some(2), Some(7), Some(7), Some(-9), Some(19), Some(-13), Some(2), Some(13),
        Some(40), Some(12), Some(25), Some(30), Some(56), Some(70), Some(66), Some(98), Some(116),
        Some(128), Some(119), Some(112), Some(123), Some(126), Some(111), Some(114), Some(143), Some(153)])

  /** `dataSourceNames`: display name per source key, in declaration order. */
  const SourceNames: Record<string> := [
    ("berkeleyEarth", "Berkeley Earth"),
    ("era5", "ERA5"),
    ("gistemp", "GISTEMP"),
    ("hadcrut5", "HadCRUT5"),
    ("jra3q", "JRA-3Q"),
    ("noaa", "NOAAGlobalTemp")]

  /** `dataSourceColors`: line colour per source key, in declaration order. */
  const SourceColors: Record<string> := [
    ("berkeleyEarth", "#e74c3c"),
    ("era5", "#3498db"),
    ("gistemp", "#27ae60"),
    ("hadcrut5", "#9b59b6"),
    ("jra3q", "#f39c12"),
    ("noaa", "#1abc9c")]

  /**
   * The bundled constants fit together: 27 years, every source array as long as
   * the year axis, and the names and colours records keyed by exactly the six
   * source arrays, in the order the average reads them.
   */
  lemma BundledDataConsistent()
    ensures Valid(Temperature) && |Temperature.years| == 27
    ensures Keys(SourceNames) == SourceFields && Keys(SourceColors) == SourceFields
    ensures UniqueKeys(SourceNames) && UniqueKeys(SourceColors)
  {
  }

  /** The years are strictly increasing, so they can serve as the shared index. */
  lemma BundledYearsIncreasing()
    ensures forall i, j :: 0 <= i < j < |Temperature.years| ==> Temperature.years[i] < Temperature.years[j]
  {
  }
}
