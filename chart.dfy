/**
 * The option object `initGlobalTemperatureChart` hands to the chart library: one
 * line series per key of `dataSourceNames`, the average series pushed after them,
 * a legend naming them in the same order, and the two axes.
 */
module Chart {
  import opened Wrappers
  import opened TemperatureData
  import opened Average

  /** One element of a series' `data` array: `null`, a number (in hundredths) or a string. */
  datatype Point = Null | Number(hundredths: int) | Text(text: string)

  /**
   * A line series, with the fields the source sets. `data` and `color` are `None`
   * where the lookup that fills them gives `undefined`; `z` is `None` where the
   * series leaves it to the library's default, and so is `connectNulls` when false.
   */
  datatype LineSeries = LineSeries(
    name: string,
    data: Option<seq<Point>>,
    color: Option<string>,
    symbol: string,
    symbolSize: nat,
    lineWidth: nat,
    emphasisWidth: nat,
    connectNulls: bool,
    z: Option<int>)

  /** The option object, without the purely decorative settings. */
  datatype ChartOption = ChartOption(
    xAxis: seq<int>,
    legend: seq<string>,
    series: seq<LineSeries>,
    yMin: int,
    yMax: int,
    yInterval: int,
    referenceLabel: string)

  /** Name and colour of the average series. */
  const AverageName: string := "多源平均"
  const AverageColor: string := "#2c3e50"

  /** The value axis, in hundredths: from -0.5 to 2.0 in steps of 0.5. */
  const YMin: int := -50
  const YMax: int := 200
  const YInterval: int := 50

  /** The text of the dashed reference line drawn over the plot. */
  const ParisLabel: string := "巴黎协定1.5°C目标线"

  /** A reading as a data point: `null` stays `null`, a number stays that number. */
  function SourcePoint(r: Reading): Point
  {
    if r.Some? then Number(r.value) else Null
  }

  /** An average point as a data point: `null`, or the two-decimal string. */
  function AveragePointOf(a: Option<string>): Point
  {
    if a.Some? then Text(a.value) else Null
  }

  /** `data` carries the array `col` element for element. */
  predicate Carries(data: seq<Point>, col: seq<Reading>)
  {
    |data| == |col| && forall j :: 0 <= j < |col| ==> data[j] == SourcePoint(col[j])
  }

  /** `temperatureData[key]` as a `data` array, `undefined` when there is no such array. */
  function SourceData(t: TemperatureTable, key: string): Option<seq<Point>>
  {
    match Lookup(t, key)
    case None => None
    case Some(col) => Some(seq(|col|, j requires 0 <= j < |col| => SourcePoint(col[j])))
  }

  /** The series the `map` callback builds for one key of `dataSourceNames`. */
  function SourceSeries(t: TemperatureTable, names: Record<string>, colors: Record<string>, key: string): LineSeries
    requires key in Keys(names)
  {
    LineSeries(
      name := Get(names, key).value,
      data := SourceData(t, key),
      color := Get(colors, key),
      symbol := "circle", symbolSize := 6, lineWidth := 2, emphasisWidth := 3,
      connectNulls := true, z := None)
  }

  /** The series pushed last, over the average points. */
  function AverageSeries(avg: seq<Option<string>>): LineSeries
  {
    LineSeries(
      name := AverageName,
      data := Some(seq(|avg|, j requires 0 <= j < |avg| => AveragePointOf(avg[j]))),
      color := Some(AverageColor),
      symbol := "diamond", symbolSize := 8, lineWidth := 4, emphasisWidth := 5,
      connectNulls := false, z := Some(10))
  }

  /** `[...Object.values(dataSourceNames), '多源平均']`. */
  function Legend(names: Record<string>): (legend: seq<string>)
    ensures |legend| == |names| + 1 && legend[|names|] == AverageName
    ensures forall i :: 0 <= i < |names| ==> legend[i] == names[i].1
  {
    Values(names) + [AverageName]
  }

  /**
   * The computation of `initGlobalTemperatureChart` once the container exists:
   * the source series in key order, the average pushed after them, the legend
   * and the axes. Each source series shows its source's array unchanged under its
   * display name and colour; the legend names every series, in series order.
   */
  method InitGlobalTemperatureChart(t: TemperatureTable, names: Record<string>, colors: Record<string>)
    returns (option: ChartOption)
    requires Valid(t) && UniqueKeys(names)
    ensures |option.series| == |names| + 1
    ensures forall i :: 0 <= i < |names| ==>
              && option.series[i].name == names[i].1
              && option.series[i].color == Get(colors, names[i].0)
              && option.series[i].connectNulls && option.series[i].z == None
              && option.series[i].symbol == "circle" && option.series[i].symbolSize == 6
              && option.series[i].lineWidth == 2 && option.series[i].emphasisWidth == 3
              && (option.series[i].data.Some? <==> names[i].0 in SourceFields || names[i].0 == "years")
    ensures forall i, c :: 0 <= i < |names| && 0 <= c < |SourceFields| && names[i].0 == SourceFields[c] ==>
              option.series[i].data.Some? && Carries(option.series[i].data.value, Columns(t)[c])
    ensures var avg := option.series[|names|];
            && avg.name == AverageName && avg.color == Some(AverageColor) && avg.z == Some(10)
            && avg.symbol == "diamond" && avg.symbolSize == 8 && avg.lineWidth == 4
            && avg.emphasisWidth == 5 && !avg.connectNulls
            && avg.data.Some? && |avg.data.value| == |t.years|
            && forall j :: 0 <= j < |t.years| ==>
                 (avg.data.value[j] == Null <==> AverageData(t)[j].None?)
                 && (AverageData(t)[j].Some? ==> avg.data.value[j] == Text(AverageData(t)[j].value))
    ensures |option.legend| == |option.series|
    ensures forall i :: 0 <= i < |option.series| ==> option.legend[i] == option.series[i].name
    ensures option.xAxis == t.years
    ensures option.yMin == YMin && option.yMax == YMax && option.yInterval == YInterval
    ensures option.referenceLabel == ParisLabel
  {
    var keys := Keys(names);
    var series := seq(|keys|, i requires 0 <= i < |keys| => SourceSeries(t, names, colors, keys[i]));
    var avgData := AverageData(t);
    series := series + [AverageSeries(avgData)];
    option := ChartOption(t.years, Legend(names), series, YMin, YMax, YInterval, ParisLabel);
    forall i | 0 <= i < |names| ensures option.series[i].name == names[i].1 {
      GetEntry(names, i);
    }
  }

  /**
   * For the bundled constants: six source series and the average, named in the
   * legend in declaration order.
   */
  lemma BundledLegend()
    ensures Legend(SourceNames)
            == ["Berkeley Earth", "ERA5", "GISTEMP", "HadCRUT5", "JRA-3Q", "NOAAGlobalTemp", "多源平均"]
    ensures |SourceNames| + 1 == 7
  {
  }

  /**
   * Every bundled source key finds its array and its colour, so none of the six
   * series shows `undefined` data or colour.
   */
  lemma BundledSeriesComplete(i: nat)
    requires i < |SourceNames|
    ensures SourceData(Temperature, SourceNames[i].0).Some?
    ensures Get(SourceColors, SourceNames[i].0) == Some(SourceColors[i].1)
  {
    BundledDataConsistent();
    assert SourceNames[i].0 == SourceFields[i] == SourceColors[i].0;
    GetEntry(SourceColors, i);
  }
}
