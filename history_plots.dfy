/**
 * `GenerateHistoryPlots` of the 2020 Reference Model poster: for every topic and every
 * year it builds a bar table of (year, category) -> count in which the years after the
 * selected one read 0, computes the height of the y axis with the "infinite" sentinel
 * counted as 0, titles the plot with that year's innovation, stores it in the shared
 * `MergedPlotDict` under the year, and saves the dictionary once per topic.
 */
module ReferenceModelHistory {
  import opened PyStrings

  /** `Inf`: the value that stands for an unbounded count. */
  const Inf: int := 10000

  /** The key of the column that lists the years. */
  const YearKey: string := "Year"

  /** `Data`: one column of counts per category, and the years under `YearKey`. */
  type Data = map<string, seq<int>>

  /** A topic: its title, whether its bars stack, and the categories it shows. */
  datatype Topic = Topic(title: string, isStackable: bool, dimensions: seq<string>)

  /** What one plot of the HoloMap shows (its styling left aside). */
  datatype BarPlot = BarPlot(bars: map<(int, string), int>, maxY: int, stacked: bool, title: string)

  /** One `SaveFile` call: the file name and the HoloMap of the year-keyed plots. */
  datatype SavedFile = SavedFile(name: string, plots: map<int, BarPlot>)

  // ---------------------------------------------------------------- requirements

  /** Every category of the topic is a column, and when the topic stacks no column is empty. */
  predicate TopicReadable(data: Data, topic: Topic)
  {
    && (forall d :: 0 <= d < |topic.dimensions| ==> topic.dimensions[d] in data)
    && (topic.isStackable ==> forall d :: 0 <= d < |topic.dimensions| ==> data[topic.dimensions[d]] != [])
  }

  /** What `GenerateHistoryPlots` reads without raising: the year column, every topic's columns, a title per year. */
  predicate HistoryReadable(data: Data, topics: seq<Topic>, innovations: map<int, string>)
  {
    && YearKey in data
    && (forall k :: 0 <= k < |topics| ==> TopicReadable(data, topics[k]))
    && (forall year :: year in data[YearKey] ==> year in innovations)
  }

  predicate Distinct<T(==)>(xs: seq<T>)
  {
    forall i, j :: 0 <= i < j < |xs| ==> xs[i] != xs[j]
  }

  lemma MulSucc(a: nat, b: nat)
    ensures a * (b + 1) == a * b + a
  {
  }

  // ---------------------------------------------------------------- the y axis

  /** `VerticalDimensionForMaxY`: the column with every sentinel replaced by 0. */
  function Zeroed(column: seq<int>): (zs: seq<int>)
    ensures |zs| == |column|
  {
    seq(|column|, i requires 0 <= i < |column| => column[i] * (if column[i] != Inf then 1 else 0))
  }

  /** Python's `max` of a non-empty list. */
  function MaxOf(xs: seq<int>): (m: int)
    requires xs != []
    ensures m in xs
    ensures forall i :: 0 <= i < |xs| ==> xs[i] <= m
  {
    if |xs| == 1 then xs[0]
    else
      var m := MaxOf(xs[..|xs| - 1]);
      assert m in xs[..|xs| - 1];
      if xs[|xs| - 1] > m then xs[|xs| - 1] else m
  }

  /** `MaxY` after the categories `dims`: summed column maxima when stacking, else the overall maximum, from 0. */
  function AxisMax(data: Data, isStackable: bool, dims: seq<string>): int
    requires forall d :: 0 <= d < |dims| ==> dims[d] in data
    requires isStackable ==> forall d :: 0 <= d < |dims| ==> data[dims[d]] != []
  {
    if dims == [] then 0
    else
      var m := AxisMax(data, isStackable, dims[..|dims| - 1]);
      var zs := Zeroed(data[dims[|dims| - 1]]);
      if isStackable then m + MaxOf(zs) else MaxOf([m] + zs)
  }

  // ---------------------------------------------------------------- the bar table

  /** The first n pairs of `dict(BaseList)` for one category: years after `year` read 0. */
  function DimBarsUpTo(years: seq<int>, column: seq<int>, dim: string, year: int, n: nat): map<(int, string), int>
    requires n <= |years| && n <= |column|
  {
    if n == 0 then map[]
    else DimBarsUpTo(years, column, dim, year, n - 1)[(years[n - 1], dim) := if years[n - 1] <= year then column[n - 1] else 0]
  }

  /** `DimDict`: `zip` stops at the shorter of the year list and the column. */
  function DimBars(years: seq<int>, column: seq<int>, dim: string, year: int): map<(int, string), int>
  {
    DimBarsUpTo(years, column, dim, year, if |years| <= |column| then |years| else |column|)
  }

  /** `BarsDict` after the categories `dims`, each `update` overriding earlier keys. */
  function BarsOf(years: seq<int>, data: Data, dims: seq<string>, year: int): map<(int, string), int>
    requires forall d :: 0 <= d < |dims| ==> dims[d] in data
  {
    if dims == [] then map[]
    else BarsOf(years, data, dims[..|dims| - 1], year) + DimBars(years, data[dims[|dims| - 1]], dims[|dims| - 1], year)
  }

  // ---------------------------------------------------------------- titles

  /** `template.format(arg)` for templates whose only replacement field is `{0}`. */
  function Format(template: string, arg: string): string
    decreases |template|
  {
    if |template| < 3 then template
    else if template[..3] == "{0}" then arg + Format(template[3..], arg)
    else [template[0]] + Format(template[1..], arg)
  }

  /** A text without braces, as every innovation text is before its trailing `{0}`. */
  predicate NoBraces(text: string)
  {
    forall i :: 0 <= i < |text| ==> text[i] != '{'
  }

  // ---------------------------------------------------------------- plots and the merged dictionary

  /** The plot of one topic for one year. */
  function PlotForYear(data: Data, topic: Topic, innovations: map<int, string>, year: int): BarPlot
    requires YearKey in data && TopicReadable(data, topic) && year in innovations
  {
    BarPlot(BarsOf(data[YearKey], data, topic.dimensions, year),
            AxisMax(data, topic.isStackable, topic.dimensions),
            topic.isStackable,
            Format(innovations[year], IntToString(year)))
  }

  /** The plots of one topic for the first n years, keyed by year. */
  function TopicPlotsUpTo(data: Data, topic: Topic, innovations: map<int, string>, n: nat): map<int, BarPlot>
    requires YearKey in data && TopicReadable(data, topic) && n <= |data[YearKey]|
    requires forall year :: year in data[YearKey] ==> year in innovations
  {
    if n == 0 then map[]
    else
      var year := data[YearKey][n - 1];
      TopicPlotsUpTo(data, topic, innovations, n - 1)[year := PlotForYear(data, topic, innovations, year)]
  }

  /** The plots one topic writes into `MergedPlotDict`, one per year. */
  function TopicPlots(data: Data, topic: Topic, innovations: map<int, string>): map<int, BarPlot>
    requires YearKey in data && TopicReadable(data, topic)
    requires forall year :: year in data[YearKey] ==> year in innovations
  {
    TopicPlotsUpTo(data, topic, innovations, |data[YearKey]|)
  }

  /** `MergedPlotDict` after the topics `topics`, starting from `start`. */
  function MergedAfter(start: map<int, BarPlot>, data: Data, topics: seq<Topic>, innovations: map<int, string>): map<int, BarPlot>
    requires HistoryReadable(data, topics, innovations)
  {
    if topics == [] then start
    else MergedAfter(start, data, topics[..|topics| - 1], innovations) + TopicPlots(data, topics[|topics| - 1], innovations)
  }

  /** The file name of a topic's HoloMap (the resource directory left aside). */
  function FileNameOf(topic: Topic): string
  {
    "TheReferenceModelHistory_" + topic.title
  }

  /** The `SaveFile` calls made for the topics `topics`, in order. */
  function SavesOf(start: map<int, BarPlot>, data: Data, topics: seq<Topic>, innovations: map<int, string>): (saves: seq<SavedFile>)
    requires HistoryReadable(data, topics, innovations)
    ensures |saves| == |topics|
  {
    if topics == [] then []
    else
      SavesOf(start, data, topics[..|topics| - 1], innovations)
        + [SavedFile(FileNameOf(topics[|topics| - 1]), MergedAfter(start, data, topics, innovations))]
  }

  /** One more year: its plot goes over the dictionary under the year. */
  lemma YearStep(before: map<int, BarPlot>, data: Data, topic: Topic, innovations: map<int, string>, n: nat)
    requires YearKey in data && TopicReadable(data, topic) && n < |data[YearKey]|
    requires forall year :: year in data[YearKey] ==> year in innovations
    ensures var year := data[YearKey][n];
      (before + TopicPlotsUpTo(data, topic, innovations, n))[year := PlotForYear(data, topic, innovations, year)]
        == before + TopicPlotsUpTo(data, topic, innovations, n + 1)
  {
  }

  /** The dictionary and the saved files once the first k topics are done. */
  ghost predicate Progress(merged: map<int, BarPlot>, saved: seq<SavedFile>, start: map<int, BarPlot>, saved0: seq<SavedFile>,
                           data: Data, topics: seq<Topic>, innovations: map<int, string>, k: nat)
    requires HistoryReadable(data, topics, innovations) && k <= |topics|
  {
    && merged == MergedAfter(start, data, topics[..k], innovations)
    && saved == saved0 + SavesOf(start, data, topics[..k], innovations)
  }

  /** One more topic: its plots go over the dictionary, then the dictionary is saved. */
  lemma TopicStep(merged: map<int, BarPlot>, saved: seq<SavedFile>, start: map<int, BarPlot>, saved0: seq<SavedFile>,
                  data: Data, topics: seq<Topic>, innovations: map<int, string>, k: nat)
    requires HistoryReadable(data, topics, innovations) && k < |topics|
    requires Progress(merged, saved, start, saved0, data, topics, innovations, k)
    ensures var merged' := merged + TopicPlots(data, topics[k], innovations);
      Progress(merged', saved + [SavedFile(FileNameOf(topics[k]), merged')], start, saved0, data, topics, innovations, k + 1)
  {
    assert topics[..k + 1][..k] == topics[..k];
    var merged' := merged + TopicPlots(data, topics[k], innovations);
    var saves := SavesOf(start, data, topics[..k], innovations);
    AppendAssoc(saved0, saves, [SavedFile(FileNameOf(topics[k]), merged')]);
  }

  /** After the last topic the progress is the whole run. */
  lemma TopicsDone(merged: map<int, BarPlot>, saved: seq<SavedFile>, start: map<int, BarPlot>, saved0: seq<SavedFile>,
                   data: Data, topics: seq<Topic>, innovations: map<int, string>)
    requires HistoryReadable(data, topics, innovations)
    requires Progress(merged, saved, start, saved0, data, topics, innovations, |topics|)
    ensures merged == MergedAfter(start, data, topics, innovations)
    ensures saved == saved0 + SavesOf(start, data, topics, innovations)
  {
    assert topics[..|topics|] == topics;
  }

  /** The module-level `MergedPlotDict` and the files written so far. */
  class HistoryPlots {
    var mergedPlotDict: map<int, BarPlot>
    var saved: seq<SavedFile>

    constructor()
      ensures mergedPlotDict == map[] && saved == []
    {
      mergedPlotDict := map[];
      saved := [];
    }

    /**
     * `GenerateHistoryPlots`: per topic and year, the bar table and the axis height
     * (recomputed for every year), the titled plot stored under the year, then one save
     * per topic. Width, height and hover styling are left aside.
     */
    method GenerateHistoryPlots(data: Data, topics: seq<Topic>, innovations: map<int, string>)
      requires HistoryReadable(data, topics, innovations)
      modifies this
      ensures mergedPlotDict == MergedAfter(old(mergedPlotDict), data, topics, innovations)
      ensures saved == old(saved) + SavesOf(old(mergedPlotDict), data, topics, innovations)
    {
      ghost var start, saved0 := mergedPlotDict, saved;
      for topicEnum := 0 to |topics|
        invariant Progress(mergedPlotDict, saved, start, saved0, data, topics, innovations, topicEnum)
      {
        TopicStep(mergedPlotDict, saved, start, saved0, data, topics, innovations, topicEnum);
        PlotTopic(data, topics[topicEnum], innovations);
      }
      TopicsDone(mergedPlotDict, saved, start, saved0, data, topics, innovations);
    }

    /** One topic: each year's plot is stored under that year, then the whole dictionary is saved once. */
    method PlotTopic(data: Data, topic: Topic, innovations: map<int, string>)
      requires YearKey in data && TopicReadable(data, topic)
      requires forall year :: year in data[YearKey] ==> year in innovations
      modifies this
      ensures mergedPlotDict == old(mergedPlotDict) + TopicPlots(data, topic, innovations)
      ensures saved == old(saved) + [SavedFile(FileNameOf(topic), mergedPlotDict)]
    {
      var years := data[YearKey];
      for yearIndex := 0 to |years|
        invariant mergedPlotDict == old(mergedPlotDict) + TopicPlotsUpTo(data, topic, innovations, yearIndex)
        invariant saved == old(saved)
      {
        YearStep(old(mergedPlotDict), data, topic, innovations, yearIndex);
        StoreYear(data, topic, innovations, years[yearIndex]);
      }
      saved := saved + [SavedFile(FileNameOf(topic), mergedPlotDict)];
    }

    /** One year of a topic: the axis height, the bar table and the title, stored under the year. */
    method StoreYear(data: Data, topic: Topic, innovations: map<int, string>, year: int)
      requires YearKey in data && TopicReadable(data, topic) && year in innovations
      modifies this
      ensures mergedPlotDict == old(mergedPlotDict)[year := PlotForYear(data, topic, innovations, year)]
      ensures saved == old(saved)
    {
      var maxY, barsDict := YearBars(data, topic, year);
      var title := Format(innovations[year], IntToString(year));
      mergedPlotDict := mergedPlotDict[year := BarPlot(barsDict, maxY, topic.isStackable, title)];
    }
  }

  /** The loop over a topic's categories for one year: `MaxY` and `BarsDict`. */
  method YearBars(data: Data, topic: Topic, year: int) returns (maxY: int, barsDict: map<(int, string), int>)
    requires YearKey in data && TopicReadable(data, topic)
    ensures maxY == AxisMax(data, topic.isStackable, topic.dimensions)
    ensures barsDict == BarsOf(data[YearKey], data, topic.dimensions, year)
  {
    var years := data[YearKey];
    var dims := topic.dimensions;
    maxY := 0;
    barsDict := map[];
    for d := 0 to |dims|
      invariant maxY == AxisMax(data, topic.isStackable, dims[..d])
      invariant barsDict == BarsOf(years, data, dims[..d], year)
    {
      var dim := dims[d];
      YearBarsStep(data, topic, years, year, d);
      var forMaxY := Zeroed(data[dim]);
      if topic.isStackable {
        maxY := maxY + MaxOf(forMaxY);
      } else {
        maxY := MaxOf([maxY] + forMaxY);
      }
      var dimDict := DimBars(years, data[dim], dim, year);
      barsDict := barsDict + dimDict;
    }
    assert dims[..|dims|] == dims;
  }

  /** One more category: the axis maximum and the bar table grow by that category's column. */
  lemma YearBarsStep(data: Data, topic: Topic, years: seq<int>, year: int, d: nat)
    requires YearKey in data && TopicReadable(data, topic) && d < |topic.dimensions|
    ensures var dims := topic.dimensions; var m := AxisMax(data, topic.isStackable, dims[..d]);
      var zs := Zeroed(data[dims[d]]);
      && AxisMax(data, topic.isStackable, dims[..d + 1]) == (if topic.isStackable then m + MaxOf(zs) else MaxOf([m] + zs))
      && BarsOf(years, data, dims[..d + 1], year) == BarsOf(years, data, dims[..d], year) + DimBars(years, data[dims[d]], dims[d], year)
  {
    var dims := topic.dimensions;
    var ds := dims[..d + 1];
    assert ds[..d] == dims[..d];
    assert ds[d] == dims[d];
    AxisMaxSnoc(data, topic.isStackable, ds);
    BarsOfSnoc(years, data, ds, year);
  }

  lemma AxisMaxSnoc(data: Data, isStackable: bool, ds: seq<string>)
    requires ds != [] && forall d :: 0 <= d < |ds| ==> ds[d] in data
    requires isStackable ==> forall d :: 0 <= d < |ds| ==> data[ds[d]] != []
    ensures var m := AxisMax(data, isStackable, ds[..|ds| - 1]); var zs := Zeroed(data[ds[|ds| - 1]]);
      AxisMax(data, isStackable, ds) == if isStackable then m + MaxOf(zs) else MaxOf([m] + zs)
  {
  }

  lemma BarsOfSnoc(years: seq<int>, data: Data, ds: seq<string>, year: int)
    requires ds != [] && forall d :: 0 <= d < |ds| ==> ds[d] in data
    ensures BarsOf(years, data, ds, year)
      == BarsOf(years, data, ds[..|ds| - 1], year) + DimBars(years, data[ds[|ds| - 1]], ds[|ds| - 1], year)
  {
  }

  // ---------------------------------------------------------------- the bar table

  /** With distinct years, the first n years' bars of a category are masked after `year` and raw up to it. */
  lemma {:induction false} DimBarsAt(years: seq<int>, column: seq<int>, dim: string, year: int, n: nat, i: nat)
    requires n <= |years| && n <= |column| && i < n && Distinct(years)
    ensures (years[i], dim) in DimBarsUpTo(years, column, dim, year, n)
    ensures DimBarsUpTo(years, column, dim, year, n)[(years[i], dim)] == if years[i] <= year then column[i] else 0
    decreases n
  {
    if i < n - 1 {
      DimBarsAt(years, column, dim, year, n - 1, i);
    }
  }

  /** The keys of a category's bars: that category with each of the first n years. */
  lemma {:induction false} DimBarsKeys(years: seq<int>, column: seq<int>, dim: string, year: int, n: nat)
    requires n <= |years| && n <= |column|
    ensures forall key :: key in DimBarsUpTo(years, column, dim, year, n) <==> key.1 == dim && key.0 in years[..n]
    ensures Distinct(years) ==> |DimBarsUpTo(years, column, dim, year, n)| == n
    decreases n
  {
    if n > 0 {
      DimBarsKeys(years, column, dim, year, n - 1);
      assert years[..n] == years[..n - 1] + [years[n - 1]];
      if Distinct(years) {
        assert years[n - 1] !in years[..n - 1];
      }
    }
  }

  /** Every key of the bar table names one of the topic's categories. */
  lemma {:induction false} BarsCategories(years: seq<int>, data: Data, dims: seq<string>, year: int, key: (int, string))
    requires forall d :: 0 <= d < |dims| ==> dims[d] in data
    requires key in BarsOf(years, data, dims, year)
    ensures key.1 in dims
    decreases |dims|
  {
    var last := dims[|dims| - 1];
    var n := if |years| <= |data[last]| then |years| else |data[last]|;
    DimBarsKeys(years, data[last], last, year, n);
    if key !in DimBars(years, data[last], last, year) {
      BarsCategories(years, data, dims[..|dims| - 1], year, key);
    }
  }

  /**
   * For the year Y being shown, bar (y, category) holds the raw count when y <= Y and 0
   * when y > Y; a sentinel count is kept as it is.
   */
  lemma {:induction false} BarsMasked(years: seq<int>, data: Data, dims: seq<string>, year: int, d: nat, i: nat)
    requires forall d :: 0 <= d < |dims| ==> dims[d] in data
    requires Distinct(years) && Distinct(dims)
    requires d < |dims| && i < |years| && i < |data[dims[d]]|
    ensures (years[i], dims[d]) in BarsOf(years, data, dims, year)
    ensures BarsOf(years, data, dims, year)[(years[i], dims[d])] == if years[i] <= year then data[dims[d]][i] else 0
    decreases |dims|
  {
    var last := dims[|dims| - 1];
    var n := if |years| <= |data[last]| then |years| else |data[last]|;
    DimBarsKeys(years, data[last], last, year, n);
    if d == |dims| - 1 {
      DimBarsAt(years, data[last], last, year, n, i);
    } else {
      assert dims[..|dims| - 1][d] == dims[d];
      BarsMasked(years, data, dims[..|dims| - 1], year, d, i);
      assert dims[d] != last;
    }
  }

  /** The table of one (topic, year) has exactly |Years| * |TopicList| keys when every column covers every year. */
  lemma {:induction false} BarsSize(years: seq<int>, data: Data, dims: seq<string>, year: int)
    requires forall d :: 0 <= d < |dims| ==> dims[d] in data && |data[dims[d]]| >= |years|
    requires Distinct(years) && Distinct(dims)
    ensures |BarsOf(years, data, dims, year)| == |years| * |dims|
    decreases |dims|
  {
    if dims != [] {
      var front := dims[..|dims| - 1];
      var last := dims[|dims| - 1];
      var prev := BarsOf(years, data, front, year);
      var added := DimBars(years, data[last], last, year);
      BarsSize(years, data, front, year);
      DimBarsKeys(years, data[last], last, year, |years|);
      assert last !in front;
      forall key | key in prev.Keys
        ensures key !in added.Keys
      {
        BarsCategories(years, data, front, year, key);
      }
      DisjointUnionSize(prev, added);
      MulSucc(|years|, |front|);
    }
  }

  lemma DisjointUnionSize<K, V>(a: map<K, V>, b: map<K, V>)
    requires forall key :: key in a ==> key !in b
    ensures |a + b| == |a| + |b|
  {
    assert (a + b).Keys == a.Keys + b.Keys;
    assert a.Keys !! b.Keys;
  }

  // ---------------------------------------------------------------- the y axis

  /** Without stacking the axis height is never below 0 and at least every count that is not the sentinel. */
  lemma {:induction false} AxisMaxBounds(data: Data, dims: seq<string>)
    requires forall d :: 0 <= d < |dims| ==> dims[d] in data
    ensures AxisMax(data, false, dims) >= 0
    ensures forall d, i :: 0 <= d < |dims| && 0 <= i < |data[dims[d]]| && data[dims[d]][i] != Inf ==>
      data[dims[d]][i] <= AxisMax(data, false, dims)
    decreases |dims|
  {
    if dims != [] {
      var front := dims[..|dims| - 1];
      var zs := Zeroed(data[dims[|dims| - 1]]);
      var m := AxisMax(data, false, front);
      AxisMaxBounds(data, front);
      MaxOfCons(m, zs);
      forall d, i | 0 <= d < |dims| && 0 <= i < |data[dims[d]]| && data[dims[d]][i] != Inf
        ensures data[dims[d]][i] <= AxisMax(data, false, dims)
      {
        if d == |dims| - 1 {
          assert zs[i] == data[dims[d]][i];
        } else {
          assert front[d] == dims[d];
        }
      }
    }
  }

  /** Without stacking a positive axis height is one of the counts, never the sentinel. */
  lemma {:induction false} AxisMaxAttained(data: Data, dims: seq<string>)
    requires forall d :: 0 <= d < |dims| ==> dims[d] in data
    ensures AxisMax(data, false, dims) == 0 ||
      exists d, i :: 0 <= d < |dims| && 0 <= i < |data[dims[d]]| && data[dims[d]][i] != Inf && data[dims[d]][i] == AxisMax(data, false, dims)
    decreases |dims|
  {
    if dims != [] {
      var front := dims[..|dims| - 1];
      var zs := Zeroed(data[dims[|dims| - 1]]);
      var m := AxisMax(data, false, front);
      var r := AxisMax(data, false, dims);
      AxisMaxAttained(data, front);
      MaxOfCons(m, zs);
      if r != 0 && r != m {
        var i :| 0 <= i < |zs| && zs[i] == r;
        assert data[dims[|dims| - 1]][i] == r;
      } else if r != 0 {
        var d, i :| 0 <= d < |front| && 0 <= i < |data[front[d]]| && data[front[d]][i] != Inf && data[front[d]][i] == m;
        assert dims[d] == front[d];
      }
    }
  }

  /** `max([m] + zs)` is m or one of zs, and at least each of them. */
  lemma MaxOfCons(m: int, zs: seq<int>)
    ensures MaxOf([m] + zs) >= m
    ensures forall i :: 0 <= i < |zs| ==> zs[i] <= MaxOf([m] + zs)
    ensures MaxOf([m] + zs) == m || exists i :: 0 <= i < |zs| && zs[i] == MaxOf([m] + zs)
  {
    var r := MaxOf([m] + zs);
    assert ([m] + zs)[0] == m;
    forall i | 0 <= i < |zs|
      ensures zs[i] <= r
    {
      assert ([m] + zs)[i + 1] == zs[i];
    }
    if r != m {
      var k :| 0 <= k < |[m] + zs| && ([m] + zs)[k] == r;
      assert zs[k - 1] == r;
    }
  }

  /** The height of the stack of bars at year index i: the sentinel-zeroed counts of all categories. */
  function StackHeight(data: Data, dims: seq<string>, i: nat): int
    requires forall d :: 0 <= d < |dims| ==> dims[d] in data && i < |data[dims[d]]|
  {
    if dims == [] then 0 else StackHeight(data, dims[..|dims| - 1], i) + Zeroed(data[dims[|dims| - 1]])[i]
  }

  /** With stacking the axis is tall enough for every year's stack of bars. */
  lemma {:induction false} StackedBarsFit(data: Data, dims: seq<string>, i: nat)
    requires forall d :: 0 <= d < |dims| ==> dims[d] in data && i < |data[dims[d]]|
    ensures StackHeight(data, dims, i) <= AxisMax(data, true, dims)
    decreases |dims|
  {
    if dims != [] {
      StackedBarsFit(data, dims[..|dims| - 1], i);
    }
  }

  // ---------------------------------------------------------------- titles

  /** A template without braces is copied as it is. */
  lemma {:induction false} FormatPlain(text: string, arg: string)
    requires NoBraces(text)
    ensures Format(text, arg) == text
    decreases |text|
  {
    if |text| >= 3 {
      assert text[..3][0] != '{';
      FormatPlain(text[1..], arg);
    }
  }

  /** A text followed by `{0}` formats to the text followed by the argument: "... in {0}" gives "... in 2012". */
  lemma {:induction false} FormatTrailingField(text: string, arg: string)
    requires NoBraces(text)
    ensures Format(text + "{0}", arg) == text + arg
    decreases |text|
  {
    var t := text + "{0}";
    if text == [] {
      assert t[..3] == "{0}" && t[3..] == [];
    } else {
      FormatPlainStep(t, arg);
      assert t[1..] == text[1..] + "{0}";
      FormatTrailingField(text[1..], arg);
    }
  }

  /** A template that does not start with `{` keeps its first character. */
  lemma FormatPlainStep(t: string, arg: string)
    requires |t| >= 3 && t[0] != '{'
    ensures Format(t, arg) == [t[0]] + Format(t[1..], arg)
  {
    assert t[..3][0] == t[0];
  }

  /**
   * The plot of year Y for a topic: bar (y, category) is the raw count when y <= Y and 0
   * otherwise, the axis height is the topic's, and an innovation text "... in {0}" gives
   * the title "... in Y".
   */
  lemma YearPlot(data: Data, topic: Topic, innovations: map<int, string>, year: int, text: string, d: nat, i: nat)
    requires YearKey in data && TopicReadable(data, topic) && year in innovations
    requires Distinct(data[YearKey]) && Distinct(topic.dimensions)
    requires d < |topic.dimensions| && i < |data[YearKey]| && i < |data[topic.dimensions[d]]|
    ensures var plot := PlotForYear(data, topic, innovations, year);
      var key := (data[YearKey][i], topic.dimensions[d]);
      && key in plot.bars
      && plot.bars[key] == (if data[YearKey][i] <= year then data[topic.dimensions[d]][i] else 0)
      && plot.maxY == AxisMax(data, topic.isStackable, topic.dimensions)
      && plot.stacked == topic.isStackable
      && (innovations[year] == text + "{0}" && NoBraces(text) ==> plot.title == text + IntToString(year))
  {
    BarsMasked(data[YearKey], data, topic.dimensions, year, d, i);
    if innovations[year] == text + "{0}" && NoBraces(text) {
      FormatTrailingField(text, IntToString(year));
    }
  }

  // ---------------------------------------------------------------- the merged dictionary

  /** A topic's plots for the first n years: one per year, the plot of that year. */
  lemma {:induction false} TopicPlotsUpToShape(data: Data, topic: Topic, innovations: map<int, string>, n: nat)
    requires YearKey in data && TopicReadable(data, topic) && n <= |data[YearKey]|
    requires forall year :: year in data[YearKey] ==> year in innovations
    ensures forall year :: year in TopicPlotsUpTo(data, topic, innovations, n) <==> year in data[YearKey][..n]
    ensures forall year :: year in TopicPlotsUpTo(data, topic, innovations, n) ==>
      TopicPlotsUpTo(data, topic, innovations, n)[year] == PlotForYear(data, topic, innovations, year)
    decreases n
  {
    if n > 0 {
      var years := data[YearKey];
      TopicPlotsUpToShape(data, topic, innovations, n - 1);
      assert years[..n] == years[..n - 1] + [years[n - 1]];
    }
  }

  /** `MergedPlotDict` gets exactly one entry per year from a topic, the plot of that year. */
  lemma TopicPlotsShape(data: Data, topic: Topic, innovations: map<int, string>)
    requires YearKey in data && TopicReadable(data, topic)
    requires forall year :: year in data[YearKey] ==> year in innovations
    ensures forall year :: year in TopicPlots(data, topic, innovations) <==> year in data[YearKey]
    ensures forall year :: year in TopicPlots(data, topic, innovations) ==>
      TopicPlots(data, topic, innovations)[year] == PlotForYear(data, topic, innovations, year)
  {
    var years := data[YearKey];
    TopicPlotsUpToShape(data, topic, innovations, |years|);
    assert years[..|years|] == years;
  }

  lemma UnionShadowed<K, V>(a: map<K, V>, b: map<K, V>)
    requires a.Keys <= b.Keys
    ensures a + b == b
  {
  }

  /** Starting from years only, `MergedPlotDict` only ever holds years. */
  lemma {:induction false} MergedYears(start: map<int, BarPlot>, data: Data, topics: seq<Topic>, innovations: map<int, string>)
    requires HistoryReadable(data, topics, innovations)
    requires forall year :: year in start ==> year in data[YearKey]
    ensures forall year :: year in MergedAfter(start, data, topics, innovations) ==> year in data[YearKey]
    decreases |topics|
  {
    if topics != [] {
      MergedYears(start, data, topics[..|topics| - 1], innovations);
      TopicPlotsShape(data, topics[|topics| - 1], innovations);
    }
  }

  /**
   * Once a topic has been drawn, `MergedPlotDict` holds exactly its plots, one per year:
   * the previous topic's entries are all overwritten (the dictionary starts with no other year).
   */
  lemma MergedAfterTopic(start: map<int, BarPlot>, data: Data, topics: seq<Topic>, innovations: map<int, string>)
    requires HistoryReadable(data, topics, innovations) && topics != []
    requires forall year :: year in start ==> year in data[YearKey]
    ensures MergedAfter(start, data, topics, innovations) == TopicPlots(data, topics[|topics| - 1], innovations)
  {
    var front := topics[..|topics| - 1];
    MergedYears(start, data, front, innovations);
    TopicPlotsShape(data, topics[|topics| - 1], innovations);
    var prev := MergedAfter(start, data, front, innovations);
    var tp := TopicPlots(data, topics[|topics| - 1], innovations);
    forall year | year in prev.Keys
      ensures year in tp.Keys
    {
      assert year in data[YearKey];
    }
    UnionShadowed(prev, tp);
  }

  /** Each saved HoloMap holds exactly the plots of its own topic, one per year. */
  lemma SavedPerTopic(start: map<int, BarPlot>, data: Data, topics: seq<Topic>, innovations: map<int, string>, t: nat)
    requires HistoryReadable(data, topics, innovations) && t < |topics|
    requires forall year :: year in start ==> year in data[YearKey]
    ensures SavesOf(start, data, topics, innovations)[t]
      == SavedFile(FileNameOf(topics[t]), TopicPlots(data, topics[t], innovations))
  {
    SavesPrefix(start, data, topics, innovations, t);
    MergedAfterTopic(start, data, topics[..t + 1], innovations);
  }

  lemma {:induction false} SavesPrefix(start: map<int, BarPlot>, data: Data, topics: seq<Topic>, innovations: map<int, string>, t: nat)
    requires HistoryReadable(data, topics, innovations) && t < |topics|
    ensures HistoryReadable(data, topics[..t + 1], innovations)
    ensures SavesOf(start, data, topics, innovations)[t]
      == SavedFile(FileNameOf(topics[t]), MergedAfter(start, data, topics[..t + 1], innovations))
    decreases |topics|
  {
    ReadablePrefix(data, topics, innovations, t + 1);
    if t < |topics| - 1 {
      var front := topics[..|topics| - 1];
      ReadablePrefix(data, topics, innovations, |topics| - 1);
      SavesPrefix(start, data, front, innovations, t);
      assert front[..t + 1] == topics[..t + 1];
    } else {
      assert topics[..t + 1] == topics;
    }
  }

  /** What a run can read, any first n of its topics can read too. */
  lemma ReadablePrefix(data: Data, topics: seq<Topic>, innovations: map<int, string>, n: nat)
    requires HistoryReadable(data, topics, innovations) && n <= |topics|
    ensures HistoryReadable(data, topics[..n], innovations)
  {
    assert forall k :: 0 <= k < n ==> topics[..n][k] == topics[k];
  }
}
