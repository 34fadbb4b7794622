/**
 * `GeneratePlot` of the 2019 machine-learning presentations (three copies that differ
 * only in styling): for every phase, pass type and quality metric it clamps the recorded
 * metric values into a top "N+" bucket, counts them in unit bins centred on the
 * integers, turns the counts into proportions (cumulative ones for distance metrics)
 * and keeps one histogram per (phase, pass type, metric); the page is the title, one
 * heading and one row of six histograms per (phase, pass type), then the footer.
 */
module PredictionQualityPlots {
  import opened Wrappers
  import opened PyStrings
  import opened NumpyHistogram

  // ---------------------------------------------------------------- constants and records

  /** How many distance values get their own bin; larger ones share the top bin "N+". */
  const FirstItemsShown: nat := 10

  const PhaseTexts: seq<string> := ["Training", "Validation"]

  const PassTypeTexts: seq<string> := ["Unit & Context", "Unit Only", "Context Only"]

  /** A quality metric: its name, and whether it is a pass/fail metric. */
  datatype PlotType = PlotType(name: string, isBoolean: bool)

  const PlotTypes: seq<PlotType> := [
    PlotType("Predict Exact", true),
    PlotType("Predict Close", true),
    PlotType("Distance First Metric", false),
    PlotType("Distance Second Metric", false),
    PlotType("Distance Best Metric", false),
    PlotType("Distance Combined Metric", false)
  ]

  /** One recorded prediction: the two pass/fail outcomes and the four distances. */
  datatype Quality = Quality(
    predictExact: bool, predictClose: bool,
    distanceFirst: int, distanceSecond: int, distanceBest: int, distanceCombined: int)

  /** `Entry[PlotTypeEnum] + 0`: the k-th component, a boolean read as 0 or 1. */
  function Metric(q: Quality, k: nat): int
    requires k < |PlotTypes|
  {
    match k
    case 0 => if q.predictExact then 1 else 0
    case 1 => if q.predictClose then 1 else 0
    case 2 => q.distanceFirst
    case 3 => q.distanceSecond
    case 4 => q.distanceBest
    case _ => q.distanceCombined
  }

  /**
   * The recorded qualities per (phase, pass type) index pair, as the unpickled object
   * holds them; it is taken to behave as the `defaultdict(list)` the script starts from.
   */
  type PredictionQualities = map<(nat, nat), seq<Option<Quality>>>

  /** `PredictionQualities[(phase, pass)]`: a missing key reads as the empty list. */
  function QualitiesOf(pq: PredictionQualities, phase: nat, pass: nat): seq<Option<Quality>>
  {
    if (phase, pass) in pq then pq[(phase, pass)] else []
  }

  /** A tick of the x axis: its position and its label. */
  datatype Tick = Tick(position: int, text: string)

  // ---------------------------------------------------------------- bins, ticks, values

  /** `NumberOfCategories` */
  function Categories(isBoolean: bool): nat
  {
    if isBoolean then 2 else FirstItemsShown
  }

  /** `Bins`: [-0.5, 0.5, 1.5] for pass/fail metrics, k - 0.5 for k = 0 .. N+1 otherwise. */
  function Bins(isBoolean: bool): seq<real>
  {
    if isBoolean then [-0.5, 0.5, 1.5]
    else seq(FirstItemsShown + 2, k => k as real - 0.5)
  }

  /** The number of bins each kind of metric gets. */
  function BinCountOf(isBoolean: bool): nat
  {
    if isBoolean then 2 else FirstItemsShown + 1
  }

  /**
   * `LabelsX`: "Miss"/"Hit" for pass/fail metrics; otherwise one tick per bin edge at
   * int(edge + 0.5), whose first entry is then overwritten by (0, "Exact") and whose last
   * by (N, "N+"), which moves that last tick from position N+1 to position N.
   */
  function Labels(isBoolean: bool): (ticks: seq<Tick>)
    ensures isBoolean ==> ticks == [Tick(0, "Miss"), Tick(1, "Hit")]
    ensures !isBoolean ==> |ticks| == FirstItemsShown + 2
    ensures !isBoolean ==> ticks[0] == Tick(0, "Exact")
    ensures !isBoolean ==> forall k :: 1 <= k <= FirstItemsShown ==> ticks[k] == Tick(k, IntToString(k))
    ensures !isBoolean ==> ticks[FirstItemsShown + 1] == Tick(FirstItemsShown, IntToString(FirstItemsShown) + "+")
  {
    if isBoolean then [Tick(0, "Miss"), Tick(1, "Hit")]
    else
      var n := FirstItemsShown;
      var ticks := seq(n + 2, k => Tick(k, IntToString(k)));
      ticks[0 := Tick(0, "Exact")][n + 1 := Tick(n, IntToString(n) + "+")]
  }

  /** The metric values of the recorded qualities, in order, skipping the missing ones. */
  function MetricValues(entries: seq<Option<Quality>>, k: nat): (vs: seq<int>)
    requires k < |PlotTypes|
    ensures |vs| <= |entries|
  {
    if entries == [] then []
    else
      var vs := MetricValues(entries[..|entries| - 1], k);
      match entries[|entries| - 1]
      case None => vs
      case Some(q) => vs + [Metric(q, k)]
  }

  /** `min(v, cap)` for every value. */
  function Clamp(vs: seq<int>, cap: int): (cs: seq<int>)
    ensures |cs| == |vs|
  {
    if vs == [] then [] else Clamp(vs[..|vs| - 1], cap) + [if vs[|vs| - 1] < cap then vs[|vs| - 1] else cap]
  }

  /** `Values`: the clamped metric values of one (phase, pass type, metric). */
  function ClampedValues(entries: seq<Option<Quality>>, k: nat): seq<int>
    requires k < |PlotTypes|
  {
    Clamp(MetricValues(entries, k), Categories(PlotTypes[k].isBoolean))
  }

  /** The number of values that are at least v. */
  function CountAtLeast(vs: seq<int>, v: int): nat
  {
    if vs == [] then 0 else CountAtLeast(vs[..|vs| - 1], v) + (if vs[|vs| - 1] >= v then 1 else 0)
  }

  // ---------------------------------------------------------------- proportions

  function RealSum(xs: seq<real>): real
  {
    if xs == [] then 0.0 else RealSum(xs[..|xs| - 1]) + xs[|xs| - 1]
  }

  /**
   * `numpy.histogram(..., density=True)` on unit-width bins: each count divided by the
   * total count in range; with nothing in range numpy divides by zero, which is `None` here.
   */
  function Proportions(counts: seq<int>): (ps: Option<seq<real>>)
    ensures ps.Some? <==> Sum(counts) != 0
    ensures ps.Some? ==> |ps.value| == |counts|
  {
    var total := Sum(counts);
    if total == 0 then None else Some(Scaled(counts, total as real))
  }

  /** Every count divided by t. */
  function Scaled(counts: seq<int>, t: real): (ps: seq<real>)
    requires t != 0.0
    ensures |ps| == |counts|
  {
    seq(|counts|, i requires 0 <= i < |counts| => counts[i] as real / t)
  }

  /** `[sum(xs[:i+1]) for i in range(len(xs))]` on proportions. */
  function RealPrefixSums(xs: seq<real>): (ps: seq<real>)
    ensures |ps| == |xs|
  {
    seq(|xs|, i requires 0 <= i < |xs| => RealSum(xs[..i + 1]))
  }

  /** `FrequencesToUse`: proportions as they are for pass/fail metrics, accumulated otherwise. */
  function SeriesOf(isBoolean: bool, proportions: Option<seq<real>>): Option<seq<real>>
  {
    match proportions
    case None => None
    case Some(ps) => if isBoolean then Some(ps) else Some(RealPrefixSums(ps))
  }

  // ---------------------------------------------------------------- one histogram

  /** What one histogram of the page shows (its styling left aside). */
  datatype HistogramPlot = HistogramPlot(
    title: string, edges: seq<real>, series: Option<seq<real>>, cumulative: bool, ticks: seq<Tick>)

  /** The histogram of metric k for one (phase, pass type). */
  function PlotFor(pq: PredictionQualities, phase: nat, pass: nat, k: nat): HistogramPlot
    requires k < |PlotTypes|
  {
    var plotType := PlotTypes[k];
    var bins := Bins(plotType.isBoolean);
    var counts := Histogram(ClampedValues(QualitiesOf(pq, phase, pass), k), bins);
    HistogramPlot(plotType.name, bins, SeriesOf(plotType.isBoolean, Proportions(counts)),
                  !plotType.isBoolean, Labels(plotType.isBoolean))
  }

  /** The body of the innermost loop: bins, labels, values, histogram and series of one metric. */
  method BuildHistogram(pq: PredictionQualities, phase: nat, pass: nat, k: nat) returns (plot: HistogramPlot)
    requires k < |PlotTypes|
    ensures plot == PlotFor(pq, phase, pass, k)
  {
    var plotType := PlotTypes[k];
    var isBoolean := plotType.isBoolean;
    var bins := Bins(isBoolean);
    var labels := [Tick(0, "Miss"), Tick(1, "Hit")];
    if !isBoolean {
      var n := Categories(isBoolean);
      labels := seq(|bins|, k requires 0 <= k < |bins| => var v := (bins[k] + 0.5).Floor; Tick(v, IntToString(v)));
      labels := labels[0 := Tick(0, "Exact")];
      labels := labels[|labels| - 1 := Tick(n, IntToString(n) + "+")];
    }
    var values := Clamp(MetricValues(QualitiesOf(pq, phase, pass), k), Categories(isBoolean));
    var frequences := Proportions(Histogram(values, bins));
    var frequencesToUse := frequences;
    if !isBoolean && frequences.Some? {
      frequencesToUse := Some(RealPrefixSums(frequences.value));
    }
    plot := HistogramPlot(plotType.name, bins, frequencesToUse, !isBoolean, labels);
  }

  // ---------------------------------------------------------------- the dictionary and the page

  /** The dictionary key of one (phase, pass type, metric) index triple. */
  function KeyOf(i: nat, j: nat, k: nat): (string, string, string)
    requires i < |PhaseTexts| && j < |PassTypeTexts| && k < |PlotTypes|
  {
    (PhaseTexts[i], PassTypeTexts[j], PlotTypes[k].name)
  }

  /** The keys of the index triples the loops visit before step n, at step 18 i + 6 j + k. */
  function KeysBefore(n: nat): set<(string, string, string)>
  {
    set i: nat, j: nat, k: nat | i < |PhaseTexts| && j < |PassTypeTexts| && k < |PlotTypes| && 18 * i + 6 * j + k < n
      :: KeyOf(i, j, k)
  }

  /** A piece of the page: a markdown pane or a row of histograms. */
  datatype PageItem = Markdown(text: string) | PlotRow(plots: seq<HistogramPlot>)

  /**
   * `GeneratePlot`: fills the dictionary of histograms in three nested loops, then lays
   * out the page (`GeneratePage`). The unpickled data is the parameter `pq`.
   */
  method GeneratePlot(pq: PredictionQualities, title: string, footer: string)
    returns (plotsDict: map<(string, string, string), HistogramPlot>, page: seq<PageItem>)
    ensures forall i, j, k :: 0 <= i < |PhaseTexts| && 0 <= j < |PassTypeTexts| && 0 <= k < |PlotTypes| ==>
      KeyOf(i, j, k) in plotsDict && plotsDict[KeyOf(i, j, k)] == PlotFor(pq, i, j, k)
    ensures plotsDict.Keys == KeysBefore(36) && |plotsDict| == 36
    ensures page == Page(pq, title, footer)
  {
    plotsDict := map[];
    ghost var n := 0;
    for i := 0 to |PhaseTexts|
      invariant n == 18 * i && Written(plotsDict, pq, n)
    {
      for j := 0 to |PassTypeTexts|
        invariant n == 18 * i + 6 * j && Written(plotsDict, pq, n)
      {
        for k := 0 to |PlotTypes|
          invariant n == 18 * i + 6 * j + k && Written(plotsDict, pq, n)
        {
          var plot := BuildHistogram(pq, i, j, k);
          WriteStep(plotsDict, pq, i, j, k, plot);
          plotsDict := plotsDict[KeyOf(i, j, k) := plot];
          n := n + 1;
        }
      }
    }
    WrittenAll(plotsDict, pq);
    page := GeneratePage(pq, plotsDict, title, footer);
  }

  /** After n steps the dictionary holds exactly the first n keys, each with its histogram. */
  predicate Written(d: map<(string, string, string), HistogramPlot>, pq: PredictionQualities, n: nat)
  {
    KeysWritten(d, n) && PlotsWritten(d, pq, n)
  }

  /** After n steps the dictionary has n keys: those of the first n index triples. */
  predicate KeysWritten(d: map<(string, string, string), HistogramPlot>, n: nat)
  {
    d.Keys == KeysBefore(n) && |d| == n
  }

  /** After n steps each of the first n index triples' keys holds that triple's histogram. */
  predicate PlotsWritten(d: map<(string, string, string), HistogramPlot>, pq: PredictionQualities, n: nat)
  {
    forall i, j, k :: 0 <= i < |PhaseTexts| && 0 <= j < |PassTypeTexts| && 0 <= k < |PlotTypes| && 18 * i + 6 * j + k < n ==>
      KeyOf(i, j, k) in d && d[KeyOf(i, j, k)] == PlotFor(pq, i, j, k)
  }

  /** The body of the innermost loop keeps `Written`. */
  lemma WriteStep(d: map<(string, string, string), HistogramPlot>, pq: PredictionQualities,
                  i: nat, j: nat, k: nat, plot: HistogramPlot)
    requires i < |PhaseTexts| && j < |PassTypeTexts| && k < |PlotTypes|
    requires Written(d, pq, 18 * i + 6 * j + k) && plot == PlotFor(pq, i, j, k)
    ensures Written(d[KeyOf(i, j, k) := plot], pq, 18 * i + 6 * j + k + 1)
  {
    WriteStepKeys(d, i, j, k, plot);
    WriteStepPlots(d, pq, i, j, k, plot);
  }

  lemma WriteStepKeys(d: map<(string, string, string), HistogramPlot>, i: nat, j: nat, k: nat, plot: HistogramPlot)
    requires i < |PhaseTexts| && j < |PassTypeTexts| && k < |PlotTypes|
    requires KeysWritten(d, 18 * i + 6 * j + k)
    ensures KeysWritten(d[KeyOf(i, j, k) := plot], 18 * i + 6 * j + k + 1)
  {
    var d' := d[KeyOf(i, j, k) := plot];
    KeysBeforeStep(i, j, k);
    KeyOfDistinct(i, j, k);
    assert d'.Keys == d.Keys + {KeyOf(i, j, k)};
  }

  lemma WriteStepPlots(d: map<(string, string, string), HistogramPlot>, pq: PredictionQualities,
                       i: nat, j: nat, k: nat, plot: HistogramPlot)
    requires i < |PhaseTexts| && j < |PassTypeTexts| && k < |PlotTypes|
    requires PlotsWritten(d, pq, 18 * i + 6 * j + k) && plot == PlotFor(pq, i, j, k)
    ensures PlotsWritten(d[KeyOf(i, j, k) := plot], pq, 18 * i + 6 * j + k + 1)
  {
    var n := 18 * i + 6 * j + k;
    var d' := d[KeyOf(i, j, k) := plot];
    forall i': nat, j': nat, k': nat | i' < |PhaseTexts| && j' < |PassTypeTexts| && k' < |PlotTypes| && 18 * i' + 6 * j' + k' < n + 1
      ensures KeyOf(i', j', k') in d' && d'[KeyOf(i', j', k')] == PlotFor(pq, i', j', k')
    {
      if 18 * i' + 6 * j' + k' < n {
        KeyOfInjectiveContra(i', j', k', i, j, k);
      } else {
        assert i' == i && j' == j && k' == k;
      }
    }
  }

  /** Once the loops are done every index triple's key holds that triple's histogram. */
  lemma WrittenAll(d: map<(string, string, string), HistogramPlot>, pq: PredictionQualities)
    requires Written(d, pq, 36)
    ensures forall i, j, k :: 0 <= i < |PhaseTexts| && 0 <= j < |PassTypeTexts| && 0 <= k < |PlotTypes| ==>
      KeyOf(i, j, k) in d && d[KeyOf(i, j, k)] == PlotFor(pq, i, j, k)
  {
  }

  /** One more step of the loops writes the key of the index triple they are at. */
  lemma KeysBeforeStep(i: nat, j: nat, k: nat)
    requires i < |PhaseTexts| && j < |PassTypeTexts| && k < |PlotTypes|
    ensures KeysBefore(18 * i + 6 * j + k + 1) == KeysBefore(18 * i + 6 * j + k) + {KeyOf(i, j, k)}
  {
    var n := 18 * i + 6 * j + k;
    forall key | key in KeysBefore(n + 1)
      ensures key in KeysBefore(n) + {KeyOf(i, j, k)}
    {
      var i': nat, j': nat, k': nat :| i' < |PhaseTexts| && j' < |PassTypeTexts| && k' < |PlotTypes| && 18 * i' + 6 * j' + k' < n + 1
        && key == KeyOf(i', j', k');
      if 18 * i' + 6 * j' + k' == n {
        assert i' == i && j' == j && k' == k;
      }
    }
  }

  /** The key of the index triple the loops are at has not been written yet. */
  lemma KeyOfDistinct(i: nat, j: nat, k: nat)
    requires i < |PhaseTexts| && j < |PassTypeTexts| && k < |PlotTypes|
    ensures KeyOf(i, j, k) !in KeysBefore(18 * i + 6 * j + k)
  {
    forall i': nat, j': nat, k': nat | i' < |PhaseTexts| && j' < |PassTypeTexts| && k' < |PlotTypes| && 18 * i' + 6 * j' + k' < 18 * i + 6 * j + k
      ensures KeyOf(i', j', k') != KeyOf(i, j, k)
    {
      KeyOfInjectiveContra(i', j', k', i, j, k);
    }
  }

  /** Index triples at different steps have different keys. */
  lemma KeyOfInjectiveContra(i: nat, j: nat, k: nat, i': nat, j': nat, k': nat)
    requires i < |PhaseTexts| && j < |PassTypeTexts| && k < |PlotTypes|
    requires i' < |PhaseTexts| && j' < |PassTypeTexts| && k' < |PlotTypes|
    requires 18 * i + 6 * j + k != 18 * i' + 6 * j' + k'
    ensures KeyOf(i, j, k) != KeyOf(i', j', k')
  {
    if KeyOf(i, j, k) == KeyOf(i', j', k') {
      KeyOfInjective(i, j, k, i', j', k');
    }
  }

  /** Different index triples give different keys: the texts and metric names are pairwise distinct. */
  lemma KeyOfInjective(i: nat, j: nat, k: nat, i': nat, j': nat, k': nat)
    requires i < |PhaseTexts| && j < |PassTypeTexts| && k < |PlotTypes|
    requires i' < |PhaseTexts| && j' < |PassTypeTexts| && k' < |PlotTypes|
    requires KeyOf(i, j, k) == KeyOf(i', j', k')
    ensures i == i' && j == j' && k == k'
  {
    assert |PhaseTexts[i]| == |PhaseTexts[i']|;
    assert |PassTypeTexts[j]| == |PassTypeTexts[j']|;
    assert |PlotTypes[k].name| == |PlotTypes[k'].name|;
    assert PlotTypes[0].name[8] != PlotTypes[1].name[8];
  }

  /** `PlotList`: per (phase, pass type) in phase-major order, its heading text and its six histograms. */
  function PlotList(pq: PredictionQualities): (rows: seq<(string, seq<HistogramPlot>)>)
    ensures |rows| == |PhaseTexts| * |PassTypeTexts|
  {
    seq(6, n requires 0 <= n < 6 =>
      (PhaseTexts[n / 3] + " " + PassTypeTexts[n % 3], seq(6, k requires 0 <= k < 6 => PlotFor(pq, n / 3, n % 3, k))))
  }

  /** The heading and the row of each (phase, pass type), in order. */
  function Sections(rows: seq<(string, seq<HistogramPlot>)>): (items: seq<PageItem>)
    ensures |items| == 2 * |rows|
  {
    if rows == [] then []
    else Sections(rows[..|rows| - 1]) + [Markdown("#### " + rows[|rows| - 1].0), PlotRow(rows[|rows| - 1].1)]
  }

  /** `CombinedList`: the title, a heading and a row per (phase, pass type), the footer. */
  function Page(pq: PredictionQualities, title: string, footer: string): seq<PageItem>
  {
    [Markdown(title)] + Sections(PlotList(pq)) + [Markdown(footer)]
  }

  /** The layout loop of `GeneratePlot`, reading the histograms back from the dictionary. */
  method GeneratePage(pq: PredictionQualities, plotsDict: map<(string, string, string), HistogramPlot>,
                      title: string, footer: string) returns (page: seq<PageItem>)
    requires forall i, j, k :: 0 <= i < |PhaseTexts| && 0 <= j < |PassTypeTexts| && 0 <= k < |PlotTypes| ==>
      KeyOf(i, j, k) in plotsDict && plotsDict[KeyOf(i, j, k)] == PlotFor(pq, i, j, k)
    ensures page == Page(pq, title, footer)
  {
    var plotList := PlotListOf(plotsDict);
    PlotListFromDict(pq, plotsDict);
    page := [Markdown(title)];
    for n := 0 to |plotList|
      invariant page == [Markdown(title)] + Sections(plotList[..n])
    {
      assert plotList[..n + 1][..n] == plotList[..n];
      page := page + [Markdown("#### " + plotList[n].0), PlotRow(plotList[n].1)];
    }
    assert plotList[..|plotList|] == plotList;
    page := page + [Markdown(footer)];
  }

  /** `PlotList` as the code builds it, reading the histograms from the dictionary. */
  function PlotListOf(plotsDict: map<(string, string, string), HistogramPlot>): seq<(string, seq<HistogramPlot>)>
    requires forall i, j, k :: 0 <= i < |PhaseTexts| && 0 <= j < |PassTypeTexts| && 0 <= k < |PlotTypes| ==>
      KeyOf(i, j, k) in plotsDict
  {
    seq(6, n requires 0 <= n < 6 =>
      (PhaseTexts[n / 3] + " " + PassTypeTexts[n % 3],
       seq(6, k requires 0 <= k < 6 => plotsDict[KeyOf(n / 3, n % 3, k)])))
  }

  /** A dictionary filled by the loops gives back the rows of `PlotList`. */
  lemma PlotListFromDict(pq: PredictionQualities, plotsDict: map<(string, string, string), HistogramPlot>)
    requires forall i, j, k :: 0 <= i < |PhaseTexts| && 0 <= j < |PassTypeTexts| && 0 <= k < |PlotTypes| ==>
      KeyOf(i, j, k) in plotsDict && plotsDict[KeyOf(i, j, k)] == PlotFor(pq, i, j, k)
    ensures PlotListOf(plotsDict) == PlotList(pq)
  {
    forall n | 0 <= n < 6
      ensures PlotListOf(plotsDict)[n] == PlotList(pq)[n]
    {
      assert PlotListOf(plotsDict)[n].1 == PlotList(pq)[n].1;
    }
  }

  lemma {:induction false} SectionsAt(rows: seq<(string, seq<HistogramPlot>)>, n: nat)
    requires n < |rows|
    ensures Sections(rows)[2 * n] == Markdown("#### " + rows[n].0)
    ensures Sections(rows)[2 * n + 1] == PlotRow(rows[n].1)
    decreases |rows|
  {
    if n < |rows| - 1 {
      SectionsAt(rows[..|rows| - 1], n);
    }
  }

  /**
   * The page has 14 items: the title, then for each (phase, pass type) in phase-major
   * order its "#### phase pass" heading and the row of its six histograms in metric
   * order, then the footer.
   */
  lemma PageLayout(pq: PredictionQualities, title: string, footer: string, n: nat)
    requires n < |PhaseTexts| * |PassTypeTexts|
    ensures |Page(pq, title, footer)| == 14
    ensures Page(pq, title, footer)[0] == Markdown(title) && Page(pq, title, footer)[13] == Markdown(footer)
    ensures Page(pq, title, footer)[2 * n + 1] == Markdown("#### " + PhaseTexts[n / 3] + " " + PassTypeTexts[n % 3])
    ensures Page(pq, title, footer)[2 * n + 2] == PlotRow(seq(6, k requires 0 <= k < 6 => PlotFor(pq, n / 3, n % 3, k)))
  {
    var rows := PlotList(pq);
    var page := Page(pq, title, footer);
    SectionsAt(rows, n);
    assert page[2 * n + 1] == Sections(rows)[2 * n];
    assert page[2 * n + 2] == Sections(rows)[2 * n + 1];
  }

  // ---------------------------------------------------------------- properties of one histogram

  /** The positions of the recorded qualities whose metric k is v. */
  ghost function EntriesWith(entries: seq<Option<Quality>>, k: nat, v: int): set<nat>
    requires k < |PlotTypes|
  {
    set i: nat | i < |entries| && entries[i].Some? && Metric(entries[i].value, k) == v
  }

  /** The positions of the recorded qualities whose metric k is at least v. */
  ghost function EntriesAtLeast(entries: seq<Option<Quality>>, k: nat, v: int): set<nat>
    requires k < |PlotTypes|
  {
    set i: nat | i < |entries| && entries[i].Some? && Metric(entries[i].value, k) >= v
  }

  lemma EntriesSnoc(entries: seq<Option<Quality>>, k: nat, v: int)
    requires k < |PlotTypes| && entries != []
    ensures var n := |entries| - 1; var e := entries[n];
      EntriesWith(entries, k, v)
        == EntriesWith(entries[..n], k, v) + (if e.Some? && Metric(e.value, k) == v then {n} else {}) &&
      EntriesAtLeast(entries, k, v)
        == EntriesAtLeast(entries[..n], k, v) + (if e.Some? && Metric(e.value, k) >= v then {n} else {})
  {
    var n := |entries| - 1;
    forall i: nat | i < n
      ensures entries[i] == entries[..n][i]
    {
    }
  }

  /**
   * The metric values count the recorded qualities: v occurs as often as there are
   * entries whose metric k is v, and as many values reach v as there are such entries.
   */
  lemma {:induction false} MetricValuesCount(entries: seq<Option<Quality>>, k: nat, v: int)
    requires k < |PlotTypes|
    ensures CountOf(MetricValues(entries, k), v) == |EntriesWith(entries, k, v)|
    ensures CountAtLeast(MetricValues(entries, k), v) == |EntriesAtLeast(entries, k, v)|
    decreases |entries|
  {
    if entries == [] {
      assert EntriesWith(entries, k, v) == {};
      assert EntriesAtLeast(entries, k, v) == {};
    } else {
      var n := |entries| - 1;
      var front := entries[..n];
      MetricValuesCount(front, k, v);
      EntriesSnoc(entries, k, v);
      assert n !in EntriesWith(front, k, v) && n !in EntriesAtLeast(front, k, v);
      var vs := MetricValues(front, k);
      if entries[n].Some? {
        var x := Metric(entries[n].value, k);
        assert (vs + [x])[..|vs|] == vs;
      }
    }
  }

  /**
   * The histogram of metric k read from the recorded qualities: bin v below the top
   * counts the entries whose metric is v; for a distance metric the top bin N counts
   * the entries whose metric is N or more.
   */
  lemma HistogramOfEntries(entries: seq<Option<Quality>>, k: nat, v: nat)
    requires k < |PlotTypes| && v < BinCountOf(PlotTypes[k].isBoolean)
    ensures var isBoolean := PlotTypes[k].isBoolean;
      var counts := Histogram(ClampedValues(entries, k), Bins(isBoolean));
      (v < Categories(isBoolean) ==> counts[v] == |EntriesWith(entries, k, v)|) &&
      (v == Categories(isBoolean) ==> counts[v] == |EntriesAtLeast(entries, k, v)|)
  {
    MetricValuesCount(entries, k, v);
    if k < 2 {
      BooleanHistogram(entries, k, v);
    } else {
      DistanceHistogram(entries, k, v);
    }
  }

  /**
   * The series a histogram shows: none when no value falls in a bin; otherwise one share
   * per bin, the share of bin v for a pass/fail metric and that of bins 0 .. v for a
   * distance metric.
   */
  lemma PlotSeries(pq: PredictionQualities, phase: nat, pass: nat, k: nat)
    requires k < |PlotTypes|
    ensures var isBoolean := PlotTypes[k].isBoolean;
      var counts := Histogram(ClampedValues(QualitiesOf(pq, phase, pass), k), Bins(isBoolean));
      var series := PlotFor(pq, phase, pass, k).series;
      (series.Some? <==> Sum(counts) != 0) &&
      (series.Some? ==>
        |series.value| == BinCountOf(isBoolean) &&
        forall v :: 0 <= v < BinCountOf(isBoolean) ==>
          series.value[v] == (if isBoolean then counts[v] else Sum(counts[..v + 1])) as real / Sum(counts) as real)
  {
    var isBoolean := PlotTypes[k].isBoolean;
    var counts := Histogram(ClampedValues(QualitiesOf(pq, phase, pass), k), Bins(isBoolean));
    assert |counts| == BinCountOf(isBoolean);
    if Sum(counts) != 0 && !isBoolean {
      forall v | 0 <= v < BinCountOf(isBoolean)
        ensures RealPrefixSums(Proportions(counts).value)[v] == Sum(counts[..v + 1]) as real / Sum(counts) as real
      {
        CumulativeShare(counts, v);
      }
    }
  }

  /** The bins are the unit bins centred on 0 .. 1 (pass/fail) or on 0 .. N (distances). */
  lemma BinsAreUnitEdges(isBoolean: bool)
    ensures Bins(isBoolean) == UnitEdges(0, BinCountOf(isBoolean))
  {
  }

  /** Clamping keeps the values below the cap and gathers every value at or above it in the cap. */
  lemma {:induction false} ClampCounts(vs: seq<int>, cap: int, v: int)
    ensures v < cap ==> CountOf(Clamp(vs, cap), v) == CountOf(vs, v)
    ensures v == cap ==> CountOf(Clamp(vs, cap), v) == CountAtLeast(vs, cap)
    ensures v > cap ==> CountOf(Clamp(vs, cap), v) == 0
    decreases |vs|
  {
    if vs != [] {
      ClampCounts(vs[..|vs| - 1], cap, v);
      assert Clamp(vs, cap)[..|vs| - 1] == Clamp(vs[..|vs| - 1], cap);
    }
  }

  /**
   * A distance histogram: bin v < N counts the values equal to v, the top bin N counts
   * every value of N or more, and negative values are in no bin.
   */
  lemma DistanceHistogram(entries: seq<Option<Quality>>, k: nat, v: nat)
    requires 2 <= k < |PlotTypes| && v <= FirstItemsShown
    ensures var counts := Histogram(ClampedValues(entries, k), Bins(false));
      (v < FirstItemsShown ==> counts[v] == CountOf(MetricValues(entries, k), v)) &&
      (v == FirstItemsShown ==> counts[v] == CountAtLeast(MetricValues(entries, k), FirstItemsShown))
  {
    BinsAreUnitEdges(false);
    UnitHistogram(ClampedValues(entries, k), 0, FirstItemsShown + 1);
    ClampCounts(MetricValues(entries, k), FirstItemsShown, v);
  }

  /** A pass/fail metric only takes the values 0 and 1. */
  lemma {:induction false} BooleanMetricValues(entries: seq<Option<Quality>>, k: nat)
    requires k < 2
    ensures forall i :: 0 <= i < |MetricValues(entries, k)| ==> 0 <= MetricValues(entries, k)[i] <= 1
    decreases |entries|
  {
    if entries != [] {
      BooleanMetricValues(entries[..|entries| - 1], k);
    }
  }

  /** A pass/fail histogram: bin 0 counts the misses and bin 1 the hits. */
  lemma BooleanHistogram(entries: seq<Option<Quality>>, k: nat, v: nat)
    requires k < 2 && v < 2
    ensures Histogram(ClampedValues(entries, k), Bins(true))[v] == CountOf(MetricValues(entries, k), v)
  {
    BinsAreUnitEdges(true);
    UnitHistogram(ClampedValues(entries, k), 0, 2);
    ClampCounts(MetricValues(entries, k), 2, v);
  }

  /** A prefix of the scaled counts sums to the prefix sum of the counts, scaled. */
  lemma {:induction false} ScaledSum(counts: seq<int>, t: real, m: nat)
    requires t != 0.0 && m <= |counts|
    ensures RealSum(Scaled(counts, t)[..m]) == Sum(counts[..m]) as real / t
    decreases m
  {
    if m > 0 {
      var s := Scaled(counts, t);
      ScaledSum(counts, t, m - 1);
      assert s[..m][..m - 1] == s[..m - 1];
      assert counts[..m][..m - 1] == counts[..m - 1];
      assert RealSum(s[..m]) == RealSum(s[..m - 1]) + counts[m - 1] as real / t;
      assert Sum(counts[..m]) == Sum(counts[..m - 1]) + counts[m - 1];
    }
  }

  /** The proportions add up to 1. */
  lemma ProportionsSumToOne(counts: seq<int>)
    requires Sum(counts) != 0
    ensures RealSum(Proportions(counts).value) == 1.0
  {
    var t := Sum(counts) as real;
    ScaledSum(counts, t, |counts|);
    assert counts[..|counts|] == counts;
    assert Scaled(counts, t)[..|counts|] == Scaled(counts, t);
    DivideSelf(t);
  }

  /** Entry i of a cumulative series is the share of the counted values in bins 0 .. i. */
  lemma CumulativeShare(counts: seq<int>, i: nat)
    requires Sum(counts) != 0 && i < |counts|
    ensures RealPrefixSums(Proportions(counts).value)[i] == Sum(counts[..i + 1]) as real / Sum(counts) as real
  {
    ScaledSum(counts, Sum(counts) as real, i + 1);
  }

  /** A cumulative series of counts never decreases. */
  lemma CumulativeNonDecreasing(counts: seq<int>, i: nat, j: nat)
    requires NonNegative(counts) && Sum(counts) != 0
    requires i <= j < |counts|
    ensures RealPrefixSums(Proportions(counts).value)[i] <= RealPrefixSums(Proportions(counts).value)[j]
  {
    SumNonNegative(counts);
    PrefixSumGrows(counts, i, j);
    CumulativeShare(counts, i);
    CumulativeShare(counts, j);
    DivideMonotone(Sum(counts[..i + 1]) as real, Sum(counts[..j + 1]) as real, Sum(counts) as real);
  }

  /** A cumulative series of counts ends at 1. */
  lemma CumulativeEndsAtOne(counts: seq<int>)
    requires Sum(counts) != 0 && counts != []
    ensures RealPrefixSums(Proportions(counts).value)[|counts| - 1] == 1.0
  {
    CumulativeShare(counts, |counts| - 1);
    assert counts[..|counts|] == counts;
    DivideSelf(Sum(counts) as real);
  }

  lemma DivideSelf(t: real)
    requires t != 0.0
    ensures t / t == 1.0
  {
  }

  lemma DivideMonotone(a: real, b: real, t: real)
    requires a <= b && t > 0.0
    ensures a / t <= b / t
  {
  }
}
