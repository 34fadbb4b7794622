/**
 * The mortality bars of the 2019 sepsis-model presentation: the death days recorded in
 * one simulation's output are counted per day over days 1 .. 60, and shown both as
 * per-day bars and as bars of the deaths accumulated up to each day.
 */
module MortalityBars {
  import opened NumpyHistogram

  /** `TimeRangeSize`: the number of days shown. */
  const TimeRangeSize: nat := 60

  /** The two columns of a simulation output row that the bars read. */
  datatype Row = Row(time: int, deathEntered: int)

  /** `Data[Data.Death_Entered==1].Time`: the time of every row that records a death, in order. */
  function DeathDays(data: seq<Row>): (days: seq<int>)
    ensures |days| <= |data|
  {
    if data == [] then []
    else
      var days := DeathDays(data[..|data| - 1]);
      var row := data[|data| - 1];
      if row.deathEntered == 1 then days + [row.time] else days
  }

  /** The positions of the rows that record a death at time t. */
  ghost function DeathRowsAt(data: seq<Row>, t: int): set<nat>
  {
    set i: nat | i < |data| && data[i].deathEntered == 1 && data[i].time == t
  }

  /** The bin edges 0.5, 1.5, ..., 60.5. */
  function DayEdges(): (edges: seq<real>)
    ensures |edges| == TimeRangeSize + 1
  {
    seq(TimeRangeSize + 1, e => 0.5 + e as real)
  }

  /** `Frequences`: the number of deaths on each of the days 1 .. 60. */
  function DailyDeaths(days: seq<int>): (counts: seq<nat>)
    ensures |counts| == TimeRangeSize
  {
    Histogram(days, DayEdges())
  }

  /** `FrequenceBars`: bar i is at x = i + 1 with the count of bin i. */
  function FrequenceBars(counts: seq<nat>): (bars: seq<(int, int)>)
    ensures |bars| == |counts|
  {
    seq(|counts|, i requires 0 <= i < |counts| => (i + 1, counts[i]))
  }

  /** `Frequences[:n]`: Python's slice, which stops at the end of the list. */
  function Take(counts: seq<nat>, n: nat): (prefix: seq<nat>)
    ensures |prefix| == if n <= |counts| then n else |counts|
    ensures prefix <= counts
  {
    if n <= |counts| then counts[..n] else counts
  }

  /** `AccumualtedFrequenceBars`: bar t is at x = t + 1 with the sum of bins 0 .. t. */
  function AccumulatedBars(counts: seq<nat>): (bars: seq<(int, int)>)
    ensures |bars| == TimeRangeSize
  {
    seq(TimeRangeSize, t requires 0 <= t < TimeRangeSize => (t + 1, Sum(Take(counts, t + 1))))
  }

  // ---------------------------------------------------------------- lemmas

  /** A row's time is a death day exactly when some row records a death at that time. */
  lemma {:induction false} DeathDaysFromRows(data: seq<Row>, t: int)
    ensures t in DeathDays(data) <==> exists r :: r in data && r.deathEntered == 1 && r.time == t
    decreases |data|
  {
    if data != [] {
      var front := data[..|data| - 1];
      DeathDaysFromRows(front, t);
      assert data == front + [data[|data| - 1]];
      if exists r :: r in data && r.deathEntered == 1 && r.time == t {
        var r :| r in data && r.deathEntered == 1 && r.time == t;
        if r != data[|data| - 1] {
          assert r in front;
        }
      }
    }
  }

  lemma DeathRowsSnoc(data: seq<Row>, t: int)
    requires data != []
    ensures var n := |data| - 1; var row := data[n];
      DeathRowsAt(data, t)
        == DeathRowsAt(data[..n], t) + (if row.deathEntered == 1 && row.time == t then {n} else {})
  {
    var n := |data| - 1;
    forall i: nat | i < n
      ensures data[i] == data[..n][i]
    {
    }
  }

  /** t occurs in the death days exactly as often as there are rows recording a death at t. */
  lemma {:induction false} DeathDaysCount(data: seq<Row>, t: int)
    ensures CountOf(DeathDays(data), t) == |DeathRowsAt(data, t)|
    decreases |data|
  {
    if data == [] {
      assert DeathRowsAt(data, t) == {};
    } else {
      var n := |data| - 1;
      var front := data[..n];
      DeathDaysCount(front, t);
      DeathRowsSnoc(data, t);
      assert n !in DeathRowsAt(front, t);
      var days := DeathDays(front);
      var row := data[n];
      if row.deathEntered == 1 {
        assert DeathDays(data) == days + [row.time];
        assert (days + [row.time])[..|days|] == days;
      } else {
        assert DeathDays(data) == days;
      }
    }
  }

  /** The edges are the unit bins centred on the days 1 .. 60. */
  lemma DayEdgesAreUnit()
    ensures DayEdges() == UnitEdges(1, TimeRangeSize)
  {
  }

  /** An integer death day t lands in bin t - 1 exactly when 1 <= t <= 60, and in no other bin. */
  lemma DeathDayBin(t: int, i: nat)
    requires i < TimeRangeSize
    ensures InBin(t, DayEdges(), i) <==> t == i + 1
  {
    DayEdgesAreUnit();
    UnitBinHoldsCentre(t, 1, TimeRangeSize, i);
  }

  /** Bin i counts the deaths on day i + 1. */
  lemma DailyDeathsCount(days: seq<int>, i: nat)
    requires i < TimeRangeSize
    ensures DailyDeaths(days)[i] == CountOf(days, i + 1)
  {
    DayEdgesAreUnit();
    UnitHistogram(days, 1, TimeRangeSize);
  }

  /** The per-day bars stand at x = 1 .. 60 in order, bar x showing the deaths on day x. */
  lemma FrequenceBarsShape(days: seq<int>, i: nat)
    requires i < TimeRangeSize
    ensures |FrequenceBars(DailyDeaths(days))| == TimeRangeSize
    ensures FrequenceBars(DailyDeaths(days))[i] == (i + 1, CountOf(days, i + 1))
  {
    DailyDeathsCount(days, i);
  }

  /** Accumulated bar t is the prefix sum of the first t + 1 daily counts. */
  lemma AccumulatedIsPrefixSum(counts: seq<nat>, t: nat)
    requires |counts| == TimeRangeSize && t < TimeRangeSize
    ensures AccumulatedBars(counts)[t] == (t + 1, PrefixSums(counts)[t])
  {
  }

  lemma CountsNonNegative(counts: seq<nat>)
    ensures NonNegative(counts)
  {
  }

  /** The accumulated bars never decrease from left to right. */
  lemma AccumulatedNonDecreasing(days: seq<int>, s: nat, t: nat)
    requires s <= t < TimeRangeSize
    ensures AccumulatedBars(DailyDeaths(days))[s].1 <= AccumulatedBars(DailyDeaths(days))[t].1
  {
    var counts := DailyDeaths(days);
    CountsNonNegative(counts);
    PrefixSumsNonDecreasing(counts);
    AccumulatedIsPrefixSum(counts, s);
    AccumulatedIsPrefixSum(counts, t);
  }

  /** At every x the accumulated bar is at least as high as the per-day bar. */
  lemma AccumulatedDominates(days: seq<int>, t: nat)
    requires t < TimeRangeSize
    ensures AccumulatedBars(DailyDeaths(days))[t].0 == FrequenceBars(DailyDeaths(days))[t].0
    ensures AccumulatedBars(DailyDeaths(days))[t].1 >= FrequenceBars(DailyDeaths(days))[t].1
  {
    var counts := DailyDeaths(days);
    CountsNonNegative(counts);
    PrefixSumsDominate(counts);
    AccumulatedIsPrefixSum(counts, t);
  }

  /** The last accumulated bar counts exactly the deaths on days 1 .. 60; later or earlier days are dropped. */
  lemma AccumulatedTotal(days: seq<int>)
    ensures AccumulatedBars(DailyDeaths(days))[TimeRangeSize - 1] == (TimeRangeSize, CountInRange(days, 1, TimeRangeSize + 1))
  {
    var counts := DailyDeaths(days);
    AccumulatedIsPrefixSum(counts, TimeRangeSize - 1);
    PrefixSumsLast(counts);
    DayEdgesAreUnit();
    UnitHistogramTotal(days, 1, TimeRangeSize);
  }
}
