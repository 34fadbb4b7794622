# The text and list logic of Jacob Barhak's presentation scripts

Most of each presentation script builds panel, holoviews and bokeh layouts. This project
models the few pieces of plain text and list logic inside those layouts and proves what
they promise:

- **The bibliography parser and citation linker.** `ExtractReferencesDict` and
  `FixReferences` appear in the COVID-19 ensemble presentation and, as an identical copy,
  in the MIDAS 2021 poster.
  - The parser reads a numbered reference block line by line. It builds a dictionary
    from `str(n)` to the pair (link, title), and prints a warning for each numbered line
    that has no `<http...>` link.
  - The linker replaces every `[d]` and `[dd]` of a text with an HTML anchor that carries
    that reference's link and title.
- **The histograms of prediction quality.** `GeneratePlot` has three copies that differ
  only in styling: the 2019 PyData Austin talk, the 2019 MSM/IMAG ML poster and the
  unit-mapping presentation.
  - The metric values are clamped into a top "10+" bucket.
  - They are counted in unit bins centred on the integers and turned into proportions.
    For distance metrics the proportions are cumulative.
  - There is one histogram per (phase, pass type, metric), and the page is laid out as a
    title, six headed rows and a footer.
- **The mortality bars of the 2019 GE Healthcare presentation.** These are the deaths
  per day over days 1 .. 60, and the deaths accumulated up to each day.
- **The history bars of the 2020 Reference Model poster.** `GenerateHistoryPlots` works
  per topic and per year.
  - It builds a (year, category) -> count table in which the years after the selected
    year read 0.
  - It computes an axis height in which the "infinite" sentinel 10000 counts as 0.
  - It stores each year's plot in the shared `MergedPlotDict` and saves that dictionary
    once per topic.
- **The LaTeX tokens of the AnacondaCon 2019 presentation.** `EnhanceMarkDown` replaces
  every `~~~...~~~` of a markdown text with an `<img>` tag of the rendered equation. An
  optional `$size` suffix sets the tag's height.

The modules:

- `Wrappers`: the Option and Result types.
- `PyStrings`: the Python `str` and `int` operations the scripts use.
- `NumpyHistogram`: the contract of `numpy.histogram` on integer samples, plus sums and
  prefix sums.
- `References`, `PredictionQualityPlots`, `MortalityBars`, `ReferenceModelHistory` and
  `LatexMarkdown`: one module for each piece above.

The scripts are modelled as follows:

- The loops that fill dictionaries are methods proved against specification functions:
  - `ExtractReferencesDict` and its link scan;
  - the nested `GeneratePlot` loops and the page loop;
  - the topic, year and category loops of `GenerateHistoryPlots`.
- `MergedPlotDict`, the module-level dictionary, is a field of the class `HistoryPlots`.
  The files saved so far are a second field of that class.
- `re.sub` callbacks and comprehensions are functions.
- Where the code raises, the model returns an error value:
  - `FixReferences` returns `Failure(key)` for a missing key;
  - `EnhanceMarkDown` returns `None` for a size that does not parse.
  Lemmas state exactly when the code does not raise.

## Model

| member | source | states |
|---|---|---|
| PyStrings.StripSpec | COVID19_Ensemble_Latest/COVID19_Ensemble_Latest.py:110 | `strip()` removes exactly the surrounding whitespace: the text is a run of whitespace, the result, and a run of whitespace, and the result is empty or neither starts nor ends with whitespace |
| PyStrings.StripEnds | COVID19_Ensemble_Latest/COVID19_Ensemble_Latest.py:110 | the stripped text neither starts nor ends with whitespace |
| PyStrings.StripTrimmed | MIDAS2021_Poster/COVID19EnsemblePoster.py:110 | a text that neither starts nor ends with whitespace is its own `strip()` |
| PyStrings.Find | AnacondaCon2019/AnacondaCon2019.py:97 | `find` gives -1 exactly when the character is absent; otherwise it gives the index of its first occurrence |
| PyStrings.RemoveConcat | COVID19_Ensemble_Latest/COVID19_Ensemble_Latest.py:111 | `replace(c, '')` of a concatenation is the concatenation of the parts, and one character becomes "" exactly when it is `c`: every other character is kept in order and as often as it occurs |
| PyStrings.SplitJoin | COVID19_Ensemble_Latest/COVID19_Ensemble_Latest.py:100 | the parts of `split(sep)` hold no separator, and joining them gives back the text |
| PyStrings.SplitFirst | COVID19_Ensemble_Latest/COVID19_Ensemble_Latest.py:103 | `split('.')[0]` is the prefix before the first '.', or the whole line when it has no '.' |
| PyStrings.WordsSkipSpace | COVID19_Ensemble_Latest/COVID19_Ensemble_Latest.py:112 | whitespace in front of the text adds no word to `split()` |
| PyStrings.WordsFirstWord | COVID19_Ensemble_Latest/COVID19_Ensemble_Latest.py:112 | a non-empty run without whitespace that starts the text and ends at whitespace or at the end is the first word of `split()`, followed by the words of the rest |
| PyStrings.WordsJoin | MIDAS2021_Poster/COVID19EnsemblePoster.py:112 | `' '.join(ws).split() == ws` for non-empty words without whitespace |
| PyStrings.NatToString | COVID19_Ensemble_Latest/COVID19_Ensemble_Latest.py:109 | `str(n)` of a natural is decimal digits, with no leading zero unless n is 0 |
| PyStrings.IntToString | MIDAS2021_Poster/COVID19EnsemblePoster.py:109 | `str(n)` has no whitespace; it is all digits for n >= 0 and starts with '-' otherwise |
| PyStrings.IntToStringRoundTrip | COVID19_Ensemble_Latest/COVID19_Ensemble_Latest.py:104-109 | `int(str(n)) == n` for every integer n |
| PyStrings.IntToStringInjective | COVID19_Ensemble_Latest/COVID19_Ensemble_Latest.py:109 | distinct numbers have distinct keys `str(n)` |
| PyStrings.ParseIntSpec | COVID19_Ensemble_Latest/COVID19_Ensemble_Latest.py:104-107 | `int(s)` gives n exactly when the stripped text is an optional sign, whitespace after the sign, and one or more ASCII digits whose value is n (negated after '-'); otherwise it raises |
| NumpyHistogram.Histogram | PyDataAustin2019/PyData_Austin_2019.py:368 | `numpy.histogram` gives one count per bin: one fewer than the edges |
| NumpyHistogram.UnitEdges | GE_Healthcare2019/GE_Healthcare2019.py:336 | `bins` unit bins have `bins + 1` edges |
| NumpyHistogram.UnitBinHoldsCentre | PyDataAustin2019/PyData_Austin_2019.py:368 | an integer lies in a unit bin exactly when it is that bin's centre |
| NumpyHistogram.UnitBinCount | GE_Healthcare2019/GE_Healthcare2019.py:336 | a unit bin counts exactly the samples equal to its centre |
| NumpyHistogram.UnitHistogram | MSM_ML_IMAG2019/MSM_ML_IMAG_Poster2019.py:341 | bin i of unit bins from lo counts the samples equal to lo + i |
| NumpyHistogram.UnitHistogramTotal | GE_Healthcare2019/GE_Healthcare2019.py:336 | the unit-bin counts add up to the number of samples in range; the others are dropped |
| NumpyHistogram.SumNonNegative | GE_Healthcare2019/GE_Healthcare2019.py:339 | a sum of counts is never negative |
| NumpyHistogram.PrefixSums | PyDataAustin2019/PyData_Austin_2019.py:372 | the accumulated list has one entry per bin |
| NumpyHistogram.PrefixSumsNonDecreasing | Unit_Mapping_Latest/Unit_Mapping_Latest.py:316 | prefix sums of non-negative counts never decrease |
| NumpyHistogram.PrefixSumsDominate | GE_Healthcare2019/GE_Healthcare2019.py:338-339 | each prefix sum is at least its own count |
| NumpyHistogram.PrefixSumsLast | GE_Healthcare2019/GE_Healthcare2019.py:339 | the last prefix sum is the total |
| NumpyHistogram.PrefixSumGrows | MSM_ML_IMAG2019/MSM_ML_IMAG_Poster2019.py:345 | a longer prefix of non-negative counts sums to at least as much |
| References.FirstLinkIndex | COVID19_Ensemble_Latest/COVID19_Ensemble_Latest.py:114-118 | the scan stops at the first `<http...>` word; none before it qualifies |
| References.LinkOf | COVID19_Ensemble_Latest/COVID19_Ensemble_Latest.py:117 | the link word without its brackets starts with "http" |
| References.FirstLink | MIDAS2021_Poster/COVID19EnsemblePoster.py:113-118 | the link is "" exactly when no word is a `<http...>` word (`IsLinkToken`); otherwise it starts with "http" |
| References.TitleOfConcat | MIDAS2021_Poster/COVID19EnsemblePoster.py:111 | the title of a concatenation is the concatenation of the titles, so the kept characters stay in order and keep their multiplicity |
| References.TitleOfChar | COVID19_Ensemble_Latest/COVID19_Ensemble_Latest.py:111 | one character is dropped from the title exactly when it is '<' or '>' |
| References.TitleOfBracketed | MIDAS2021_Poster/COVID19EnsemblePoster.py:111 | a line text `before<journal>after` whose three parts hold no bracket gives exactly `before journal after` concatenated: the brackets go and nothing else does |
| References.TitleOfExample | MIDAS2021_Poster/COVID19EnsemblePoster.py:111 | "2020<J>." gives the title "2020J." |
| References.LineEntryShape | COVID19_Ensemble_Latest/COVID19_Ensemble_Latest.py:103-121 | a line adds an entry (`LineEntry`) iff its number (`LineNumber`) reads as a non-zero integer n; the key is then `str(n)`, the title bracket-free, the link "" or "http..." |
| References.NumberedLineEntry | COVID19_Ensemble_Latest/COVID19_Ensemble_Latest.py:103-121 | the line `str(n) + '.' + rest` with n != 0 gives the entry (`LineEntry`) with key `str(n)`, title `rest.strip()` without its brackets and link the first `<http...>` word of `rest.strip().split()` |
| References.LineEntryUnnumbered | MIDAS2021_Poster/COVID19EnsemblePoster.py:103-108 | a line whose prefix does not read as an integer, or reads as 0, adds nothing |
| References.LineEntries | COVID19_Ensemble_Latest/COVID19_Ensemble_Latest.py:102 | one outcome per line |
| References.LineEntriesAt | COVID19_Ensemble_Latest/COVID19_Ensemble_Latest.py:102 | the outcome at position i is that of line i |
| References.DictOf | COVID19_Ensemble_Latest/COVID19_Ensemble_Latest.py:121 | the dictionary (`DictOf`) never has more entries than there are lines |
| References.RefDictOf | MIDAS2021_Poster/COVID19EnsemblePoster.py:100-122 | the parsed dictionary has at most one entry per line |
| References.LineWarning | COVID19_Ensemble_Latest/COVID19_Ensemble_Latest.py:119-120 | one line is warned about (`CheckMessage`), once, exactly when it adds an entry whose link is "" |
| References.CheckMessagesConcat | MIDAS2021_Poster/COVID19EnsemblePoster.py:102-120 | the warnings of a block (`CheckMessages`, `WarningsOf`) are those of its first lines followed by those of the rest: one per linkless numbered line, in line order |
| References.ExtractReferencesDict | COVID19_Ensemble_Latest/COVID19_Ensemble_Latest.py:98-122 | the dictionary is the one the lines of the text define; the warnings are those of the numbered lines without a link, in order |
| References.ReadReferenceLines | MIDAS2021_Poster/COVID19EnsemblePoster.py:102-121 | the line loop builds that dictionary and those warnings |
| References.ReadReferenceLine | COVID19_Ensemble_Latest/COVID19_Ensemble_Latest.py:103-112 | the body of the line loop computes the line's entry |
| References.ScanForLink | COVID19_Ensemble_Latest/COVID19_Ensemble_Latest.py:113-118 | the loop with `break` keeps the first `<http...>` word, unbracketed, or "" |
| References.DictKeys | MIDAS2021_Poster/COVID19EnsemblePoster.py:121 | a key is present exactly when some line gave it |
| References.LastEntryWins | COVID19_Ensemble_Latest/COVID19_Ensemble_Latest.py:121 | a later line with the same number overwrites the earlier entry |
| References.KeysAreCanonical | COVID19_Ensemble_Latest/COVID19_Ensemble_Latest.py:104-109 | every key is `str(n)` of a non-zero integer n |
| References.ZeroPaddedIsNeverAKey | MIDAS2021_Poster/COVID19EnsemblePoster.py:109 | a zero-padded number such as "05" is never a key |
| References.CitationMatchLength | COVID19_Ensemble_Latest/COVID19_Ensemble_Latest.py:132 | a match of the citation pattern is 3 or 4 characters long: '[', one or two digits, ']' |
| References.CitationPieces | COVID19_Ensemble_Latest/COVID19_Ensemble_Latest.py:132 | the copied characters and the matches together spell the text; every match is a one- or two-digit number |
| References.CitationPiecesAreLeftmost | MIDAS2021_Poster/COVID19EnsemblePoster.py:132 | the matches are the leftmost, non-overlapping ones: each piece starts a match exactly as long as itself |
| References.RenderCitations | COVID19_Ensemble_Latest/COVID19_Ensemble_Latest.py:127-131 | the rewrite succeeds iff every matched number is a key; otherwise it fails on the first missing one |
| References.RenderChar | COVID19_Ensemble_Latest/COVID19_Ensemble_Latest.py:132 | a character outside every match is copied unchanged, whatever the dictionary |
| References.RenderCitation | COVID19_Ensemble_Latest/COVID19_Ensemble_Latest.py:126-131 | a matched `[n]` whose number is a key becomes `<a href="L" title="T" target= "_blank">[n]</a>` (`Anchor`), keeping the matched text as the visible text |
| References.RenderCitationsConcat | COVID19_Ensemble_Latest/COVID19_Ensemble_Latest.py:132 | the rewrite works piece by piece: the output for two runs of pieces is the two outputs side by side; with `RenderChar`, `RenderCitation`, `CitationPieces` and `CitationPiecesAreLeftmost` this fixes the output of `re.sub` for every text |
| References.FixReferences | COVID19_Ensemble_Latest/COVID19_Ensemble_Latest.py:124-133 | `FixReferences` does not raise iff every `[d]`/`[dd]` of the text is a key; the key it raises on is missing and one or two digits |
| References.PlainTextIsOneCharPerPiece | MIDAS2021_Poster/COVID19EnsemblePoster.py:132 | a text without a match is copied character by character |
| References.RenderPlainPieces | MIDAS2021_Poster/COVID19EnsemblePoster.py:132 | copied characters come out as they went in |
| References.NoCitationUnchanged | COVID19_Ensemble_Latest/COVID19_Ensemble_Latest.py:132 | a text with no match comes back unchanged, whatever the dictionary |
| References.ThreeDigitCitationUnchanged | COVID19_Ensemble_Latest/COVID19_Ensemble_Latest.py:132 | "[100]" is not a match and is copied unchanged |
| References.SingleCitation | MIDAS2021_Poster/COVID19EnsemblePoster.py:129-130 | "[n]" becomes the anchor (`Anchor`) `<a href="L" title="T" target= "_blank">[n]</a>` with (L, T) the entry of n |
| References.ZeroPaddedCitationRaises | COVID19_Ensemble_Latest/COVID19_Ensemble_Latest.py:129 | "[05]" raises against every parsed dictionary |
| PredictionQualityPlots.Labels | PyDataAustin2019/PyData_Austin_2019.py:359-365 | pass/fail ticks are (0, Miss) and (1, Hit); distance ticks are (0, Exact), (k, k) for k = 1 .. 10, then (10, "10+") at position 11 |
| PredictionQualityPlots.MetricValuesCount | PyDataAustin2019/PyData_Austin_2019.py:367 | in the values of metric k (`MetricValues`, read with `Metric`), v occurs as often as there are non-None entries whose metric k is v, and as many values reach v as there are entries whose metric reaches v |
| PredictionQualityPlots.Clamp | MSM_ML_IMAG2019/MSM_ML_IMAG_Poster2019.py:340 | `min(v, N)` keeps one value per entry |
| PredictionQualityPlots.Proportions | PyDataAustin2019/PyData_Austin_2019.py:368 | the density exists exactly when some value is in range, with one proportion per bin |
| PredictionQualityPlots.Scaled | PyDataAustin2019/PyData_Austin_2019.py:368 | one proportion per count |
| PredictionQualityPlots.RealPrefixSums | Unit_Mapping_Latest/Unit_Mapping_Latest.py:316 | the cumulative series has one element per bin |
| PredictionQualityPlots.BuildHistogram | PyDataAustin2019/PyData_Austin_2019.py:356-373 | the loop body, including the in-place edits of the first and last label, builds the histogram of that (phase, pass type, metric) |
| PredictionQualityPlots.GeneratePlot | PyDataAustin2019/PyData_Austin_2019.py:353-381 | `PlotsDict` has exactly 36 keys, each (phase, pass type, metric) mapped to its histogram; the page is the specified layout |
| PredictionQualityPlots.WriteStep | MSM_ML_IMAG2019/MSM_ML_IMAG_Poster2019.py:326-347 | one step of the loops keeps "the first n keys hold their histograms, and only they" |
| PredictionQualityPlots.WriteStepKeys | Unit_Mapping_Latest/Unit_Mapping_Latest.py:297-318 | one step adds exactly the key of the current index triple |
| PredictionQualityPlots.WriteStepPlots | Unit_Mapping_Latest/Unit_Mapping_Latest.py:318 | one step stores the current triple's histogram and keeps the earlier ones |
| PredictionQualityPlots.WrittenAll | PyDataAustin2019/PyData_Austin_2019.py:353-374 | after the 36 steps every (phase, pass type, metric) key holds its histogram |
| PredictionQualityPlots.KeysBeforeStep | PyDataAustin2019/PyData_Austin_2019.py:374 | each step writes the key of the triple it is at |
| PredictionQualityPlots.KeyOfDistinct | PyDataAustin2019/PyData_Austin_2019.py:374 | the current triple's key has not been written before, so nothing is overwritten |
| PredictionQualityPlots.KeyOfInjective | PyDataAustin2019/PyData_Austin_2019.py:374 | different index triples give different (phase, pass type, metric name) keys (`KeyOf`) |
| PredictionQualityPlots.PlotList | PyDataAustin2019/PyData_Austin_2019.py:376 | there is one row per (phase, pass type): six in all |
| PredictionQualityPlots.Sections | PyDataAustin2019/PyData_Austin_2019.py:378-380 | two page items per row |
| PredictionQualityPlots.GeneratePage | PyDataAustin2019/PyData_Austin_2019.py:376-381 | the layout loop over the dictionary builds the specified page |
| PredictionQualityPlots.PlotListFromDict | Unit_Mapping_Latest/Unit_Mapping_Latest.py:320 | the rows read back from a filled dictionary are the rows of the histograms |
| PredictionQualityPlots.SectionsAt | MSM_ML_IMAG2019/MSM_ML_IMAG_Poster2019.py:351-353 | row n gives a "#### " heading at 2n and its plots at 2n + 1 |
| PredictionQualityPlots.PageLayout | PyDataAustin2019/PyData_Austin_2019.py:376-381 | the page (`Page`) has 14 items: the title, then a heading and a row of six plots per (phase, pass type) in phase-major order, then the footer |
| PredictionQualityPlots.BinsAreUnitEdges | PyDataAustin2019/PyData_Austin_2019.py:356-362 | the bins (`Bins`) are [-0.5, 0.5, 1.5], or the edges k - 0.5 for k = 0 .. 11 |
| PredictionQualityPlots.ClampCounts | Unit_Mapping_Latest/Unit_Mapping_Latest.py:311 | clamping keeps values below 10 in place, gathers every value of 10 or more at 10, and leaves nothing above |
| PredictionQualityPlots.DistanceHistogram | PyDataAustin2019/PyData_Austin_2019.py:361-368 | distance bin v < 10 counts the values equal to v; bin 10 counts the values of 10 or more |
| PredictionQualityPlots.BooleanMetricValues | MSM_ML_IMAG2019/MSM_ML_IMAG_Poster2019.py:340 | a pass/fail metric only takes the values 0 and 1 |
| PredictionQualityPlots.BooleanHistogram | PyDataAustin2019/PyData_Austin_2019.py:356-368 | pass/fail bin 0 counts the misses and bin 1 the hits |
| PredictionQualityPlots.HistogramOfEntries | PyDataAustin2019/PyData_Austin_2019.py:356-368 | read from the entries (`ClampedValues`, `Bins`, `Categories`): bin v below the top counts the non-None entries whose metric is v, and the distance top bin N counts those whose metric is N or more |
| PredictionQualityPlots.PlotSeries | PyDataAustin2019/PyData_Austin_2019.py:366-372 | the plot of (phase, pass type, metric) (`PlotFor`, `SeriesOf`, with `QualitiesOf` giving [] for a missing key) has no series when no value is in a bin; otherwise one value per bin: the share of bin v for pass/fail metrics and the share of bins 0 .. v for distances |
| PredictionQualityPlots.ScaledSum | PyDataAustin2019/PyData_Austin_2019.py:368-372 | a prefix of the proportions sums to the scaled prefix sum of the counts |
| PredictionQualityPlots.ProportionsSumToOne | PyDataAustin2019/PyData_Austin_2019.py:368 | the proportions add up to 1 |
| PredictionQualityPlots.CumulativeShare | PyDataAustin2019/PyData_Austin_2019.py:372 | cumulative entry i is the share of the values in bins 0 .. i |
| PredictionQualityPlots.CumulativeNonDecreasing | Unit_Mapping_Latest/Unit_Mapping_Latest.py:316 | the cumulative series never decreases |
| PredictionQualityPlots.CumulativeEndsAtOne | MSM_ML_IMAG2019/MSM_ML_IMAG_Poster2019.py:345 | the cumulative series ends at 1 |
| MortalityBars.DeathDaysCount | GE_Healthcare2019/GE_Healthcare2019.py:335 | t occurs among the death days as often as there are rows recording a death at time t |
| MortalityBars.DeathDaysFromRows | GE_Healthcare2019/GE_Healthcare2019.py:335 | t is a death day exactly when some row records a death at time t |
| MortalityBars.DayEdges | GE_Healthcare2019/GE_Healthcare2019.py:334-336 | 61 edges |
| MortalityBars.DayEdgesAreUnit | GE_Healthcare2019/GE_Healthcare2019.py:336 | the edges 0.5, 1.5, ..., 60.5 are the unit bins centred on days 1 .. 60 |
| MortalityBars.DeathDayBin | GE_Healthcare2019/GE_Healthcare2019.py:334-336 | an integer day t lands in bin i exactly when t = i + 1 |
| MortalityBars.DailyDeaths | GE_Healthcare2019/GE_Healthcare2019.py:336 | there are 60 daily counts |
| MortalityBars.DailyDeathsCount | GE_Healthcare2019/GE_Healthcare2019.py:336 | bin i counts the deaths on day i + 1 |
| MortalityBars.FrequenceBars | GE_Healthcare2019/GE_Healthcare2019.py:338 | one bar per count |
| MortalityBars.FrequenceBarsShape | GE_Healthcare2019/GE_Healthcare2019.py:338 | there are 60 per-day bars, and bar i is (i + 1, deaths on day i + 1) |
| MortalityBars.Take | GE_Healthcare2019/GE_Healthcare2019.py:339 | `Frequences[:n]` is the first min(n, len) counts: a prefix of that length |
| MortalityBars.AccumulatedBars | GE_Healthcare2019/GE_Healthcare2019.py:339 | there are 60 accumulated bars |
| MortalityBars.AccumulatedIsPrefixSum | GE_Healthcare2019/GE_Healthcare2019.py:339 | accumulated bar t is (t + 1, count_0 + ... + count_t) |
| MortalityBars.AccumulatedNonDecreasing | GE_Healthcare2019/GE_Healthcare2019.py:339 | the accumulated bars never decrease |
| MortalityBars.AccumulatedDominates | GE_Healthcare2019/GE_Healthcare2019.py:338-339 | at each x the accumulated bar is at least the per-day bar |
| MortalityBars.AccumulatedTotal | GE_Healthcare2019/GE_Healthcare2019.py:336-339 | the last accumulated bar counts exactly the deaths on days 1 .. 60 |
| ReferenceModelHistory.Zeroed | MSM_IMAG2020/MSM_IMAG_Poster2020.py:276 | zeroing the sentinel keeps one entry per year |
| ReferenceModelHistory.MaxOf | MSM_IMAG2020/MSM_IMAG_Poster2020.py:278-280 | `max` is an element of the list and at least every element |
| ReferenceModelHistory.MaxOfCons | MSM_IMAG2020/MSM_IMAG_Poster2020.py:280 | `max([MaxY] + zs)` is at least MaxY and every z, and is one of them |
| ReferenceModelHistory.AxisMaxBounds | MSM_IMAG2020/MSM_IMAG_Poster2020.py:273-280 | without stacking the axis height (`AxisMax`) is at least 0 and at least every count that is not the sentinel |
| ReferenceModelHistory.AxisMaxAttained | MSM_IMAG2020/MSM_IMAG_Poster2020.py:279-280 | without stacking a positive axis height is one of the counts, never the sentinel |
| ReferenceModelHistory.StackedBarsFit | MSM_IMAG2020/MSM_IMAG_Poster2020.py:277-278 | with stacking the axis is at least the height of every year's stack of sentinel-zeroed counts |
| ReferenceModelHistory.YearBars | MSM_IMAG2020/MSM_IMAG_Poster2020.py:273-283 | the category loop computes the axis height, which does not depend on the year, and the masked bar table |
| ReferenceModelHistory.DimBarsAt | MSM_IMAG2020/MSM_IMAG_Poster2020.py:281-282 | with distinct years, bar (y, category) of one category (`DimBarsUpTo`, and `DimBars` where `zip` stops) holds the count when y <= Y and 0 otherwise |
| ReferenceModelHistory.DimBarsKeys | MSM_IMAG2020/MSM_IMAG_Poster2020.py:281-282 | a category's keys are that category with each year; with distinct years there is one key per year |
| ReferenceModelHistory.BarsCategories | MSM_IMAG2020/MSM_IMAG_Poster2020.py:283 | every key of the bar table names one of the topic's categories |
| ReferenceModelHistory.BarsMasked | MSM_IMAG2020/MSM_IMAG_Poster2020.py:281-283 | bar (y, category) of the table (`BarsOf`) is the raw count, the sentinel included, when y <= Y, and 0 otherwise |
| ReferenceModelHistory.BarsSize | MSM_IMAG2020/MSM_IMAG_Poster2020.py:281-283 | the table of one (topic, year) has exactly years x categories keys |
| ReferenceModelHistory.FormatPlain | MSM_IMAG2020/MSM_IMAG_Poster2020.py:285 | a template without braces formats (`Format`) to itself |
| ReferenceModelHistory.FormatTrailingField | MSM_IMAG2020/MSM_IMAG_Poster2020.py:208-216 | "... in {0}" formats to "... in " followed by the year |
| ReferenceModelHistory.YearPlot | MSM_IMAG2020/MSM_IMAG_Poster2020.py:273-286 | the plot of year Y (`PlotForYear`) has bar (y, category) equal to the raw count when y <= Y and 0 otherwise, the topic's axis height and stacking flag, and for an innovation text "... in {0}" the title "... in Y" |
| ReferenceModelHistory.YearStep | MSM_IMAG2020/MSM_IMAG_Poster2020.py:288 | storing one more year's plot extends the dictionary by that year's plot |
| ReferenceModelHistory.TopicStep | MSM_IMAG2020/MSM_IMAG_Poster2020.py:270-290 | one topic's plots followed by its save keep the run's progress |
| ReferenceModelHistory.TopicsDone | MSM_IMAG2020/MSM_IMAG_Poster2020.py:270 | after the last topic the dictionary and the saves are those of the whole run |
| ReferenceModelHistory.HistoryPlots.constructor | MSM_IMAG2020/MSM_IMAG_Poster2020.py:227 | `MergedPlotDict` starts empty, with nothing saved |
| ReferenceModelHistory.HistoryPlots.GenerateHistoryPlots | MSM_IMAG2020/MSM_IMAG_Poster2020.py:240-290 | the dictionary becomes the plots of all topics merged in order, and one save per topic is appended |
| ReferenceModelHistory.HistoryPlots.PlotTopic | MSM_IMAG2020/MSM_IMAG_Poster2020.py:271-290 | one topic overwrites the dictionary with its plot for each year, then saves it once |
| ReferenceModelHistory.HistoryPlots.StoreYear | MSM_IMAG2020/MSM_IMAG_Poster2020.py:273-288 | one year stores that year's plot under the year and saves nothing |
| ReferenceModelHistory.TopicPlotsUpToShape | MSM_IMAG2020/MSM_IMAG_Poster2020.py:272-288 | after n years the topic (`TopicPlotsUpTo`) holds exactly those n years, each with its own plot (`PlotForYear`) |
| ReferenceModelHistory.TopicPlotsShape | MSM_IMAG2020/MSM_IMAG_Poster2020.py:272-288 | a topic (`TopicPlots`) writes exactly one entry per year: that year's plot |
| ReferenceModelHistory.MergedYears | MSM_IMAG2020/MSM_IMAG_Poster2020.py:227 | starting from years only, `MergedPlotDict` only ever holds years |
| ReferenceModelHistory.MergedAfterTopic | MSM_IMAG2020/MSM_IMAG_Poster2020.py:288 | after a topic's year loop the dictionary (`MergedAfter`) holds exactly that topic's plots; the previous topic's entries are overwritten |
| ReferenceModelHistory.SavedPerTopic | MSM_IMAG2020/MSM_IMAG_Poster2020.py:289-290 | the t-th save is named after topic t (`FileNameOf`) and holds exactly that topic's plots, one per year |
| ReferenceModelHistory.SavesOf | MSM_IMAG2020/MSM_IMAG_Poster2020.py:290 | one save per topic |
| ReferenceModelHistory.SavesPrefix | MSM_IMAG2020/MSM_IMAG_Poster2020.py:290 | save t depends only on the first t + 1 topics |
| LatexMarkdown.ClosingFence | AnacondaCon2019/AnacondaCon2019.py:114 | the lazy `.*?` closes a token at the first "~~~" with no newline before it; with none, no token starts here |
| LatexMarkdown.TokenSplit | AnacondaCon2019/AnacondaCon2019.py:95 | a token is the opening fence, the inner text and the closing fence: `[3:-3]` is the inner text |
| LatexMarkdown.Pieces | AnacondaCon2019/AnacondaCon2019.py:114 | a token's inner text never spans a line |
| LatexMarkdown.PiecesAreLeftmost | AnacondaCon2019/AnacondaCon2019.py:114 | the tokens are the leftmost, shortest one-line matches: piece i is a token exactly when the text from it starts with "~~~" and closes on its line, and the token is the text up to the first closing "~~~"; a plain piece is the character it starts with |
| LatexMarkdown.PiecesRoundTrip | AnacondaCon2019/AnacondaCon2019.py:114 | the scan loses nothing: the copied characters and the tokens spell the text |
| LatexMarkdown.NoFencePlain | AnacondaCon2019/AnacondaCon2019.py:114 | a text without "~~~" has no token |
| LatexMarkdown.RenderPlain | AnacondaCon2019/AnacondaCon2019.py:114 | copied characters come out unchanged |
| LatexMarkdown.NoFenceUnchanged | AnacondaCon2019/AnacondaCon2019.py:91-115 | a text without a token comes back as it is |
| LatexMarkdown.RenderPieces | AnacondaCon2019/AnacondaCon2019.py:99-114 | the rewrite of the pieces raises exactly when some token's size is not an integer |
| LatexMarkdown.EnhanceMarkDown | AnacondaCon2019/AnacondaCon2019.py:91-115 | `EnhanceMarkDown` does not raise iff every token's size reads as an integer |
| LatexMarkdown.RenderOne | AnacondaCon2019/AnacondaCon2019.py:93-114 | one piece alone renders as itself when plain and as its token's `Replacement` when a token (`RenderPiece`) |
| LatexMarkdown.RenderPiecesConcat | AnacondaCon2019/AnacondaCon2019.py:114 | the rewrite works piece by piece: the output for two runs of pieces is the two outputs side by side; with `RenderOne`, `PiecesRoundTrip` and `PiecesAreLeftmost` this fixes the output of `re.sub` for every text |
| LatexMarkdown.PayloadReadBack | AnacondaCon2019/AnacondaCon2019.py:108-111 | a base64 payload, which never holds '"', reads back from the `src` data URI unchanged |
| LatexMarkdown.HeightReadBack | AnacondaCon2019/AnacondaCon2019.py:111 | the closing ` height="%i"/>` reads back as the height written into it |
| LatexMarkdown.ClosingAfterPlain | AnacondaCon2019/AnacondaCon2019.py:114 | after a stretch free of '~' and newlines the token closes at the next "~~~" |
| LatexMarkdown.SingleTokenPieces | AnacondaCon2019/AnacondaCon2019.py:95-114 | "~~~x~~~" scans as the one token x |
| LatexMarkdown.SingleToken | AnacondaCon2019/AnacondaCon2019.py:93-114 | "~~~x~~~" becomes exactly the replacement of x |
| LatexMarkdown.SizeAndEquation | AnacondaCon2019/AnacondaCon2019.py:95-103 | without '$' the size is the `Size` argument and the equation is the inner text between '$'; with '$' the size is `int()` of what follows the first '$', the equation is the '$'-free text before it between '$', and the call raises exactly when that `int()` does |
| LatexMarkdown.DollarSplit | AnacondaCon2019/AnacondaCon2019.py:97-100 | with '$' the size is `int()` of what follows the first '$' and the equation is what precedes it, between '$' |
| LatexMarkdown.SizeSuffix | AnacondaCon2019/AnacondaCon2019.py:98-100 | a suffix `$n` written by `str(n)` gives size n |
| LatexMarkdown.PresentationSizeExample | AnacondaCon2019/AnacondaCon2019.py:293 | the presentation's token `P_1^* = 16\%$13` is drawn 13 high, with the equation before the '$' |
| LatexMarkdown.ImgTag | AnacondaCon2019/AnacondaCon2019.py:111 | the tag reads back (`PayloadOf`, `HeightOf`) as the base64 payload and the height it was written with |
| LatexMarkdown.Replacement | AnacondaCon2019/AnacondaCon2019.py:93-111 | a token is replaced iff its size reads; the image tag then carries the rendering of the equation `SizeAndEquation` chose, at that size and the given DPI, and is as high as that size |

## Left out

- Layout and serialisation are left out. This covers the panel panes, rows and columns,
  holoviews `.opts`, `HoloMap`, hover tools, colours, widths and heights, and `.save`.
  - A histogram is modelled as its title, edges, series, cumulative flag and ticks.
  - A history plot is modelled as its bar table, axis height, stacking flag and title.
- `ylim = (0, MaxY*1.2)` is floating-point arithmetic on the axis height, which is
  modelled exactly. The 1.2 margin is left out.
- File I/O is left out.
  - `pickle.load` and `pandas.read_csv` become parameters: the recorded qualities and
    the simulation rows.
  - `SaveFile` is recorded as the (file name, dictionary) pair it is called with. Its
    output directory and its HTML output are not modelled, and nor is its branch for an
    empty file name, since the name is never empty here.
- `print` output is left out.
  - `ExtractReferencesDict` returns its warnings as a sequence instead.
  - The diagnostic print of `EnhanceMarkDown` and the print in `SaveFile` are dropped.
- The LaTeX renderer `panel.pane.LaTeX(...)._img()` and `base64.b64encode` (section 4
  of RFC 4648) are one uninterpreted function parameter. It maps (equation, size, dpi)
  to the payload text, whose only known property is that it is drawn from the base64
  alphabet (`Base64`). What that payload looks like under `%s` is part of the same
  parameter.
- `numpy.histogram` is modelled for integer samples only. Each bin counts the samples v
  with left edge <= v < right edge, and the last bin is closed on the right. With
  `density=True` on unit-width bins, each count is divided by the number of samples in
  range. The values are exact reals, not IEEE floats.
- PredictionQualityPlots.Proportions: when no sample is in range, numpy divides by zero
  and gives NaN with a warning. The model gives `None`, and the plotted series is then
  `None`.
- PredictionQualityPlots.Labels: the distance ticks read `(int(Bin+0.5), int(Bin+0.5))`,
  an integer label that holoviews prints. The model stores the label as `str` of that
  integer.
- PyStrings.ParseInt models Python 2's `int()` on a byte string, which accepts:
  - ASCII whitespace around the number;
  - one sign, which may be followed by ASCII whitespace;
  - one or more ASCII digits, leading zeros allowed.

  Anything else is `None`. Underscores in numbers and non-ASCII digits are not accepted.
  A line such as "+5. x" reads as 5, and "- 5. x" as -5. The title is then sliced after
  `1 + len(str(n))` characters, as in the code. For a number too large for a machine
  integer Python 2 falls back to its long parser, which allows no whitespace after the
  sign; the model reads such numbers like the others.
- ReferenceModelHistory.Format implements only the replacement field `{0}`, which is
  the only one the innovation texts use. Doubled braces and other fields are copied as
  they are.
- ReferenceModelHistory.HistoryPlots.GenerateHistoryPlots requires what the code reads
  without raising:
  - a "Year" column;
  - a column for every category of every topic;
  - a non-empty column for each category of a stacking topic, since `max([])` raises;
  - an innovation text for every year.

  The KeyError and ValueError paths themselves are not modelled.
- PredictionQualityPlots.QualitiesOf reads a missing (phase, pass type) key as the empty
  list. That holds for the `defaultdict(list)` the script creates. The script then
  replaces it with the object `pickle.load` returns, and that object's type is not
  visible in the script. The model assumes it is that `defaultdict(list)` again. If it
  were a plain `dict`, a missing key would raise `KeyError`, and the model does not
  cover that path.
- PredictionQualityPlots.GeneratePage requires every (phase, pass type, metric) key to
  be in the dictionary. The dictionary filled by `GeneratePlot`'s loops always has them.
- The template helpers, the command-line checks and the scripts without list or text
  logic are not part of this model. The helpers are `ConstractImageLinkAnchor`,
  `VideoInlineHTML`, `ObjectExternalHTML`, `ObjectInlineHTML` and `CovertFileToData`.
- The lactate statistics of the GE Healthcare script are not part of this model. They
  are floating-point means, deviations and 0.25-wide bins.
