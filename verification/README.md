# Verified models of the repository's algorithmic cores

The repository is a collection of experiments. Most of it is wiring; eight files hold algorithms whose
correctness is not visible from reading one function. This project models those eight and proves what they
are for.

* **Text remover** (`Occurrences`, `PdfContent`, `RemoverModel`, `RemoverProofs`, `SpliceProofs`,
  `BufferProofs`, `PageProofs`, `ReuseProofs`, `TextLayout`, `RemovalTheorems`, `SimpleTextRemover`). An
  online string matcher runs ahead of a queue of buffered content-stream operations; matched glyphs are replaced by
  position adjustments. `RemoverModel` is the state machine on values, the class `SimpleTextRemover` is the
  source's object with its loops and refines it, and the theorems relate it to the greedy occurrences of a
  string in a text and to the text positions of the PDF standard.
* **Curves** (`CubicMath`, `HermiteSplines`, `CurveSampling`, `NaturalSplines`, `LegacyCurve`, `FillMerge`).
  Monotone and cardinal Hermite splines, their sampling and the fill merge; the natural spline with its in-place
  tridiagonal solver, binary search and sampling. All over exact reals.
* **Hash table** (`HashtableModel`, `HashtableProofs`, `HashtableTheorems`, `Hashtable`). Buckets in a list
  and in an index by hash, against a plain map from classes of equal keys to values.
* **Relay** (`RelayModel`, `RelayProofs`, `RelaySessions`, `Relay`). The replication client's loop, and the
  whole system of log, slot, session, reports on their way and crashes as a state machine.
* **Cookies** (`PercentEncoding`, `TextSplit`, `Cookies`), **headers** (`Base64`, `Headers`), **request
  framing** (`Framing`) and **list regrouping** (`Batches`).

Four promises of the code turn out to hold only under a condition, and the condition is proved exact:

* `remove` does not reset `processedElements`. For every string, a remover is right for all pages exactly if the
  counter is 0 when it starts (`ReuseProofs.ReuseIsRightIff`), so after a page with any string it must not be
  used again (`ReuseProofs.SecondPageIsRightIff`). The matches it returns, and pages without an occurrence,
  are right anyway.
* Reported positions go backwards when a report is lost in a crash and the next session reports before it has
  caught up (`RelayProofs.ReportsGoBack`). They keep their order exactly if every session has caught up when
  it reports for the first time (`RelayProofs.ReportsKeepOrderIff`). The confirmed position never goes back.
* Replacing a glyph by its width keeps the text state exactly if no spacing applies to the glyph or the text
  space is degenerate (`TextLayout.AdjustmentIsExactIff`), and a page keeps all its text states exactly if
  this holds at every removed glyph (`RemovalTheorems.RemoveKeepsStatesIff`). Elsewhere kept glyphs can move
  (`RemovalTheorems.LayoutShifts`), as the source's own documentation says.
* The fill merge ends exactly if the bottom curve reaches as far as the top one (`FillMerge.MergeEndsIff`),
  which the two curves of a filled series always do.

Assumptions about the surroundings: one byte is one glyph and one character, each string of a text operation
is rendered by one call before the operation is written, and there are no form XObjects; x values increase
strictly; `equals` is an equivalence, equal keys have equal hashes, and hashes are strings; the server
streams every transaction that ends after the start position in commit order, and announces a relation
before its first insert in a session. Clock readings, received pieces and messages are parameters.

No proof relies on automatic induction: each inductive proof is written out.

`sql-data-partitioning/docs` holds several copies of the three scripts; the rows cite those of report-01.

## Model

| member | source | states |
|---|---|---|
| RemovalTheorems.RemoveDeletesOccurrences | pdf-itext5-samples/src/main/java/com.mageddo.itext5.feelingswheel/SimpleTextRemover.java:98-205 | for every page and non-empty string: the text shown afterwards is the page's text with exactly the greedy leftmost non-overlapping occurrences deleted; every other glyph, number and operation is kept in order; exactly one adjustment per deleted glyph, so the string's length per match, is inserted |
| RemovalTheorems.RemoveKeepsLayout | pdf-itext5-samples/src/main/java/com.mageddo.itext5.feelingswheel/SimpleTextRemover.java:171-246 | if no character or word spacing adds a space after a removed glyph, every kept glyph is shown in the same text state and position, and the page ends in the same state, for Tj, TJ, ' and " |
| RemovalTheorems.RemoveKeepsStatesIff | pdf-itext5-samples/src/main/java/com.mageddo.itext5.feelingswheel/SimpleTextRemover.java:171-246 | for every page, string and start state: the text state runs through the same values on the new page as on the old one exactly if no space is added after a removed glyph |
| RemovalTheorems.LayoutShifts | pdf-itext5-samples/src/main/java/com.mageddo.itext5.feelingswheel/SimpleTextRemover.java:192-192 | a page with character spacing on which a kept glyph is shown at another position, in every text state that is not degenerate (the limitation named at lines 52-54) |
| PageProofs.RemoveIsRewrite | pdf-itext5-samples/src/main/java/com.mageddo.itext5.feelingswheel/SimpleTextRemover.java:98-205 | streaming through buffer, counters and queues produces exactly the one-pass rewriting of the page under the mask of the greedy occurrences, returns their glyph lists, and leaves the buffer and the match queue empty |
| PageProofs.BufferingInvariant | pdf-itext5-samples/src/main/java/com.mageddo.itext5.feelingswheel/SimpleTextRemover.java:98-169 | after each operation of any page: the buffer is the unprocessed end of the page, processed plus buffered strings equal `elementNumber + 1`, the buffer is empty or headed by the text operation with the first pending glyph, and no pending or matched glyph lies in what was written |
| PageProofs.MatcherIsExact | pdf-itext5-samples/src/main/java/com.mageddo.itext5.feelingswheel/SimpleTextRemover.java:254-290 | after each operation the matches so far are the greedy leftmost non-overlapping occurrences in the text so far, and the pending match is the longest suffix since the last match that is a proper prefix of the string |
| PageProofs.FlushIsDrain | pdf-itext5-samples/src/main/java/com.mageddo.itext5.feelingswheel/SimpleTextRemover.java:111-124 | with the started match dropped nothing is refused, so the failure branch of flushing is unreachable and the buffer is emptied |
| ReuseProofs.ReuseIsRightIff | pdf-itext5-samples/src/main/java/com.mageddo.itext5.feelingswheel/SimpleTextRemover.java:78-90 | since the counter of processed strings is not reset: for every non-empty string, all pages come out right exactly if that counter is 0 at the call |
| ReuseProofs.ReuseGoesWrong | pdf-itext5-samples/src/main/java/com.mageddo.itext5.feelingswheel/SimpleTextRemover.java:78-90 | for every non-empty string and every counter above 0, a page that comes out wrong: a stray byte before the string is removed |
| ReuseProofs.RemoveCounts | pdf-itext5-samples/src/main/java/com.mageddo.itext5.feelingswheel/SimpleTextRemover.java:78-205 | a page adds the number of its strings to the counter, whatever it was |
| ReuseProofs.SecondPageIsRightIff | pdf-itext5-samples/src/main/java/com.mageddo.itext5.feelingswheel/SimpleTextRemover.java:78-90 | after the first page of a fresh remover, and for every string, every page comes out right exactly if the first page held no string |
| ReuseProofs.MatchesAreRightAnyway | pdf-itext5-samples/src/main/java/com.mageddo.itext5.feelingswheel/SimpleTextRemover.java:78-90 | whatever the counter, the matches returned are the occurrences on the page |
| ReuseProofs.NoStringsCopied | pdf-itext5-samples/src/main/java/com.mageddo.itext5.feelingswheel/SimpleTextRemover.java:160-169 | whatever the counter, an operation without strings is copied as it is |
| ReuseProofs.NoOccurrenceNoChange | pdf-itext5-samples/src/main/java/com.mageddo.itext5.feelingswheel/SimpleTextRemover.java:154-170 | whatever the counter, a page without an occurrence is copied unchanged |
| BufferProofs.ProcessStep | pdf-itext5-samples/src/main/java/com.mageddo.itext5.feelingswheel/SimpleTextRemover.java:130-169 | trying to write the first buffered operation either keeps the invariant with that operation written, or is refused because the first pending glyph lies in that operation |
| BufferProofs.EmittedStep | pdf-itext5-samples/src/main/java/com.mageddo.itext5.feelingswheel/SimpleTextRemover.java:254-270 | one more glyph never changes the mask over what is already written |
| SpliceProofs.ProcessShowIsRewrite | pdf-itext5-samples/src/main/java/com.mageddo.itext5.feelingswheel/SimpleTextRemover.java:154-205 | an accepted text operation is written as its rewriting under the marks of its own glyphs, and takes exactly those glyphs off the queue |
| SpliceProofs.SpliceElementsIsRewrite | pdf-itext5-samples/src/main/java/com.mageddo.itext5.feelingswheel/SimpleTextRemover.java:171-200 | the nested splicing loops replace exactly the queued glyphs of the array by adjustments of minus their width and keep every number and run of other glyphs |
| SpliceProofs.SpliceStringIsRewrite | pdf-itext5-samples/src/main/java/com.mageddo.itext5.feelingswheel/SimpleTextRemover.java:178-198 | the same for one string from any index on |
| SpliceProofs.RewriteElementsShows | pdf-itext5-samples/src/main/java/com.mageddo.itext5.feelingswheel/SimpleTextRemover.java:241-246 | a rewritten operation with any glyph never has an empty array, so it is never dropped |
| RemoverProofs.MatcherStep | pdf-itext5-samples/src/main/java/com.mageddo.itext5.feelingswheel/SimpleTextRemover.java:254-270 | each glyph keeps the matcher exact: matches, pending match and resumption point |
| RemoverProofs.ReduceIsLongest | pdf-itext5-samples/src/main/java/com.mageddo.itext5.feelingswheel/SimpleTextRemover.java:277-290 | the shortened pending match is its longest proper suffix that still spells a prefix of the string |
| Occurrences.GreedySnoc | pdf-itext5-samples/src/main/java/com.mageddo.itext5.feelingswheel/SimpleTextRemover.java:254-270 | one more character adds at most one greedy occurrence: the one that ends there and starts after the previous one |
| Occurrences.MaskIsRemoval | pdf-itext5-samples/src/main/java/com.mageddo.itext5.feelingswheel/SimpleTextRemover.java:78-90 | erasing the masked positions is the same as deleting the greedy occurrences, and the mask marks the string's length per occurrence |
| TextLayout.AdjustmentIsExactIff | pdf-itext5-samples/src/main/java/com.mageddo.itext5.feelingswheel/SimpleTextRemover.java:192-192 | replacing a glyph by minus its width keeps the text state exactly if no spacing applies to it, or the horizontal scale or the text matrix makes shifts vanish (the limitation named at lines 52-54) |
| TextLayout.LayoutKept | pdf-itext5-samples/src/main/java/com.mageddo.itext5.feelingswheel/SimpleTextRemover.java:171-246 | replacing glyphs after which no space is added by adjustments keeps the layout of all others and the final text state, under sections 9.4.3 and 9.4.4 of ISO 32000-1:2008 |
| TextLayout.StatesKeptIff | pdf-itext5-samples/src/main/java/com.mageddo.itext5.feelingswheel/SimpleTextRemover.java:171-246 | the text state after every event is kept exactly if no space is added after any replaced glyph |
| TextLayout.EventsOfRewrite | pdf-itext5-samples/src/main/java/com.mageddo.itext5.feelingswheel/SimpleTextRemover.java:171-246 | what a rewritten page shows and does is the original with each marked glyph replaced by its adjustment, side effects included |
| SimpleTextRemovers.SimpleTextRemover.Remove | pdf-itext5-samples/src/main/java/com.mageddo.itext5.feelingswheel/SimpleTextRemover.java:78-90 | the object's run over a page ends in the state of the specification; an empty string changes nothing; with a fresh counter the content is the rewriting of the page and nothing is left buffered |
| SimpleTextRemovers.SimpleTextRemover.EditPage | pdf-itext5-samples/src/main/java/com.mageddo.itext5.feelingswheel/SimpleTextRemover.java:88-124 | handling the operations one by one and finishing ends in the state of the specification |
| SimpleTextRemovers.SimpleTextRemover.Write | pdf-itext5-samples/src/main/java/com.mageddo.itext5.feelingswheel/SimpleTextRemover.java:98-104 | the loop that writes buffered operations refines the specified drain |
| SimpleTextRemovers.SimpleTextRemover.FinalizeContent | pdf-itext5-samples/src/main/java/com.mageddo.itext5.feelingswheel/SimpleTextRemover.java:111-124 | the flushing loop refines the specified flush with the pending match dropped |
| SimpleTextRemovers.SimpleTextRemover.Process | pdf-itext5-samples/src/main/java/com.mageddo.itext5.feelingswheel/SimpleTextRemover.java:130-143 | dispatches on the operation; false and no change with an empty buffer |
| SimpleTextRemovers.SimpleTextRemover.ProcessTextShowingOp | pdf-itext5-samples/src/main/java/com.mageddo.itext5.feelingswheel/SimpleTextRemover.java:154-205 | the method with its index loops refines the specified step, refusal included |
| SimpleTextRemovers.SimpleTextRemover.SpliceArray | pdf-itext5-samples/src/main/java/com.mageddo.itext5.feelingswheel/SimpleTextRemover.java:172-200 | the outer loop rewrites the array, counts its strings and takes the glyphs off `matches` |
| SimpleTextRemovers.SimpleTextRemover.SpliceEntry | pdf-itext5-samples/src/main/java/com.mageddo.itext5.feelingswheel/SimpleTextRemover.java:178-198 | the inner loop rewrites one string, dropping a match list when its last glyph is written |
| SimpleTextRemovers.SimpleTextRemover.CountStrings | pdf-itext5-samples/src/main/java/com.mageddo.itext5.feelingswheel/SimpleTextRemover.java:211-221 | the number of strings in the argument |
| SimpleTextRemovers.SimpleTextRemover.WriteSideEffect | pdf-itext5-samples/src/main/java/com.mageddo.itext5.feelingswheel/SimpleTextRemover.java:228-236 | " sets word and character spacing and moves to the next line, ' only moves, the others do nothing |
| SimpleTextRemovers.SimpleTextRemover.RenderText | pdf-itext5-samples/src/main/java/com.mageddo.itext5.feelingswheel/SimpleTextRemover.java:254-270 | the glyph loop refines the specified matcher |
| SimpleTextRemovers.SimpleTextRemover.ReduceToPartialMatch | pdf-itext5-samples/src/main/java/com.mageddo.itext5.feelingswheel/SimpleTextRemover.java:277-290 | the labelled loop refines the specified reduction |
| HermiteSplines.FritschCarlsonBounded | sql-data-partitioning/docs/report-01/report/content/js/curvedLines.js:253-267 | every interior monotone gradient is 0 at a change of sign, and always between 0 and 3 times either neighbouring slope |
| HermiteSplines.GradientsBounded | sql-data-partitioning/docs/report-01/report/content/js/curvedLines.js:250-277 | with `monotonicFit` both end gradients of every segment satisfy that bound |
| HermiteSplines.SegmentMonotone | sql-data-partitioning/docs/report-01/report/content/js/curvedLines.js:240-309 | with `monotonicFit` the cubic of every segment is monotone over the whole segment, in the direction of its data |
| HermiteSplines.SegmentInRange | sql-data-partitioning/docs/report-01/report/content/js/curvedLines.js:240-309 | with `monotonicFit` no segment leaves the range of its two data values |
| HermiteSplines.SegmentInterpolates | sql-data-partitioning/docs/report-01/report/content/js/curvedLines.js:279-305 | in every mode each segment passes through its two data points |
| HermiteSplines.DerivativeIsLimit | sql-data-partitioning/docs/report-01/report/content/js/curvedLines.js:296-303 | the derivative used below is the limit of the difference quotients of the evaluated cubic |
| HermiteSplines.SegmentGradients | sql-data-partitioning/docs/report-01/report/content/js/curvedLines.js:279-305 | each cubic leaves and arrives with the two gradients chosen for its ends |
| HermiteSplines.CurveIsSmooth | sql-data-partitioning/docs/report-01/report/content/js/curvedLines.js:279-305 | adjacent segments agree in value and first derivative at every interior point |
| HermiteSplines.CreateHermiteSplines | sql-data-partitioning/docs/report-01/report/content/js/curvedLines.js:232-309 | the loops give one cubic per segment through its two data points, with the wanted gradients at interior points from both sides (for `monotonicFit` the weighted harmonic mean of the slopes, in terms of the data alone, else the cardinal one) and the outer slopes at the ends; no division by zero |
| HermiteSplines.CubicDetermined | sql-data-partitioning/docs/report-01/report/content/js/curvedLines.js:296-303 | a cubic is determined by its values and gradients at two points, so the contract of the construction determines every segment |
| HermiteSplines.LineIsReproduced | sql-data-partitioning/docs/report-01/report/content/js/curvedLines.js:232-309 | data on a straight line are reproduced, by the monotone fit and by tension 1 |
| HermiteSplines.Segments | sql-data-partitioning/docs/report-01/report/content/js/curvedLines.js:236-248 | lengths and slopes of all segments |
| CurveSampling.CalculateSplineCurvePoints | sql-data-partitioning/docs/report-01/report/content/js/curvedLines.js:184-222 | the stepping loop emits exactly the specified samples: it stops after `n` points per segment |
| CurveSampling.SampleBelow | sql-data-partitioning/docs/report-01/report/content/js/curvedLines.js:202-212 | adding the step stays below the segment's end for exactly the first `n` samples |
| CurveSampling.SamplesShape | sql-data-partitioning/docs/report-01/report/content/js/curvedLines.js:184-222 | `n` samples per segment plus one, at equal distances, each on its segment's cubic, and every data point among them |
| CurveSampling.SamplesIncrease | sql-data-partitioning/docs/report-01/report/content/js/curvedLines.js:196-219 | the samples have strictly increasing x |
| CurveSampling.SamplesMonotone | sql-data-partitioning/docs/report-01/report/content/js/curvedLines.js:184-222 | with `monotonicFit` a nondecreasing data set yields nondecreasing samples |
| FillMerge.MergeCurves | sql-data-partitioning/docs/report-01/report/content/js/curvedLines.js:136-162 | the two-index loop computes the specified merge, for any two sorted curves on which it ends |
| FillMerge.MergeEndsIff | sql-data-partitioning/docs/report-01/report/content/js/curvedLines.js:142-162 | for any two sorted curves the two-index loop ends exactly if the bottom curve reaches at least as far in x as the top one; otherwise only the exhausted bottom index advances, forever |
| FillMerge.MergeKeepsPoints | sql-data-partitioning/docs/report-01/report/content/js/curvedLines.js:142-162 | merging two sorted curves on which the loop ends keeps every point of both |
| FillMerge.MergeIncreases | sql-data-partitioning/docs/report-01/report/content/js/curvedLines.js:142-162 | the merged x values increase strictly |
| FillMerge.MergeIsExact | sql-data-partitioning/docs/report-01/report/content/js/curvedLines.js:142-162 | the merge has the x values of both curves and no others, in strictly increasing order, keeps every point, and carries at each x the last value that each curve had there |
| FillMerge.FillIsZip | sql-data-partitioning/docs/report-01/report/content/js/curvedLines.js:129-162 | top and bottom curve have the same x list, so the merge is their zip |
| FillMerge.FillCurve | sql-data-partitioning/docs/report-01/report/content/js/curvedLines.js:129-162 | the filled curve is the zip (x, top, bottom) of the two sampled curves |
| FillMerge.FillLegacyCurve | sql-data-partitioning/docs/report-01/report/content/js/curvedLines.js:129-162 | with the legacy option too, both curves have the same x list, and the result is the zip (x, top, bottom) of their samples |
| NaturalSplines.PivotBounds | sql-data-partitioning/docs/report-01/report/content/js/curvedLines.js:401-403 | a coefficient in [-1, 0] makes a pivot in [1, 2] and a next coefficient in [-1, 0]: elimination never divides by zero |
| NaturalSplines.SolveSystem | sql-data-partitioning/docs/report-01/report/content/js/curvedLines.js:386-410 | elimination and back substitution in place leave in `y2` a solution of the whole tridiagonal system with both ends 0 |
| NaturalSplines.ForwardSweep | sql-data-partitioning/docs/report-01/report/content/js/curvedLines.js:390-406 | the forward loop leaves the specified coefficients and right sides in the two arrays |
| NaturalSplines.BackSubstitute | sql-data-partitioning/docs/report-01/report/content/js/curvedLines.js:408-410 | the backward loop overwrites the coefficients by the solution |
| NaturalSplines.EliminationSolves | sql-data-partitioning/docs/report-01/report/content/js/curvedLines.js:394-410 | the eliminated rows with back substitution satisfy every original row |
| NaturalSplines.SolutionIsUnique | sql-data-partitioning/docs/report-01/report/content/js/curvedLines.js:394-410 | the system has exactly one solution: what the code computes |
| NaturalSplines.PieceTaylor | sql-data-partitioning/docs/report-01/report/content/js/curvedLines.js:449-452 | the sampled expression is a cubic with the stated first and second derivative at every point |
| NaturalSplines.PieceAtKnots | sql-data-partitioning/docs/report-01/report/content/js/curvedLines.js:449-452 | each piece passes through its knots and has the solved second derivatives there |
| NaturalSplines.CurveIsC2 | sql-data-partitioning/docs/report-01/report/content/js/curvedLines.js:394-456 | adjacent pieces agree in value, first and second derivative at every interior knot, and the second derivative is 0 at both ends |
| LegacyCurve.FindPiece | sql-data-partitioning/docs/report-01/report/content/js/curvedLines.js:429-439 | the binary search ends with adjacent indices around the piece of the sample, whatever the sample |
| LegacyCurve.BracketUnique | sql-data-partitioning/docs/report-01/report/content/js/curvedLines.js:429-439 | with increasing knots that piece is unique |
| LegacyCurve.CurveInterpolates | sql-data-partitioning/docs/report-01/report/content/js/curvedLines.js:425-456 | the curve passes through every knot, whichever piece the search picks |
| LegacyCurve.SampleCurve | sql-data-partitioning/docs/report-01/report/content/js/curvedLines.js:412-456 | every sample lies on the natural spline, at equal distances from the first knot |
| LegacyCurve.SamplesMeetKnots | sql-data-partitioning/docs/report-01/report/content/js/curvedLines.js:412-456 | samples start and end at the first and last knots, are at equal distances, and pass through any knot they hit |
| LegacyCurve.PrepareData | sql-data-partitioning/docs/report-01/report/content/js/curvedLines.js:326-384 | the data as they are, or for `fit` a triple around each point, at the given distance or at the x range divided by 50000 |
| LegacyCurve.FitKeepsOrderIff | sql-data-partitioning/docs/report-01/report/content/js/curvedLines.js:326-373 | the triples are in strictly increasing order exactly if the distance is positive and less than half of every gap |
| LegacyCurve.CalculateLegacyCurvePoints | sql-data-partitioning/docs/report-01/report/content/js/curvedLines.js:313-459 | the whole legacy curve: the stated number of samples, each on the natural spline of the prepared data |
| HashtableTheorems.RunAgrees | sql-data-partitioning/docs/report-01/report/content/js/hashtable.js:216-382 | any sequence of operations, `putAll` with or without a callback included, gives the replies of a plain map, ends in that map, and keeps the layout invariant |
| HashtableProofs.PutIsUpdate | sql-data-partitioning/docs/report-01/report/content/js/hashtable.js:216-245 | `put` is map update, returns the replaced value, and keeps non-empty buckets, one per hash, without equal keys |
| HashtableProofs.PutStoresKey | sql-data-partitioning/docs/report-01/report/content/js/hashtable.js:223-243 | with `replaceDuplicateKey` the latest of equal keys is stored, and without it the first one |
| HashtableProofs.PutKeepsPlaces | sql-data-partitioning/docs/report-01/report/content/js/hashtable.js:216-245 | every entry keeps its place in the table, a replaced one too, and other keys keep their entries |
| HashtableTheorems.ListedIsStored | sql-data-partitioning/docs/report-01/report/content/js/hashtable.js:295-307 | the keys that the table lists are the stored ones |
| HashtableProofs.GetIsLookup | sql-data-partitioning/docs/report-01/report/content/js/hashtable.js:247-263 | `get` is map lookup |
| HashtableProofs.RemoveIsDelete | sql-data-partitioning/docs/report-01/report/content/js/hashtable.js:309-331 | `remove` is map deletion, returns the deleted value, and leaves no empty bucket |
| HashtableTheorems.SizeIsCardinality | sql-data-partitioning/docs/report-01/report/content/js/hashtable.js:333-339 | the sum of bucket sizes is the number of keys of the map |
| HashtableTheorems.AggregateIsFlat | sql-data-partitioning/docs/report-01/report/content/js/hashtable.js:295-307 | the listing has as many entries as the table, and the same ones |
| HashtableTheorems.EqualsIffSameMap | sql-data-partitioning/docs/report-01/report/content/js/hashtable.js:351-365 | the one-sided comparison after the size check holds exactly if the two tables stand for the same map |
| HashtableTheorems.PutAllIsUnion | sql-data-partitioning/docs/report-01/report/content/js/hashtable.js:367-382 | `putAll` overrides the map by the other's and keeps the invariant |
| HashtableTheorems.PutAllResolves | sql-data-partitioning/docs/report-01/report/content/js/hashtable.js:367-382 | under any conflict callback, every entry of the other table is stored with what the callback chooses from its key, this table's value and the entry's value when this table holds a truthy one, and with its own value otherwise; all other keys stay |
| HashtableTheorems.CloneReverses | sql-data-partitioning/docs/report-01/report/content/js/hashtable.js:384-388 | a clone denotes the same map, keeps the bucket order and reverses the entries inside each bucket; a clone of a clone has the original layout |
| Hashtables.Hashtable.Put | sql-data-partitioning/docs/report-01/report/content/js/hashtable.js:216-245 | the object keeps list and index holding the same buckets and becomes the updated map |
| Hashtables.Hashtable.Get | sql-data-partitioning/docs/report-01/report/content/js/hashtable.js:247-263 | the value of the key in the map |
| Hashtables.Hashtable.ContainsKey | sql-data-partitioning/docs/report-01/report/content/js/hashtable.js:265-273 | whether the map has the key |
| Hashtables.Hashtable.ContainsValue | sql-data-partitioning/docs/report-01/report/content/js/hashtable.js:275-284 | whether some key of the map has the value |
| Hashtables.Hashtable.Clear | sql-data-partitioning/docs/report-01/report/content/js/hashtable.js:286-289 | empties list and index |
| Hashtables.Hashtable.IsEmpty | sql-data-partitioning/docs/report-01/report/content/js/hashtable.js:291-293 | true exactly for the empty map: no bucket is empty |
| Hashtables.Hashtable.Entries | sql-data-partitioning/docs/report-01/report/content/js/hashtable.js:295-307 | the last bucket's entries first, each bucket in its own order |
| Hashtables.Hashtable.Remove | sql-data-partitioning/docs/report-01/report/content/js/hashtable.js:309-331 | the object becomes the map without the key; an emptied bucket leaves both list and index |
| Hashtables.Hashtable.SearchBuckets | sql-data-partitioning/docs/report-01/report/content/js/hashtable.js:175-184 | the index of the bucket of a hash |
| Hashtables.Hashtable.Size | sql-data-partitioning/docs/report-01/report/content/js/hashtable.js:333-339 | the number of keys of the map |
| Hashtables.Hashtable.Equals | sql-data-partitioning/docs/report-01/report/content/js/hashtable.js:351-365 | true exactly if both tables stand for the same map |
| Hashtables.Hashtable.PutAll | sql-data-partitioning/docs/report-01/report/content/js/hashtable.js:367-382 | every entry of the other table is stored under the conflict rule, spelled out in terms of the callback, in the layout of putting the listing from its end; without a callback the map is overridden by the other's |
| Hashtables.Hashtable.Clone | sql-data-partitioning/docs/report-01/report/content/js/hashtable.js:384-388 | a new table with none of the old objects, the same map, and each bucket's entries reversed |
| Hashtables.HashBucket.Search | sql-data-partitioning/docs/report-01/report/content/js/hashtable.js:95-113 | the last entry with an equal key |
| Hashtables.HashBucket.RemoveEntryForKey | sql-data-partitioning/docs/report-01/report/content/js/hashtable.js:133-140 | takes exactly that entry out and returns its value |
| Hashtables.HashBucket.ContainsValue | sql-data-partitioning/docs/report-01/report/content/js/hashtable.js:160-168 | whether some entry has the value |
| RelayProofs.ReportedIsAttempted | transactional-outbox-pglogrepl/main.go:38-263 | over any run with any number of crashes and restarts, every insert of every transaction that ends after the slot's start and at or before a reported position has been attempted, with its own content |
| RelayProofs.AttemptsArePrefix | transactional-outbox-pglogrepl/main.go:38-263 | the attempts without replays are a prefix of the committed inserts after the slot's start, in order, and every attempt sends its insert |
| RelayProofs.ConfirmedNeverGoesBack | transactional-outbox-pglogrepl/main.go:105-124 | over any run the position confirmed to the server never goes back |
| RelayProofs.ReportsNeverGoBack | transactional-outbox-pglogrepl/main.go:105-124 | over any run in which no report is lost in a crash, reported positions never go back, restarts included |
| RelayProofs.ReportsKeepOrderIff | transactional-outbox-pglogrepl/main.go:38-216 | for every run with any crashes and restarts, reported positions keep their order exactly if each session that reports has, at its first report, caught up with the last report before it |
| RelayProofs.ReportsGoBack | transactional-outbox-pglogrepl/main.go:38-216 | a concrete run with one crash in which position 5 is reported and then position 1 |
| RelaySessions.SessionListens | transactional-outbox-pglogrepl/main.go:38-103 | a run of the system within one session is a run of the client's loop: same state, same reports, same sent inserts |
| RelaySessions.SessionSendsPieceOfLog | transactional-outbox-pglogrepl/main.go:38-216 | a client started at the confirmed position in any reachable state sends a gapless piece of the log from that position on, and with every position it reports, everything up to there |
| RelaySessions.PingIsAnswered | transactional-outbox-pglogrepl/main.go:84-86 | a request for a reply is answered by a report of the position at the very next iteration, whenever that is and whatever it receives |
| RelaySessions.PingAppendsReport | transactional-outbox-pglogrepl/main.go:52-124 | in the system, after such a request and anything besides the loop, the loop's next iteration appends the position to the reports |
| RelaySessions.CaughtUpReportsTop | transactional-outbox-pglogrepl/main.go:38-263 | in every reachable state in which everything has been streamed, the client stands at the end of the log, and reports that when asked |
| RelaySessions.NextMoves | transactional-outbox-pglogrepl/main.go:241-263 | streaming an insert sends it and leaves the position; streaming a commit moves the position to its end |
| RelaySessions.ReportsWhenDue | transactional-outbox-pglogrepl/main.go:105-124 | without a request the next report is sent when more than ten seconds have passed since the last one, and not before |
| RelaySessions.FirstReportWhenDue | transactional-outbox-pglogrepl/main.go:42-53 | the first report of a session is sent when more than ten seconds have passed since it began |
| RelaySessions.QuietIteration | transactional-outbox-pglogrepl/main.go:55-72 | a timeout, an unexpected message or a keepalive without a request changes nothing but the deadline of a report that is due |
| RelaySessions.StopsIff | transactional-outbox-pglogrepl/main.go:52-102 | the process stops exactly at a message it cannot read or an insert of an unknown relation, which is not sent |
| RelaySessions.NothingAfterStop | transactional-outbox-pglogrepl/main.go:52-102 | once it has stopped nothing more happens |
| RelayProofs.NeverDies | transactional-outbox-pglogrepl/main.go:241-263 | no message the server can send in any reachable state stops the process at an unknown relation |
| RelayProofs.StepKeeps | transactional-outbox-pglogrepl/main.go:38-263 | every step of log, slot, session, delivery and crash keeps the invariant of the system |
| Relays.Relay.SendOffsetUpdateWhenNeeded | transactional-outbox-pglogrepl/main.go:105-124 | reports the position once the deadline has passed, and only then moves the deadline |
| Relays.Relay.Process | transactional-outbox-pglogrepl/main.go:241-263 | relations are remembered, inserts attempted, commits move the position |
| Relays.Relay.Iteration | transactional-outbox-pglogrepl/main.go:52-102 | one pass of the loop: the report that is due first, then one message |
| Relays.Relay.ListenEvents | transactional-outbox-pglogrepl/main.go:38-103 | the loop over any finite run of waits, until the process stops, reports and attempts what `Listen` says, to which `RelaySessions` ties the system |
| Cookies.CookiesRoundTrip | sql-data-partitioning/docs/report-01/report/content/js/jquery.cookie.js:23-103 | for any cookies with distinct names and values written in the default mode and joined as in section 4.2.1 of RFC 6265: reading one non-empty name gives exactly its value, or nothing if it is not there, and reading all gives the whole map |
| Cookies.TextsOfJar | sql-data-partitioning/docs/report-01/report/content/js/jquery.cookie.js:83-83 | splitting at the separator gives back the written cookies, since no encoded text contains it |
| Cookies.SplitsCookie | sql-data-partitioning/docs/report-01/report/content/js/jquery.cookie.js:86-88 | splitting at `=` separates the encoded name from the encoded value |
| Cookies.ParsesValue | sql-data-partitioning/docs/report-01/report/content/js/jquery.cookie.js:35-48 | an encoded value is never taken for a quoted one, has no plus, and decodes to the value |
| Cookies.ReadCookie | sql-data-partitioning/docs/report-01/report/content/js/jquery.cookie.js:78-102 | for any cookies: the value of the first one of the name, which is no value if it cannot be decoded; an exception if a name before it cannot be decoded |
| Cookies.ReadCookies | sql-data-partitioning/docs/report-01/report/content/js/jquery.cookie.js:78-102 | for any cookies: an exception if any name cannot be decoded, and otherwise the last value of every name, with values that cannot be decoded skipped |
| Cookies.ParsesPlain | sql-data-partitioning/docs/report-01/report/content/js/jquery.cookie.js:35-48 | any value that does not begin with a quote: what is between its pluses is decoded and joined by blanks, and there is no value if any part cannot be decoded |
| Cookies.ParsesQuoted | sql-data-partitioning/docs/report-01/report/content/js/jquery.cookie.js:36-39 | unquoting undoes the quoting of RFC 2068 for every value, which is then read like a plain one |
| Cookies.CutsAtFirst | sql-data-partitioning/docs/report-01/report/content/js/jquery.cookie.js:86-88 | any cookie is cut at its first `=`, and one without it is all name |
| PercentEncoding.DecodeEncode | sql-data-partitioning/docs/report-01/report/content/js/jquery.cookie.js:23-29 | decoding inverts percent-encoding (section 2.1 of RFC 3986, over UTF-8) for every string of Unicode scalar values |
| PercentEncoding.DecodeAround | sql-data-partitioning/docs/report-01/report/content/js/jquery.cookie.js:27-29 | decoding on the two sides of a character outside escapes is independent |
| PercentEncoding.FromUtf8Iff | sql-data-partitioning/docs/report-01/report/content/js/jquery.cookie.js:27-29 | octets are read as a character exactly if they are its UTF-8 form |
| PercentEncoding.DecodeSpelled | sql-data-partitioning/docs/report-01/report/content/js/jquery.cookie.js:27-29 | escaped octets are read, however they are escaped |
| PercentEncoding.HexIff | sql-data-partitioning/docs/report-01/report/content/js/jquery.cookie.js:23-29 | hexadecimal digits are written in upper case and read in either case |
| PercentEncoding.KeptIff | sql-data-partitioning/docs/report-01/report/content/js/jquery.cookie.js:23-25 | a character is written as it is exactly if it is a letter, a digit or one of nine marks |
| PercentEncoding.EncodedIsSafe | sql-data-partitioning/docs/report-01/report/content/js/jquery.cookie.js:23-25 | encoded text contains no separator, quote, plus or blank |
| PercentEncoding.Utf8RoundTrip | sql-data-partitioning/docs/report-01/report/content/js/jquery.cookie.js:23-29 | the UTF-8 form of every character decodes to it, with the length its first octet announces |
| TextSplit.SplitJoin | sql-data-partitioning/docs/report-01/report/content/js/jquery.cookie.js:83-88 | splitting undoes joining when no part contains the separator's first character |
| Headers.DecodeIsCompositional | transactional-outbox-pglogrepl/producer-record/headers.go:26-45 | for all texts, decoding `s;t` is decoding `s` overridden by decoding `t` |
| Headers.IgnoredIff | transactional-outbox-pglogrepl/producer-record/headers.go:32-42 | a piece of text between two others affects nothing, whatever they are, exactly if it holds no header itself: malformed and blank tokens affect nothing else |
| Headers.TokenHoldsIff | transactional-outbox-pglogrepl/producer-record/headers.go:12-41 | a token holds a header exactly if it is a key, a colon and a value in base64, with white space around; any other holds none |
| Headers.HeadersRoundTrip | transactional-outbox-pglogrepl/producer-record/headers.go:12-45 | printing any headers with good keys, and decoding the text, gives the headers back |
| Headers.HeadersSurviveIff | transactional-outbox-pglogrepl/producer-record/headers.go:12-45 | any list of headers survives printing and decoding exactly if each key is not empty, has no `:` or `;` and does not begin with white space |
| Headers.BlankText | transactional-outbox-pglogrepl/producer-record/headers.go:28-30 | the early return for blank text agrees with the loop |
| Headers.DecodeHeadersFromBase64 | transactional-outbox-pglogrepl/producer-record/headers.go:26-45 | the loop computes the override of what each token adds |
| Base64.Base64RoundTrip | transactional-outbox-pglogrepl/producer-record/headers.go:17-17 | decoding inverts the encoding of section 4 of RFC 4648 for all octets |
| Base64.SymbolIs | transactional-outbox-pglogrepl/producer-record/headers.go:17-17 | the alphabet is that of section 4 of RFC 4648 |
| Base64.ReadsIff | transactional-outbox-pglogrepl/producer-record/headers.go:17-17 | exactly the texts of whole groups with padding only at the end are read |
| Base64.BreaksAreIgnored | transactional-outbox-pglogrepl/producer-record/headers.go:17-17 | line breaks are ignored wherever they are |
| Framing.VerdictMeans | resteasy-idle-connection-mve/scripts/server.py:37-53 | in terms of the header's bytes: no readable path fails, `/silent` silences a connection that is used again, `/close` closes, and anything else goes on |
| Framing.Handle | resteasy-idle-connection-mve/scripts/server.py:27-53 | for every way of cutting the same bytes into receives the same headers are extracted and the connection ends for the same reason; headers with their terminators plus `pending` are the bytes received; no header contains the terminator; every header before the last lets the loop go on, the last one gives the reason, and the first one is never silenced |
| Framing.Fill | resteasy-idle-connection-mve/scripts/server.py:30-35 | receives until a whole header is pending or the peer closes, losing nothing |
| Framing.FirstStaysFirst | resteasy-idle-connection-mve/scripts/server.py:30-36 | whatever else arrives, the first terminator (section 2.1 of RFC 9112) stays the first |
| Framing.ServeStep | resteasy-idle-connection-mve/scripts/server.py:36-53 | what is extracted from pending bytes is what a server extracts that sees all bytes at once |
| Batches.Batch.Rearrange | jdbc/src/main/java/cassandra/Threads.java:54-63 | the in-place loop and `removeIf` leave exactly the gathered non-empty lists; a negative size ends in an index error and size 0 in a division by zero, both without effect |
| Batches.Batch.MoveRecords | jdbc/src/main/java/cassandra/Threads.java:55-61 | the loop leaves the gathered records in the first lists and the others empty |
| Batches.Batch.RemoveEmpty | jdbc/src/main/java/cassandra/Threads.java:62-62 | keeps exactly the non-empty lists, in order |
| Batches.RearrangedConserves | jdbc/src/main/java/cassandra/Threads.java:54-63 | every record is kept with its multiplicity, at most `batchSize` lists remain, none is empty, and each is the in-order concatenation of lists r, r+B, r+2B, ... |
| Batches.RearrangedInOrder | jdbc/src/main/java/cassandra/Threads.java:54-63 | the k-th surviving list is the concatenation for the k-th residue that has any record, so the survivors keep the order of their residues |
| Batches.RearrangedTwice | jdbc/src/main/java/cassandra/Threads.java:54-63 | regrouping again with the same size changes nothing |

## Left out

- Floating point: rounding, the "inside the ulp" loop (curvedLines.js 353-359), and the guards against equal x (curvedLines.js 396-399 and 444-447), which are dead when x increases strictly.
- Curves: points packed in one array with a point size (x and y are separate lists, a result is a list of pairs), stacked plots, option checking; curves with a single point, which the source leaves alone.
- LegacyCurve.CalculateLegacyCurvePoints: requires a `fit` distance that keeps the triples in order (the exact condition is `LegacyCurve.FitKeepsOrderIff`), because the source divides by differences of neighbouring x, which out of order can be 0 and then give infinities and NaN.
- FillMerge.FillLegacyCurve: requires such a `fit` distance for the same reason.
- LegacyCurve.PrepareData: requires a `fit` distance other than 0, on which the source's search for a larger one never ends.
- Text remover: parsing, fonts, form XObjects, `PdfContentStreamEditor` (not part of this model); glyphs of several bytes or characters; array entries other than strings and numbers; glyph positions in the returned lists.
- RemovalTheorems.RemoveKeepsLayout: is a sufficient condition for the kept glyphs; a shift can be undone before the next kept glyph, by a line break for instance. The exact condition for the text state after every event is `RemovalTheorems.RemoveKeepsStatesIff`.
- Hash table: a conflict callback with side effects or without a value, the hash `"__proto__"`, null and undefined arguments, `hashObject`, `each`, `toQueryString`; `keys` and `values` are the components of `Entries`.
- Hashtables.Hashtable.Equals: requires the other table to have the same hash and equality functions, without which the two maps are over different classes of keys.
- Hashtables.Hashtable.PutAll: requires the same, since equal keys of one table could be different ones of the other.
- Relay: streamed transactions (the flag is never set), delivery to Kafka (a failed send is only logged, so attempts are counted), connection and publication set-up, record mapping, a server that forgets its confirmed position; unreadable messages and error responses are one event that ends the process.
- RelayProofs.ReportsNeverGoBack: is the sufficient condition that no report is lost; the exact one is `RelayProofs.ReportsKeepOrderIff`.
- Cookies: the raw and JSON modes, attributes and expiry, converter functions, `removeCookie`; the name `"__proto__"`, for which the source stores nothing when it reads all cookies; strings with lone surrogates, which the encoder refuses, have no representation here.
- Headers: mapping into Kafka headers, and Go strings that are not valid UTF-8.
- Server: TLS, logging, waiting, response bytes, and the forwarding loop of the tunnel.
- `Threads`: the thread pool and the flushing of futures.
- All other parts of the repository: database access, user interfaces, service wiring, native agents, dashboards and tracing.
