# VaireDB verification

A Dafny model of the parts of VaireDB, a distributed SQL database written in Rust, whose
correctness rests on arithmetic, on parsing back what was printed, or on what every
interleaving of steps keeps. `dafny verify dfyconfig.toml` checks all of it.

The project has six parts.

* **Exact statistics and averages** (`Numeric`, `PowerSums`, `Rounding`, `Runs`, `Batches`,
  `Statistics`, `Meaning`, `Sharding`, `Bigints`, `StatisticsAccumulator`, `Average`,
  `AverageAccumulator`, `GroupedAverage`). Bounded totals are added, retracted and merged
  across shards, then turned into one correctly rounded decimal by long division, an integer
  Newton root and a rounding test that avoids overflow. A `Run` is a tree of steps; it describes every split of the rows
  over shards and every merge order. The accumulators are classes with a ghost field for the
  run they have been through, so the theorems about runs speak about the objects. The
  machine integers (i256, i128, u128, u64) are unbounded integers with explicit checks.
* **Transported errors** (`Scan`, `Markers`, `Transported`, `Recovery`, `Decimals`, `Tag`).
  The `Debug` renderer is written as a printer, and recovering an error is proved to be its
  inverse up to eight layers.
* **Calendar arithmetic** (`Justify`, `Age`). The canonical form of an interval, and the borrow
  machine of `age` against a declarative count of whole months.
* **Ordered-set aggregates** (`Grouped`, `Arrangement`, `Ordering`, `Hypothetical`, `Mode`).
  One-pass loops against window functions and bags of rows, whatever the sharding.
* **The catalog** (`Namespace`, `Placement`, `Shards`). Write transactions as atomic steps, key
  ranges, and round-robin placement.
* **The anonymizing rewrite** (`Anonymize`). In-place rewriting of INSERT and UPDATE with the
  keyed digest as a parameter.

Where the source and its own comments disagree, the model follows the source:

* `prefix_range` is documented to cover exactly one table's keys. It also covers the key
  `name;`, and the shards of every table whose name starts with `name:` (`Shards.RangeIsPrefix`,
  `Shards.KeyInRange` give the exact condition; names without a colon are safe).
* Tables and views are documented to share one namespace. The unconditional upserts can break
  that, and CREATE OR REPLACE VIEW checks and upserts in two transactions
  (`Namespace.RunKeepsNamespace` gives the exact condition, `Namespace.ReplaceCanRace` the race).
* A replication factor above the node count plus one places a replica on one node twice when
  there is more than one node (`Placement.ReplicasDistinct`).
* `unescape` is documented to undo one level of `Debug` escaping. It does not undo `\0` or
  `\u{..}` (`Scan.EscapeRoundTrip`).
* `justify_interval` is documented to make the components agree in sign. A sub-microsecond
  remainder can be left with the other sign, and a month count past 32 bits is wrapped
  (`Justify.Justify`, `Justify.NotAlwaysCanonical`).
* The comment in `age_of` says the borrowed month is the larger operand's. The code borrows the
  smaller operand's (`Age.DifferenceBorrowsOnce` depends on it).
* The rewrite of anonymized columns is documented to refuse every form it cannot hash. It does
  not look at ON CONFLICT, so a DO UPDATE that sets an anonymized column goes out as written
  (`Anonymize.ConflictClausePassesThrough`; `Anonymize.InsertKeepsPromise` gives the exact
  condition). An `EXCLUDED` reference to an anonymized column is such an expression too, though
  what it stands for is already a digest.
* `strip_code_tags` is documented to remove every tag. Removing one can close up a new one from
  the text around it (`Tag.StripCanLeaveTag`; `Tag.StripExact` gives the exact condition).
* Splitting a group over shards never changes its totals, but it can change whether a statistic
  is refused, because a shard's state is sent in a decimal narrower than the type it is kept in
  (`Sharding.ShardsCanShow`; `Sharding.SplitShows` gives the exact condition).

## Model

| member | source | states |
|---|---|---|
| `Meaning.RunStatisticExact` | crates/vairedb-common/src/stats_udaf.rs:696-752 | End to end: for every run of accumulate, retract and merge steps over any shards, the run is refused exactly when some group on the way outgrows its types or the wire; the answer is NULL exactly below two rows for a sample statistic and one for a population one; and `result` is answered exactly when it is the variance (over n−1 or n) or its root, of the values left in any listing as decimals at the input scale, at sixteen places rounded half up, every checked intermediate fits, and it is under 10^38. |
| `Meaning.StatisticExact` | crates/vairedb-common/src/stats_udaf.rs:696-719 | The same for the totals of one group: NULL, number and refusal each characterised both ways, kind by kind. |
| `Meaning.PlacesAre` | crates/vairedb-common/src/stats_udaf.rs:243-249 | The power of ten the code scales by is 10^16 for the two variances and 10^32 under the root for the two deviations. |
| `Meaning.ResidualsAreDeviations` | crates/vairedb-common/src/stats_udaf.rs:40-58 | The one-pass numerator n·Σu² − (Σu)² is, up to the factor n, the sum of the squared distances from the mean: the mean never has to be computed. |
| `Meaning.SquaredDeviationsOverReals` | crates/vairedb-common/src/stats_udaf.rs:40-58 | The integer reference is the textbook sum of squared deviations from the mean over the real numbers. |
| `Meaning.ClampIsIdle` | crates/vairedb-common/src/stats_udaf.rs:725-732 | For the totals of any values the clamp at zero changes nothing, and the only refusals are the two products leaving i256. |
| `Meaning.ZeroMeansAllEqual` | crates/vairedb-common/src/stats_udaf.rs:725-732 | The sum of squared deviations is zero exactly when all values are equal. |
| `PowerSums.CauchySchwarz` | crates/vairedb-common/src/stats_udaf.rs:725-732 | n·Σu² ≥ (Σu)² for every sequence, with equality exactly when all values are equal. |
| `Meaning.FoldKeepsRatio` | crates/vairedb-common/src/stats_udaf.rs:739-752 | Moving the input scale to one side of the division keeps the fraction that is rounded. |
| `Meaning.RoundingOfEqualRatios` | crates/vairedb-common/src/stats_udaf.rs:739-752 | Equal fractions round alike, as quotients and as roots, so the fold cannot show in the answer. |
| `Meaning.OfRatioExact` | crates/vairedb-common/src/stats_udaf.rs:252-257 | The rounded ratio or root the code takes is the rounded statistic, exactly when the division fits. |
| `Rounding.ScaledDiv` | crates/vairedb-common/src/stats_udaf.rs:764-775 | Digit-by-digit division returns quotient and remainder of value·10^power by den, refusing exactly when the long division leaves i256. |
| `Rounding.LongDivision` | crates/vairedb-common/src/stats_udaf.rs:764-775 | What the division means: value·10^power = q·den + r with 0 ≤ r < den, without the product ever being formed. |
| `Rounding.RoundedDivExact` | crates/vairedb-common/src/stats_udaf.rs:781-790 | A value is returned exactly when it is the quotient rounded half up and the division fits. |
| `Rounding.RoundedSqrtExact` | crates/vairedb-common/src/stats_udaf.rs:795-816 | R is returned exactly when (2R−1)²·den ≤ 4·value·10^power < (2R+1)²·den (the lower half for R ≥ 1) and the division and the comparison product fit, through the branch where quadrupling overflows too. |
| `Rounding.NewtonRoot` | crates/vairedb-common/src/stats_udaf.rs:824-852 | Newton from the bit-length seed descends to the floor root with no addition overflowing i256, and at its result the guards of both correction loops are false. |
| `Rounding.NewtonStep` | crates/vairedb-common/src/stats_udaf.rs:824-852 | A Newton step never drops below the floor root, and one that does not descend has arrived at it. |
| `Rounding.SeedAboveRoot` | crates/vairedb-common/src/stats_udaf.rs:824-852 | The seed 2^ceil(bits/2) is above the root. |
| `Rounding.IntegerSqrt` | crates/vairedb-common/src/stats_udaf.rs:824-852 | r² ≤ v < (r+1)² for every non-negative i256, zero for a negative one; neither correction loop is entered, by the contract of NewtonRoot. |
| `Statistics.RunTotals` | crates/vairedb-common/src/stats_udaf.rs:464-490 | Every legal run that is accepted ends with n, Σu and Σu² of the multiset still in its frame, whatever the order, the shards and the merge order; it is refused exactly when a group on the way does not fit its types, or a shard's state the wire. |
| `Sharding.SplitShows` | crates/vairedb-common/src/stats_udaf.rs:528-537 | When the split can show: every way of gathering a bag of rows over shards is accepted exactly when it has at most 2^64 - 1 rows and Σu² is under 10^76; some way is exactly when its totals fit the types they are kept in; all accepted ways end with the same totals. |
| `Sharding.ShardsCanShow` | crates/vairedb-common/src/stats_udaf.rs:528-537 | Two values of 10^38 - 1: refused when one shard sends both, accepted when two shards send one each. |
| `Sharding.Ceilings` | crates/vairedb-common/src/stats_udaf.rs:111-122 | The ceilings of the answer and of the wire are 10^38 and 10^76. |
| `Sharding.LightRunAccepted` | crates/vairedb-common/src/stats_udaf.rs:464-490 | With retractions too: a run whose additions in all have at most 2^64 - 1 rows and squares under 10^76 is accepted in every order and split. |
| `Bigints.BigintRunAccepted` | crates/vairedb-common/src/stats_udaf.rs:464-490 | Over 64-bit integers a run is refused exactly when a row count overflows, whatever the shards. |
| `Bigints.DeviationAlwaysAnswers` | crates/vairedb-common/src/stats_udaf.rs:70-78 | Both deviations of every group of 64-bit integers are answered, correctly rounded and at most 2^64·10^16: no intermediate leaves i256 and the ceiling is out of reach. |
| `Bigints.RunDeviationAnswers` | crates/vairedb-common/src/stats_udaf.rs:70-78 | The same end to end over any run and any shards whose row counts fit. |
| `StatisticsAccumulator.Totals.Add` | crates/vairedb-common/src/stats_udaf.rs:466-472 | Adds one value to the three totals in place, refusing exactly when a checked operation overflows. |
| `StatisticsAccumulator.Totals.Remove` | crates/vairedb-common/src/stats_udaf.rs:475-481 | Takes one value out of the three totals in place, refusing exactly when a checked operation overflows. |
| `StatisticsAccumulator.Totals.Merge` | crates/vairedb-common/src/stats_udaf.rs:484-489 | Adds another shard's totals in place, refusing exactly when a checked operation overflows. |
| `StatisticsAccumulator.ExactStatistics.UpdateBatch` | crates/vairedb-common/src/stats_udaf.rs:567-582 | Each value joins the frame as often as a row of the column holds it, refused exactly when adding one of them is. For DISTINCT a value is seen exactly when it was or a row holds it. |
| `StatisticsAccumulator.ExactStatistics.RetractBatch` | crates/vairedb-common/src/stats_udaf.rs:584-601 | Each value leaves the frame as often as a row of the column holds it; retracting from DISTINCT is an internal error and changes nothing. |
| `StatisticsAccumulator.ExactStatistics.MergeBatch` | crates/vairedb-common/src/stats_udaf.rs:603-631 | The frame gains the frames of the shards whose state row is not null, in order; refused exactly when merging one of them is. |
| `StatisticsAccumulator.ExactStatistics.MergeDistinct` | crates/vairedb-common/src/stats_udaf.rs:673-688 | A value is seen exactly when it was, or some list that is not null has a row that holds it. |
| `Batches.NonNullByRow` | crates/vairedb-common/src/stats_udaf.rs:567-601 | What iterating over a nullable column yields: as many values as rows that hold one, each in its place among them. |
| `Batches.NonNullBag` | crates/vairedb-common/src/stats_udaf.rs:567-601 | As a bag: each value as often as there are rows that hold it. |
| `Batches.ListedValuesAre` | crates/vairedb-common/src/stats_udaf.rs:673-688 | The values of a column of lists are those some row of some list holds. |
| `StatisticsAccumulator.ExactStatistics.State` | crates/vairedb-common/src/stats_udaf.rs:633-645 | Sent exactly when Σu and Σu² are both under 10^76 in magnitude, as a state that merges on the other side as this accumulator's run. |
| `StatisticsAccumulator.ExactStatistics.TotalsNow` | crates/vairedb-common/src/stats_udaf.rs:554-563 | DISTINCT totals are those of the set of values, and neither they nor a refusal depend on the iteration order. |
| `StatisticsAccumulator.ExactStatistics.Evaluate` | crates/vairedb-common/src/stats_udaf.rs:647-656 | The answer over the totals of the recorded run, or of the set of distinct values. |
| `Average.RunTotals` | crates/vairedb-common/src/avg_udaf.rs:250-276 | A run that is accepted holds the count and the sum of its frame, and a run is refused exactly when an addition or merge on the way passes the row count or 10^38, or a retraction leaves i128. |
| `Average.SmallRunSucceeds` | crates/vairedb-common/src/avg_udaf.rs:250-276 | No run refuses while every group on the way has n·2^63 under 10^38. |
| `Average.AverageExact` | crates/vairedb-common/src/avg_udaf.rs:328-369 | NULL exactly for no rows; otherwise the quotient at sixteen places rounded half away from zero is answered exactly when its magnitude is under 10^38: no 128-bit intermediate refuses an answer that fits. |
| `Average.IntegerAverageAlwaysAnswers` | crates/vairedb-common/src/avg_udaf.rs:328-369 | For any group of 64-bit integers the average is never refused, is the correctly rounded one, and is at most 2^63·10^16 in magnitude. |
| `Average.RunAverageExact` | crates/vairedb-common/src/avg_udaf.rs:328-369 | End to end: any run over any shards that was not refused answers the rounded average of its frame. |
| `Average.RoundedQuotientExact` | crates/vairedb-common/src/avg_udaf.rs:353-369 | Whole part and scaled remainder computed apart give the rounded quotient of the scaled magnitude. |
| `Average.DistinctTotals` | crates/vairedb-common/src/avg_udaf.rs:391-402 | The fold over a set of distinct 64-bit integers never refuses and gives the count and sum of the set in every iteration order. |
| `Average.DistinctSumAtMost` | crates/vairedb-common/src/avg_udaf.rs:391-402 | Distinct integers of at most m add up to at most 1 + 2 + ... + m, which is why the ceiling is out of reach. |
| `AverageAccumulator.ExactAverageAccumulator.UpdateBatch` | crates/vairedb-common/src/avg_udaf.rs:435-450 | Each value joins the frame as often as a row of the column holds it, refused exactly when adding one of them is. For DISTINCT a value is seen exactly when it was or a row holds it. |
| `AverageAccumulator.ExactAverageAccumulator.RetractBatch` | crates/vairedb-common/src/avg_udaf.rs:452-468 | Each value leaves the frame as often as a row of the column holds it, a refusal being an internal error; so is any retraction from DISTINCT. |
| `AverageAccumulator.ExactAverageAccumulator.MergeBatch` | crates/vairedb-common/src/avg_udaf.rs:470-481 | Merging state rows is merging the runs they came out of, a null row standing for a shard that saw nothing. |
| `AverageAccumulator.ExactAverageAccumulator.MergeDistinct` | crates/vairedb-common/src/avg_udaf.rs:417-432 | A value is seen exactly when it was, or some list that is not null has a row that holds it. |
| `AverageAccumulator.ExactAverageAccumulator.State` | crates/vairedb-common/src/avg_udaf.rs:483-492 | The state sent is one that reads back as the totals of this run. |
| `AverageAccumulator.ExactAverageAccumulator.Evaluate` | crates/vairedb-common/src/avg_udaf.rs:494-501 | The average of the recorded run, or of the set of distinct values. |
| `GroupedAverage.SlotsAreAccumulators` | crates/vairedb-common/src/avg_udaf.rs:528-621 | Over every history of update and merge batches with group indices, nulls, three-valued filters and emissions, slot g holds one simple accumulator fed exactly the included rows of the group now in slot g, and a group without a slot has brought nothing. |
| `GroupedAverage.GroupAverageExact` | crates/vairedb-common/src/avg_udaf.rs:561-613 | End to end over every history: a group answers NULL exactly when its included rows hold no value, and otherwise the rounded average of all of them, those carried by merged states included. |
| `GroupedAverage.GroupAverageOfValues` | crates/vairedb-common/src/avg_udaf.rs:561-613 | A group fed values alone answers the rounded average of exactly those values. |
| `GroupedAverage.ReplayCarryable` | crates/vairedb-common/src/avg_udaf.rs:261-268 | Whatever arrived, every slot fits the columns its state is sent in. |
| `GroupedAverage.BatchExact` | crates/vairedb-common/src/avg_udaf.rs:561-598 | A batch succeeds exactly when every included row has a slot and every group's own fold succeeds, and then each slot is its group's fold. |
| `GroupedAverage.RowsByIndex` | crates/vairedb-common/src/avg_udaf.rs:553-598 | The rows a batch brings to a group are exactly those of its index whose filter is absent or true and whose value is not null, in order, each for its value or its two state cells. |
| `GroupedAverage.ContributionMeans` | crates/vairedb-common/src/avg_udaf.rs:308-319 | What one row brings: nothing under a filter that is false or NULL or for a null value; otherwise one value, or its state cells with a null read as zero. |
| `GroupedAverage.StateRoundTrip` | crates/vairedb-common/src/avg_udaf.rs:582-621 | Merging the state columns any history leaves into an empty accumulator rebuilds every slot. |
| `GroupedAverage.ExactAverageGroups.Widen` | crates/vairedb-common/src/avg_udaf.rs:530-532 | There are as many slots as announced, the old ones kept in place and the new ones empty. |
| `GroupedAverage.ExactAverageGroups.MergeRow` | crates/vairedb-common/src/avg_udaf.rs:535-541 | An index past the slots is an internal error; otherwise the merge succeeds exactly when no total overflows, and no other slot changes even when it is refused half way. |
| `GroupedAverage.ExactAverageGroups.Batch` | crates/vairedb-common/src/avg_udaf.rs:561-598 | The two batch loops: refused exactly when the specification of the batch is, and otherwise one more step of the recorded history. |
| `GroupedAverage.ExactAverageGroups.Emit` | crates/vairedb-common/src/avg_udaf.rs:544-546 | What is emitted and what stays are the old slots in order, split at the emitted count. |
| `GroupedAverage.ExactAverageGroups.Evaluate` | crates/vairedb-common/src/avg_udaf.rs:600-613 | One answer per emitted group, refused exactly when one of them is, the rest left in place. |
| `Recovery.TransportRoundTrip` | crates/vairedb-common/src/error/transported.rs:206-217 | A message that names no variant, wrapped in one or more well placed renderings (quoted, bare or displayed), comes back exactly with its innermost variant if and only if there are at most eight of them. |
| `Recovery.RecoverRendered` | crates/vairedb-common/src/error/transported.rs:206-231 | With n peels the first n layers come off: the general form, for every depth and limit and every sound table. |
| `Recovery.PeelUndoesLayer` | crates/vairedb-common/src/error/transported.rs:224-299 | One peel undoes one layer of any of the three kinds. |
| `Recovery.RecoverTransportedError` | crates/vairedb-common/src/error/transported.rs:206-217 | The loop over layers returns what the last successful of at most eight peels found. |
| `Recovery.Peel` | crates/vairedb-common/src/error/transported.rs:224-231 | One peel: the payload of the leftmost structural name, nothing when there is no name or no payload. |
| `Recovery.ReadPayload` | crates/vairedb-common/src/error/transported.rs:125-130 | The text after a name as its spelling reads it; what trimming does to it is said by TrimExact. |
| `Recovery.TrimExact` | crates/vairedb-common/src/error/transported.rs:125-130 | Trimming takes a contiguous piece of the text: all it cuts off is whitespace, and neither end of what is left is. |
| `Recovery.TrimFixed` | crates/vairedb-common/src/error/transported.rs:125-130 | Trimming leaves a text alone exactly when neither end is whitespace. |
| `Recovery.NothingToRecover` | crates/vairedb-common/src/error/transported.rs:206-217 | Text that names no variant recovers nothing. |
| `Transported.OutermostMarker` | crates/vairedb-common/src/error/transported.rs:237-250 | The search over the whole table returns the leftmost structural occurrence of any name, and nothing exactly when there is none. |
| `Transported.OutermostUnique` | crates/vairedb-common/src/error/transported.rs:237-250 | The outermost name and its place are unique: no two names of the table can stand at one place. |
| `Transported.FirstStructural` | crates/vairedb-common/src/error/transported.rs:254-264 | Skipping a whole needle after each non-structural occurrence still finds the first structural one. |
| `Transported.InsideIsNotStructural` | crates/vairedb-common/src/error/transported.rs:254-284 | No position strictly inside a name is structural, which is what makes the skip safe. |
| `Transported.StructuralIsEnding` | crates/vairedb-common/src/error/transported.rs:266-284 | A position is structural exactly when nothing stands before it or the text before it ends in one of the six endings a renderer writes. |
| `Markers.MarkersSound` | crates/vairedb-common/src/error/transported.rs:138-199 | The names of the table have their shapes and are told apart by first character and length in each spelling. |
| `Scan.EscapeRoundTrip` | crates/vairedb-common/src/error/scan.rs:122-144 | Unescaping undoes `Debug` escaping of a string if and only if it holds no control character other than newline, tab and carriage return. |
| `Scan.UnescapeText` | crates/vairedb-common/src/error/scan.rs:126-144 | One level of unescaping, character by character. |
| `Scan.StringLiteralEnd` | crates/vairedb-common/src/error/scan.rs:106-120 | The offset of the first quote that is not escaped. |
| `Scan.LiteralSkipsEscape` | crates/vairedb-common/src/error/scan.rs:106-120 | A scan walks over any escaped text without stopping inside it. |
| `Scan.EndOfNesting` | crates/vairedb-common/src/error/scan.rs:73-101 | The offset at which the nesting first closes, quotes respected or ignored. |
| `Scan.NestingEndAfter` | crates/vairedb-common/src/error/scan.rs:73-101 | A scan through balanced text comes out at the depth it went in. |
| `Tag.TagSurvivesRendering` | crates/vairedb-common/src/error/tag.rs:31-44 | A code other than Unspecified survives any number of escape-and-wrap layers whose leading text has no `[VDB-`: it is read out of the raw text. |
| `Tag.CodeExact` | crates/vairedb-common/src/error/tag.rs:35-44 | A code is read exactly when it is the number of the first tag of the text and a code other than Unspecified. |
| `Tag.StripUndoesTag` | crates/vairedb-common/src/error/tag.rs:51-61 | Stripping a freshly tagged message is stripping the bare message. |
| `Tag.EscapeKeepsTagFree` | crates/vairedb-common/src/error/tag.rs:67-80 | Escaping creates no tag opening that was not there. |
| `Tag.TagDigits` | crates/vairedb-common/src/error/tag.rs:67-80 | The first place where an opening, digits and a closing bracket stand together, with its digits, and none exactly when the text has no such place. |
| `Tag.TagFromIsFirst` | crates/vairedb-common/src/error/tag.rs:67-80 | The scan from any offset finds the first tag at or after it, stepping over openings that are none. |
| `Tag.StripTags` | crates/vairedb-common/src/error/tag.rs:51-61 | The tags the scan meets removed with one following space: the text is unchanged exactly when it has no tag, and no tag is left exactly when no removal closes up a new one. |
| `Tag.StripExact` | crates/vairedb-common/src/error/tag.rs:46-61 | For every text, stripping leaves a tag if and only if, at some removed tag, the end of the text before it and what is left after it make one. |
| `Tag.StripLeavesNoTag` | crates/vairedb-common/src/error/tag.rs:46-61 | However many tags, none is left when no piece of text before one breaks off inside a tag. |
| `Tag.StripFixed` | crates/vairedb-common/src/error/tag.rs:46-61 | Stripping leaves a text alone exactly when it has no tag. |
| `Tag.StripCanLeaveTag` | crates/vairedb-common/src/error/tag.rs:46-61 | A text whose stripping leaves a tag that was not there. |
| `Justify.Justify` | crates/vairedb-common/src/pg_datetime/justify.rs:136-161 | `justify_interval` answers the canonical form of the total exactly when its months fit 32 bits and no sub-microsecond part strays; the other two keep the total exactly when the component they move into fits, and always leave the other in range and of its own sign. |
| `Justify.JustifyWide` | crates/vairedb-common/src/pg_datetime/justify.rs:136-161 | Before narrowing: the total is kept, and the components of each unit are in range with the promised signs. |
| `Justify.AgreeInSign` | crates/vairedb-common/src/pg_datetime/justify.rs:170-186 | Borrowing across components of differing sign keeps the total and makes the signs agree. |
| `Justify.CanonicalUnique` | crates/vairedb-common/src/pg_datetime/justify.rs:136-186 | Components in range and of one sign are determined by their total. |
| `Justify.CanonicalForm` | crates/vairedb-common/src/pg_datetime/justify.rs:136-186 | Two intervals have the same canonical form exactly when their totals are equal; an interval is canonical exactly when it is its own canonical form. |
| `Justify.CanonicalIsFixed` | crates/vairedb-common/src/pg_datetime/justify.rs:136-186 | Idempotence: a canonical stored interval meets the condition and is answered unchanged. |
| `Justify.NotAlwaysCanonical` | crates/vairedb-common/src/pg_datetime/justify.rs:136-161 | Stored intervals on which each half of the condition fails. |
| `Age.AgeOf` | crates/vairedb-common/src/pg_datetime/age.rs:119-135 | For every two instants: an answer, and it is the whole months between them and what is past those, negated when the first is earlier. |
| `Age.BorrowingIsElapsed` | crates/vairedb-common/src/pg_datetime/age.rs:172-202 | One borrow per field computes the whole months (one fewer when the last is incomplete) and the time past them, with the year never negative. |
| `Age.DifferenceBorrowsOnce` | crates/vairedb-common/src/pg_datetime/age.rs:155-197 | Subtracting the smaller instant from the larger, no loop runs twice, the day loop because it borrows the smaller operand's own month. |
| `Age.Difference.BorrowFrom` | crates/vairedb-common/src/pg_datetime/age.rs:172-197 | The six loops leave no field below the year negative, and are one borrow each when no field is too negative. |
| `Age.ElapsedInRange` | crates/vairedb-common/src/pg_datetime/age.rs:119-197 | Months not negative, days 0 to 30, time under a day. |
| `Age.DifferenceConserved` | crates/vairedb-common/src/pg_datetime/age.rs:172-197 | Counting every month at the smaller operand's month length, the difference is conserved. |
| `Age.ElapsedOnTheCalendar` | crates/vairedb-common/src/pg_datetime/age.rs:119-202 | On the calendar: the larger instant moved back by the whole months, less the days and time past them, is the smaller instant. |
| `Age.AgeIsAntisymmetric` | crates/vairedb-common/src/pg_datetime/age.rs:121-124 | Swapping the arguments negates every component. |
| `Age.AgeZero` | crates/vairedb-common/src/pg_datetime/age.rs:119-135 | A zero interval exactly for equal instants. |
| `Age.BorrowedMonthIsReal` | crates/vairedb-common/src/pg_datetime/age.rs:234-248 | Whenever a month is borrowed its length is the calendar's; the 30-day stand-in is never used. |
| `Age.DaysInMonthIsLength` | crates/vairedb-common/src/pg_datetime/age.rs:234-248 | The day count between the first of a month and of the next is the month's Gregorian length, 30 only for the last month of the calendar library. |
| `Age.MicrosOrdered` | crates/vairedb-common/src/pg_datetime/age.rs:119-125 | Comparing microsecond counts is comparing the civil fields lexicographically. |
| `Hypothetical.AnswerIsWindowFunction` | crates/vairedb-common/src/within_group/hypothetical.rs:147-166 | All four answers equal rank, dense_rank, percent_rank and cume_dist of the hypothetical row in every arrangement of the group plus that row in which the values never fall (descending: never rise) and the nulls are the front or the rest as asked. |
| `Hypothetical.WindowExists` | crates/vairedb-common/src/within_group/hypothetical.rs:4-21 | Every group and hypothetical row have such an arrangement. |
| `Hypothetical.CountsAgainst` | crates/vairedb-common/src/within_group/hypothetical.rs:281-349 | One pass counts the rows that may not stand behind the hypothetical one, its peers and the distinct values ahead. |
| `Ordering.SortedIsInOrder` | crates/vairedb-common/src/within_group/hypothetical.rs:322-344 | The comparison puts a column in exactly the order said of its values: rising or falling as asked, nulls in front or behind as asked. |
| `Ordering.AheadMeans` | crates/vairedb-common/src/within_group/hypothetical.rs:322-344 | One cell is ahead of another exactly when it may not stand behind it in that order. |
| `Hypothetical.WindowPlaces` | crates/vairedb-common/src/within_group/hypothetical.rs:4-21 | The first and last peer of the hypothetical row in the window are where the counts say. |
| `Hypothetical.WindowGroups` | crates/vairedb-common/src/within_group/hypothetical.rs:4-21 | The peer groups up to the hypothetical row are the distinct values ahead of it plus one. |
| `Hypothetical.CountsRearranged` | crates/vairedb-common/src/within_group/hypothetical.rs:281-349 | The counts do not depend on the order of the rows. |
| `Hypothetical.ShardingInvisible` | crates/vairedb-common/src/within_group/hypothetical.rs:147-166 | Groups that took in the same rows answer alike, whatever the batches, shards and merges. |
| `Mode.ModeOf` | crates/vairedb-common/src/within_group/mode.rs:120-152 | The run-length pass returns a value of maximum multiplicity, among ties the smallest (descending: the largest), and NULL exactly when no row holds a value. |
| `Mode.LongestRunOf` | crates/vairedb-common/src/within_group/mode.rs:131-146 | The loop over ranks: the best run so far is the mode of the rows so far. |
| `Mode.ModeUnique` | crates/vairedb-common/src/within_group/mode.rs:120-152 | That answer is unique for a bag of rows, so no arrangement of them can change it. |
| `Mode.ShardingInvisible` | crates/vairedb-common/src/within_group/mode.rs:120-152 | Groups that took in the same rows have the same mode. |
| `Mode.SortedColumn` | crates/vairedb-common/src/within_group/group.rs:139-163 | The first ranks of the sort are exactly the non-null rows. |
| `Grouped.GatheredRows` | crates/vairedb-common/src/within_group/group.rs:65-106 | However rows are spread over batches and nested merges, none is lost and none counted twice. |
| `Grouped.Group.UpdateBatch` | crates/vairedb-common/src/within_group/group.rs:65-73 | The first column is kept as one more batch; a call without a column is refused and changes nothing. |
| `Grouped.Group.MergeBatch` | crates/vairedb-common/src/within_group/group.rs:75-85 | Every list of the state column becomes one more merge of the group it came from, null lists adding nothing. |
| `Grouped.Group.State` | crates/vairedb-common/src/within_group/group.rs:88-94 | The state is one list with every row seen. |
| `Grouped.Group.Accumulated` | crates/vairedb-common/src/within_group/group.rs:97-106 | One column with every row seen, in order of arrival. |
| `Namespace.RunKeepsNamespace` | crates/vairedb-coordinator/src/catalog/catalog.rs:145-183 | Over every interleaving of claims, upserts and deletes, no name is ever both a table and a view if and only if no upsert meets a name the other kind holds. |
| `Namespace.StepKeepsNamespace` | crates/vairedb-coordinator/src/catalog/catalog.rs:145-183 | The same for one transaction. |
| `Namespace.RedefiningIsSafe` | crates/vairedb-coordinator/src/catalog/catalog.rs:196-281 | Claims, redefinitions of relations that exist and deletes keep one namespace in every interleaving. |
| `Namespace.ReplaceCanRace` | crates/vairedb-coordinator/src/pgwire_handler/views.rs:103-118 | A table claimed between the check and the upsert of CREATE OR REPLACE VIEW shares its name with the view, for every free name. |
| `Namespace.NameConserved` | crates/vairedb-coordinator/src/catalog/catalog.rs:145-216 | For every run and name: held now plus removals equals held before plus claims won plus upserts of a free name. |
| `Namespace.OneWinner` | crates/vairedb-coordinator/src/catalog/catalog.rs:145-183 | Between two removals of a name at most one claim on it succeeds, and none while it is held. |
| `Namespace.WinnerKeepsRecord` | crates/vairedb-coordinator/src/catalog/catalog.rs:159-183 | Losing claims store nothing: the record under a name stays what it was until it is upserted or deleted. |
| `Namespace.MetadataCatalog.ClaimName` | crates/vairedb-coordinator/src/catalog/catalog.rs:159-183 | Claims exactly when the key is free in the table and in every table given, storing the record, and otherwise changing nothing. |
| `Namespace.MetadataCatalog.CreateTableIfAbsent` | crates/vairedb-coordinator/src/catalog/catalog.rs:203-205 | Won exactly when neither a table nor a view has the name; then the table has the record, and nothing else moved. |
| `Namespace.MetadataCatalog.CreateViewIfAbsent` | crates/vairedb-coordinator/src/catalog/catalog.rs:262-264 | Won exactly when neither a table nor a view has the name; then the view has the record, and nothing else moved. |
| `Namespace.MetadataCatalog.PutRecord` | crates/vairedb-coordinator/src/catalog/catalog.rs:196-198 | The name has exactly this record in its kind, and nothing else moved (tables here, views at lines 269-271). |
| `Namespace.MetadataCatalog.DeleteRecord` | crates/vairedb-coordinator/src/catalog/catalog.rs:214-216 | The name has no record in its kind, and nothing else moved (tables here, views at lines 279-281). |
| `Namespace.DeletedNameIsFree` | crates/vairedb-coordinator/src/catalog/catalog.rs:214-216 | After dropping a relation its name is taken by neither kind, and the next claim on it, of either kind, wins and is what the name holds. |
| `Namespace.StepMeans` | crates/vairedb-coordinator/src/catalog/catalog.rs:159-216 | What a claim, an upsert and a delete each do to the two maps. |
| `Placement.AssignShardsRoundRobin` | crates/vairedb-coordinator/src/catalog/catalog.rs:431-470 | Bucket i on node i mod n with the following nodes as replicas, the node itself skipped; refused exactly when no node is alive. |
| `Placement.PrimariesBalanced` | crates/vairedb-coordinator/src/catalog/catalog.rs:446-449 | The primaries of any two alive nodes differ by at most one. |
| `Placement.LoadIsEvenShare` | crates/vairedb-coordinator/src/catalog/catalog.rs:446-449 | A node has the even share of buckets, plus one for the nodes the last lap reached. |
| `Placement.NoReplicaOnPrimary` | crates/vairedb-coordinator/src/catalog/catalog.rs:451-457 | No shard replicates to its own primary. |
| `Placement.ReplicasDistinct` | crates/vairedb-coordinator/src/catalog/catalog.rs:451-457 | Replicas are pairwise distinct if and only if the replication factor is at most the node count plus one, or there is one node. |
| `Placement.ReplicaCount` | crates/vairedb-coordinator/src/catalog/catalog.rs:451-457 | The number of replicas for every replication factor: one per step that does not land on the primary. |
| `Placement.CopiesWithinLap` | crates/vairedb-coordinator/src/catalog/catalog.rs:451-457 | Up to the node count plus one, a shard has min(replication factor, node count) copies. |
| `Placement.PlacedShard` | crates/vairedb-coordinator/src/catalog/catalog.rs:446-466 | Of the shards as placed: bucket i on node i mod n, its replicas the nodes that follow, never that node, distinct exactly within one lap, and as many as asked for or as there are. |
| `Shards.RangeIsPrefix` | crates/vairedb-coordinator/src/catalog/catalog.rs:34-39 | The key range holds the keys with the prefix `name:` and exactly one key more, `name;`. |
| `Shards.KeyInRange` | crates/vairedb-coordinator/src/catalog/catalog.rs:34-39 | A table's range takes in its own shards and those of every table whose name starts with `name:`, and no others. |
| `Shards.ColonFreeTablesApart` | crates/vairedb-coordinator/src/catalog/catalog.rs:339-357 | Between names without a colon a range takes in one table's shards and no other's. |
| `Shards.ListingGivesBuckets` | crates/vairedb-coordinator/src/catalog/catalog.rs:324-343 | Storing a table's shards where its range was empty and listing them gives bucket i at index i, whatever else is stored. |
| `Shards.StoredUnderKeys` | crates/vairedb-coordinator/src/catalog/catalog.rs:324-327 | Storing writes each shard under its own key and leaves every other key alone. |
| `Shards.ShardStore.ShardsForTable` | crates/vairedb-coordinator/src/catalog/catalog.rs:339-343 | The records of the range, each once, in order of bucket. |
| `Shards.ShardStore.DeleteShardsForTable` | crates/vairedb-coordinator/src/catalog/catalog.rs:348-357 | Exactly the range is removed; every other record stays. |
| `Shards.ShardStore.PutShard` | crates/vairedb-coordinator/src/catalog/catalog.rs:324-327 | From then on the record is found under the key of its table and shard id, and every other key as before. |
| `Shards.ShardStore.StoreShards` | crates/vairedb-coordinator/src/pgwire_handler/ddl.rs:256-260 | Storing the shards of a table in turn is the store the listing theorems speak of. |
| `Anonymize.AnonymizeStatement` | crates/vairedb-coordinator/src/anonymization/rewrite.rs:28-44 | With anonymized columns, an INSERT is accepted exactly when every value its VALUES give one is a literal under a usable secret, and an UPDATE exactly when every value it assigns one is; then every such cell is NULL or its digest and all else is unchanged, an ON CONFLICT clause included; other statements pass; each secret is looked up at most once. |
| `Anonymize.AnonymizeInsert` | crates/vairedb-coordinator/src/anonymization/rewrite.rs:47-84 | Refused exactly for a dotted column, an unusable secret, a query source or an unhashable cell; otherwise done cell by cell in every row, short and long rows included. The ON CONFLICT clause is left as it is. |
| `Anonymize.InsertKeepsPromise` | crates/vairedb-coordinator/src/anonymization/rewrite.rs:14-27 | An accepted INSERT writes only NULLs and digests to anonymized columns if and only if every DO UPDATE assignment to one sets NULL (or a text that is its own digest), none of their targets being dotted or a tuple naming one. |
| `Anonymize.InsertKeepsPromiseExactly` | crates/vairedb-coordinator/src/anonymization/rewrite.rs:14-27 | The same for a digest no text is its own of: NULL and nothing else. |
| `Anonymize.ConflictClausePassesThrough` | crates/vairedb-coordinator/src/anonymization/rewrite.rs:47-84 | An accepted INSERT whose DO UPDATE sets an anonymized column to a literal or an expression, which leaves as it was written. |
| `Anonymize.AnonymizeRows` | crates/vairedb-coordinator/src/anonymization/rewrite.rs:76-82 | Every row rewritten in place, stopping at the first that cannot be. |
| `Anonymize.AnonymizeAssignments` | crates/vairedb-coordinator/src/anonymization/rewrite.rs:92-132 | Targets unchanged, values done one by one; refused exactly for a dotted target, a tuple naming an anonymized column, an unusable secret or an unhashable value. |
| `Anonymize.AnonymizeRow` | crates/vairedb-coordinator/src/anonymization/rewrite.rs:76-82 | Each target cell hashed exactly once under its own column's secret, the others untouched, even when a later cell is refused. |
| `Anonymize.OnlyDigestsLeave` | crates/vairedb-coordinator/src/anonymization/rewrite.rs:1-3 | Rows of VALUES that agree up to the digests of their anonymized cells are rewritten to the same row: nothing else of those cells leaves. |
| `Anonymize.OnlyDigestsLeaveValues` | crates/vairedb-coordinator/src/anonymization/rewrite.rs:47-84 | The same for all the rows of an INSERT. |
| `Anonymize.AnonymizeExpr` | crates/vairedb-coordinator/src/anonymization/rewrite.rs:193-218 | NULL stays, a literal becomes the digest of its text, a placeholder or expression is refused. |
| `Anonymize.ResolveSecrets` | crates/vairedb-coordinator/src/anonymization/rewrite.rs:159-187 | Succeeds exactly when every id is registered with the supported algorithm, returns each secret, and asks for no id twice. |
| `Anonymize.FindHits` | crates/vairedb-coordinator/src/anonymization/rewrite.rs:52-57 | The columns under a rule, in order and none missed; refused exactly when a reference is not a bare name. |
| `Anonymize.FindTargets` | crates/vairedb-coordinator/src/anonymization/rewrite.rs:97-121 | The same for assignments, a tuple being refused exactly when it names an anonymized or dotted column. |
| `Anonymize.RuleMeans` | crates/vairedb-coordinator/src/anonymization/rewrite.rs:134-152 | A bare column is under a secret exactly when the declaration maps a lower-case name equal to it up to ASCII case to that secret, and unsupported exactly when it is not bare. |
| `Anonymize.CaseNeverSkips` | crates/vairedb-coordinator/src/anonymization/rewrite.rs:134-152 | Names that differ in case alone have the same rule. |
| `Anonymize.InsertForCaller` | crates/vairedb-coordinator/src/anonymization/rewrite.rs:47-84 | Every cell of an accepted INSERT by its column: NULL or the digest of its literal, kind by kind, under the declared secret; as it was where none is declared. |
| `Anonymize.UpdateForCaller` | crates/vairedb-coordinator/src/anonymization/rewrite.rs:92-132 | Every assignment of an accepted UPDATE by its column, a tuple naming no declared column and left as it was. |
| `Anonymize.InsertAcceptedForCaller` | crates/vairedb-coordinator/src/anonymization/rewrite.rs:47-84 | An INSERT of VALUES is accepted exactly when all its columns are bare and every cell of a declared column is a literal under a registered secret of the supported algorithm. |

## Left out

- Arrow, DataFusion and Ballista glue: signatures, coercions, registration and type errors. A column is a sequence of optional values; a column of the wrong type and a state with the wrong number of columns are not modelled.
- The float paths of the statistics and averages, and the delegation to them.
- Error messages and their wording: a refusal is a value without text.
- Text offsets are character offsets; byte offsets inside multi-byte characters are not modelled.
- Scan.EscapeRoundTrip: the printer escapes the ASCII controls only; the other characters `Debug` writes as `\u{..}` depend on Unicode tables that are not modelled.
- The wrappers of the round trip are text without a name of their own: a wrapper that contains one is not covered by `Recovery.TransportRoundTrip`.
- StatisticsAccumulator.ExactStatistics.UpdateBatch: does not say what the half-updated totals are after a refusal, because the engine drops the accumulator then; the same holds for the other refused batches.
- AverageAccumulator.ExactAverageAccumulator.Evaluate: assumes a DISTINCT set of at most 2^64 - 1 values, as any set in memory is.
- GroupedAverage.SlotsAreAccumulators: assumes the engine never announces fewer groups than it already has, which is its contract; a smaller number would drop slots.
- The conversion from microseconds to civil fields, and its range error: instants are given by their fields, and the order of the two is proved to agree.
- Justify.Justify: for `justify_days` and `justify_hours` the wrapped component itself is not given, only that the total is lost.
- The sort behind `mode()` and the key order of a range scan are parameters constrained by what the sort and the store promise; the sort of a shard listing is written as a stable insertion.
- Values of an ordered column are integers standing for their place in the type's order; row encodings and the coercion refusal of the hypothetical-set family are not modelled.
- Quotients of `percent_rank` and `cume_dist` are real numbers; the final rounding to a double is not modelled.
- `percentile_cont`, `percentile_disc`, `nth_value`, `ntile` and the JSON aggregates.
- Catalog storage errors, record encoding, schemas, secrets and node heartbeats; alive nodes are given as a list of distinct ids.
- The checks an ON CONFLICT clause meets after the rewrite (its arbiter and the shard key), which do not look at anonymized columns.
- Anonymize.AnonymizeInsert: says nothing of the statement after a refusal, because the caller discards it; an INSERT without a column list is passed unchanged here, as in the source, whose callers write the list out first.
- HMAC itself: the digest is any function of key and text.
- Planning, routing, the wire protocol, and every other part of the repository.
