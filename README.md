# ifg-vis in Dafny

A model of the logic underneath the charts of *ifg-vis*. The charts show how German federal
institutions answer freedom-of-information (IFG) requests. The model has two parts.

**Data pipeline**
- `Rows` loads the CSV. Year, count and transparency go through JavaScript's `parseInt(s, 10)`. Rows whose count is not a positive integer are dropped. The rest is stably sorted by year.
- `Groups` builds the per-label series:
  - an ordinary institution gets its own rows;
  - the synthetic average `⌀` gets one entry per year. Each entry holds the summed counts of that year, and its rate is recomputed from those sums.
- `Requests` builds the per-year input of the stacked request-volume chart, with per-year totals and their maximum.

**Selection state machines**, one class per chart:
- `Rates.RateChart`: at most two institutions. Selecting a third evicts the oldest.
- `SuccessRate.SuccessChart` and `MainChart.MainChart`: plain toggle sets with hover highlighting that never undoes a selection.
- `Ifg.IfgChart`: the older chart. Its selection is a stack of keys kept in the URL (`A&B`, or `!` when empty). Every route change resets all groups and replays the stack. A group's flag is flipped once per occurrence of its key.
- `Ifg.GetLineData` is that chart's expansion of n bubbles into 3n−2 path points.

**Helper modules**
- `JsNumbers`: `parseInt`, `Math.round` of a quotient and `Math.max`.
- `JsObjects`: JavaScript objects as insertion-ordered association lists. `Object.entries` of integer keys lists them in ascending order.
- `JsArrays`: `filter`, `split` and `join`.
- `ToggleSets`: the flip of one key's membership.

State that the source changes in place is modelled as classes whose methods change their fields. The accumulating loops are methods with loop invariants: the `reduce` of rows into year buckets, the loops that fill `groupData` and `groups`, and `getLineData`. Each such method is proved against a function, and the properties of that function are proved as lemmas. The CSV input, the label table, the default institutions, the rate views and the d3 scales are parameters.

## Model

| member | source | states |
|---|---|---|
| JsNumbers.ParseIntDecimal | src/data.js:8-10 | `parseInt(s, 10)` of the decimal form of any integer, followed by text that does not start with a digit, gives that integer back |
| JsNumbers.RoundDiv | js/ifg.js:162 | `Math.round(a / b)` for positive b: the result lies within half of a/b, and halves round up |
| JsNumbers.RoundedPercent | src/data.js:30-31 | `Math.round(part / whole * 100)`: for a non-zero whole the nearest integer to 100·part/whole, with halves rounded up; for a zero whole NaN when the part is 0 and an infinity otherwise |
| JsNumbers.PercentBounds | src/data.js:30-31 | when 0 ≤ granted ≤ granted + not granted and the sum is positive, the rate is an integer between 0 and 100 |
| JsNumbers.Max | src/requests.js:24 | `Math.max(...xs)` is −Infinity for no values; otherwise it is one of the values and at least every value |
| JsObjects.Absent | src/requests.js:7 | `o[k]` is undefined exactly when no property of o has key k |
| JsObjects.GetStored | src/requests.js:8 | in an object with unique keys, reading the key of any stored property gives its value |
| JsObjects.Put | src/requests.js:7-9 | after `o[k] = v`, reading k gives v and every other key reads as before |
| JsObjects.PutKeys | src/requests.js:7-9 | assigning a new key appends it in insertion order; assigning an existing key keeps every position; keys stay unique |
| JsObjects.KeysSnoc | src/main.js:196 | adding a property with a new key appends that key to the key order |
| JsObjects.Entries | src/data.js:24 | `Object.entries` of an object with integer keys lists its properties in ascending key order, each exactly once |
| JsObjects.EntryStored | src/data.js:24 | every listed entry is what reading its key from the object gives |
| JsObjects.EntryListed | src/data.js:24 | every key the object holds is listed |
| JsObjects.EntryKeys | src/data.js:24 | the listed keys are exactly the ascending sequence of the keys the object holds |
| JsObjects.AscendingDistinct | src/data.js:24 | a strictly ascending sequence with exactly the members of the input |
| JsObjects.AscendingUnique | src/data.js:24 | two strictly ascending sequences with the same members are equal, so the key order is determined by the key set |
| JsArrays.Remove | js/ifg.js:445-447 | `filter(el => el !== key)` keeps exactly the members other than key |
| JsArrays.RemoveAppend | js/ifg.js:445-447 | filtering a concatenation concatenates the filtered parts, so the kept elements stay in order even when the stack holds repeats |
| JsArrays.RemoveAt | src/rates.js:209 | deleting a member from a duplicate-free insertion order drops exactly its position and keeps the order of the rest |
| JsArrays.RemoveCounts | js/ifg.js:445-447 | the filter removes every occurrence of key and keeps the count of every other value |
| JsArrays.CountSnoc | js/ifg.js:443 | `push` adds exactly one occurrence of the pushed value |
| JsArrays.Split | js/ifg.js:404 | `split('&')` always yields at least one piece |
| JsArrays.SplitNoSeparator | js/ifg.js:404 | a string without `&` splits into itself alone |
| JsArrays.SplitJoin | js/ifg.js:454 | splitting the `&`-join of pieces without `&` on `&` gives back the same pieces |
| Rows.Counted | src/data.js:13 | `filter(d => d.count > 0)` keeps exactly the rows whose count parsed to a positive integer; a NaN count is dropped |
| Rows.ToRows | src/data.js:8 | the rows can be ordered by year exactly when every kept year parsed to an integer, and then each row keeps its fields in place |
| Rows.LoadRowsSucceeds | src/data.js:6-14 | loading succeeds exactly when every CSV row with a positive count has an integer year |
| Rows.LoadRowsSorted | src/data.js:13-14 | the loaded rows are sorted by year and all have a positive count; src/main.js:144-152 and js/ifg.js:287-298 (with its year parser as a parameter) run the same pipeline |
| Rows.LoadRowsComplete | src/data.js:6-14 | every CSV row with a positive count is loaded |
| Rows.LoadRowsOrigin | src/data.js:6-14 | every loaded row comes from a CSV row with a positive count |
| Rows.SortByYearSpec | src/data.js:14 | the sort orders by year and neither loses nor duplicates a row |
| Rows.SortIsStable | src/data.js:14 | for every year, the rows of that year keep their input order |
| Rows.WithYearMembers | src/data.js:18-22 | a year's bucket holds exactly the rows of that year |
| Rows.WithNameMembers | src/data.js:44 | `filter(d => d.name === key)` holds exactly the rows with that name |
| Rows.WithNameSorted | src/data.js:44 | filtering sorted rows keeps them sorted |
| Rows.NoRowsNamed | src/main.js:198 | the filter for a name that no row carries is empty |
| Groups.YearsMembers | src/data.js:18-22 | a year has a bucket exactly when some row has that year |
| Groups.BucketByYear | src/data.js:18-22 | the `reduce` yields an object with unique keys in which each year reads as the rows of that year in data order, and every other key is undefined |
| Groups.EntriesOfBuckets | src/data.js:24-42 | mapping the entries of any such bucket object gives the average series: one aggregate per distinct year, in ascending year order |
| Groups.AggregateYears | src/data.js:24-42 | one aggregate per listed year, built from exactly that year's rows |
| Groups.AggregateEntriesYears | src/data.js:24-42 | mapping entries that hold exactly each key year's rows gives the aggregates of those years, in the entries' key order |
| Groups.ComputeSeries | src/data.js:17-45 | the series of a label: the year aggregates for `⌀`, the label's own rows otherwise |
| Groups.BuildGroupData | src/data.js:16-46 | `groupData` has exactly the label keys, in label order, each mapped to its series |
| Groups.BucketsPartition | src/data.js:18-22 | each row lies in the bucket of its own year and in no other; the bucket sizes add up to the number of rows |
| Groups.AverageConserves | src/data.js:26-29 | granted, not granted, count and filed requests summed over the `⌀` series equal the same sums over all rows |
| Groups.AverageSeriesYears | src/data.js:18-24 | the `⌀` series has strictly ascending years, every year of the data appears, and every entry's bucket is non-empty |
| Groups.AverageSeriesEntries | src/data.js:26-40 | each `⌀` entry is named `⌀`; its four fields are the sums over its year's rows; its rate is the rounded percentage of those sums |
| Groups.AverageCountsPositive | src/data.js:28 | every `⌀` entry has a positive count |
| Groups.WeightedRate | src/data.js:30-31 | the rate comes from summed counts, not from the mean of the row rates: rows at 100 % (1 of 1) and 10 % (1 of 10) give 18, not 55 |
| Groups.InstitutionSeries | src/data.js:44 | an ordinary label's series holds exactly the rows with that name, sorted by year, all with positive count |
| Requests.GroupsByYear | src/requests.js:6-11 | the `reduce` yields an object with unique keys in which each year reads as the record of that year's rows, and every other key is undefined |
| Requests.FrameContents | src/requests.js:8-9 | a year record maps each name to the filed requests of the last row with that name; `year` maps to the year; keys are unique |
| Requests.RecordYear | src/requests.js:9 | each year record's `year` is the year it is stored under |
| Requests.StackDataYears | src/requests.js:15 | `Object.values` gives one record per distinct year, in ascending year order |
| Requests.StackDataUnique | src/requests.js:15 | every listed record has unique keys |
| Requests.StackKeys | src/requests.js:13-14 | the stack keys are exactly the label keys other than `⌀` |
| Requests.ZeroedYearTotal | src/requests.js:22 | summing the values of a record whose `year` is replaced by 0 sums exactly its non-year values |
| Requests.RequestsPerYear | src/requests.js:21-23 | one total per record |
| Requests.RequestsPerYearTotals | src/requests.js:21-23 | total i is the sum of the non-year values of record i |
| Requests.MaxRequestsBound | src/requests.js:24 | for non-empty data, the maximum is an integer that is one of the totals and at least every total |
| Rates.Defaulted | src/rates.js:139 | exactly the group keys that are default institutions |
| Rates.DefaultedAppend | src/rates.js:136-141 | taking the defaults of concatenated key lists concatenates their defaults, so group order and multiplicity are kept |
| Rates.Toggled | src/rates.js:207-221 | after a toggle the key is selected exactly when it was not before, and no other key becomes selected |
| Rates.ToggleOff | src/rates.js:208-210 | toggling a selected key removes exactly that key and keeps the order of the rest |
| Rates.ToggleOn | src/rates.js:211-219 | toggling an unselected key appends it; with two selected, the oldest is evicted, and it is never the key just added |
| Rates.ToggleCapacity | src/rates.js:215-219 | a toggle keeps the selection duplicate-free and at most two long |
| Rates.ToggleChangesAtMostTwo | src/rates.js:207-221 | a toggle changes the membership of no key other than the toggled one, except the evicted oldest one when two were selected |
| Rates.SelectionOfDistinct | src/rates.js:136-141 | toggling distinct keys on one after another leaves the last two selected |
| Rates.DefaultedDistinct | src/rates.js:136-141 | the defaults taken in group order are distinct |
| Rates.InitialSelection | src/rates.js:136-141 | after initialisation the selection is the last two default institutions in group order |
| Rates.RateChart.Percentage | src/rates.js:26-27 | for a positive divisor, the nearest integer to 100·dividend/divisor under the current view; NaN or an infinity for a zero divisor |
| Rates.SelectionStep | src/rates.js:136-141 | in the constructor loop each key is new, its defaults extend by the key exactly when it is a default, and the selection then takes one toggle |
| Rates.RateChart.constructor | src/rates.js:136-141 | groups for exactly the given keys, the selection after toggling the defaults on, circles for exactly the default institutions (the evicted ones included), the first rate view, and a consistent chart |
| Rates.RateChart.AddGroup | src/rates.js:136-141 | one loop step: the key gains a selector, and a default is toggled on, gaining its circles |
| Rates.RateChart.ActivateGroup | src/rates.js:175-197 | the badge darkens and the circles exist from then on; the selection is unchanged |
| Rates.RateChart.DeactivateGroup | src/rates.js:199-205 | the badge lightens; it is called only for a group whose circles exist |
| Rates.RateChart.ToggleGroup | src/rates.js:207-221 | the selection becomes the toggled insertion order; selecting creates the key's circles, and circles once created are never dropped; badges follow the selection |
| Rates.RateChart.SelectCategory | src/rates.js:30-34 | the chosen rate view becomes current and nothing else changes |
| ToggleSets.FlipOnlyKey | src/successRate.js:205-221 | a toggle flips the membership of exactly the toggled key; the main chart's toggle at src/main.js:82-90 is the same |
| ToggleSets.FlipTwice | src/successRate.js:205-221 | toggling the same key twice restores the set |
| SuccessRate.SuccessChart.constructor | src/successRate.js:68-73 | groups for exactly the given keys; the selection is the default institutions among them, with no capacity limit; exactly the selected keys have a dark badge, shown dots and a shown line |
| SuccessRate.SuccessChart.ActivateGroup | src/successRate.js:170-183 | line and dots are shown; the badge darkens only for a selected key; the selection is unchanged |
| SuccessRate.SuccessChart.DeactivateGroup | src/successRate.js:185-195 | does nothing to a selected key; otherwise clears the badge and the dots, and the line only when asked to hide it |
| SuccessRate.SuccessChart.ToggleGroup | src/successRate.js:197-222 | flips the key's membership; selecting darkens the badge and shows the dots and line; deselecting clears the badge and dots but keeps the line; no other key changes; a circle's row name without a group changes nothing |
| SuccessRate.SuccessChart.Hover | src/successRate.js:151 | hovering a group shows its line and dots and changes nothing else: selection and badges stay |
| SuccessRate.SuccessChart.Unhover | src/successRate.js:152 | leaving a selected group changes nothing; leaving any other clears its badge, dots and line; other keys and the selection stay |
| MainChart.FirstEmptyFrom | src/main.js:195-200 | the first label from a position on that has no rows, or none exactly when every label there has rows |
| MainChart.MakeGroups | src/main.js:195-200 | as written: fails at the first label with no rows; otherwise one group per label, in label order, holding that label's rows |
| MainChart.UnmatchedLabelFails | src/main.js:138-139 | a label that names no loaded row, such as `⌀`, makes the loop fail |
| MainChart.LabelsWithRows | src/main.js:195-200 | exactly the labels that have rows, in label order |
| MainChart.MakeNonEmptyGroups | src/main.js:195-200 | corrected: always succeeds, one group per label with rows, unique keys, every group non-empty |
| MainChart.MainChart.constructor | src/main.js:141 | every group starts unflagged, and nothing is selected or shown |
| MainChart.MainChart.ActivateGroup | src/main.js:55-65 | sets the group's flag and shows it; the selection is unchanged |
| MainChart.MainChart.RefreshAllActiveGroups | src/main.js:102-109 | re-activating the flagged groups changes nothing in a consistent chart |
| MainChart.MainChart.DeactivateGroup | src/main.js:67-80 | does nothing to a selected key; otherwise clears its flag and hides it |
| MainChart.MainChart.ToggleGroup | src/main.js:82-90 | flips the key's membership; the key's flag and visibility follow its new selection, and every other key's flag and visibility stay; for a circle's row name without a group (src/main.js:191) only the selection flips |
| MainChart.MainChart.Hover | src/main.js:135 | hovering flags and shows a group and changes no other flag, visibility or the selection; a circle's row name without a group changes nothing (src/main.js:192) |
| MainChart.MainChart.Unhover | src/main.js:136 | leaving a selected group changes nothing; leaving any other clears its flag and hides it; other keys stay; a circle's row name without a group changes nothing (src/main.js:193) |
| Ifg.KnownPieces | js/ifg.js:413-419 | keeps exactly the route pieces that are group keys |
| Ifg.KnownPiecesAppend | js/ifg.js:413-419 | filtering concatenated pieces concatenates their filtered pieces, so route order and repetitions are kept |
| Ifg.DecodeEncode | js/ifg.js:451-457 | decoding the route `updateNav` builds for a stack of known keys without `&` restores the stack, provided `!` is not a group key |
| Ifg.OnStackCounts | js/ifg.js:441-449 | adding counts one more occurrence even when the key is already there; removing leaves none; other keys keep their counts |
| Ifg.OnStackMembers | js/ifg.js:441-449 | after adding, the key is on the stack; after removing, it is not; other keys are unaffected |
| Ifg.ParityFlip | js/ifg.js:113 | pushing a key and flipping its flag keeps every flag equal to the parity of its key's count |
| Ifg.GetLineData | js/ifg.js:157-188 | 3n−2 points for n ≥ 1 bubbles and none for n = 0; a centre per bubble, a left copy for every bubble but the first, a right copy for every bubble but the last, offset by one radius taken from the first two bubbles; all on the bubble's y and defined |
| Ifg.IfgChart.constructor | js/ifg.js:383-390 | one unflagged group per key, empty stack, nothing ticked or shown, first route pending |
| Ifg.IfgChart.ActivateGroup | js/ifg.js:81-108 | shows the group and changes nothing else |
| Ifg.IfgChart.RefreshAllActiveGroups | js/ifg.js:146-153 | re-activating the flagged groups changes nothing in a consistent chart |
| Ifg.IfgChart.DeactivateGroup | js/ifg.js:122-131 | leaves a flagged group unchanged and hides any other |
| Ifg.IfgChart.PermanentlyActivateGroup | js/ifg.js:110-120 | flips the group's flag and shows or hides it to match |
| Ifg.IfgChart.Show | js/ifg.js:397-422 | an empty first route redirects to the default institution and changes nothing else; any other route rebuilds the stack from the known pieces in order, counts them, ticks exactly their boxes, flags each group exactly when its key occurs an odd number of times, and shows exactly the flagged groups; when the old stack's top is not a group key and there is a group, the reset of the first group throws in `activeInForeground` (js/ifg.js:139-140), leaving boxes unticked, that group unflagged and hidden, and the old stack and counter in place |
| Ifg.IfgChart.ResetGroups | js/ifg.js:407-412 | every flag cleared, every group hidden, stack and counter emptied |
| Ifg.IfgChart.PushPiece | js/ifg.js:414-419 | one known piece is pushed, ticked and counted, and flips its group, keeping the replay invariant |
| Ifg.IfgChart.ReplayStack | js/ifg.js:413-420 | the stack becomes the known pieces of the route, with the replay invariant |
| Ifg.IfgChart.ToggleOnStack | js/ifg.js:441-449 | pushes the key, or removes all its occurrences; the count of every other key is unchanged |
| Ifg.IfgChart.UpdateNav | js/ifg.js:451-459 | the route is the stack joined by `&`, or `!` when the stack is empty |
| Ifg.TicksFollowStack | js/ifg.js:432-438 | flipping a box together with pushing or removing its key keeps the ticked boxes equal to the known keys on the stack |
| Ifg.IfgChart.TickBox | js/ifg.js:434-435 | a group's box flips, a key without a box stays unticked, and nothing else changes |
| Ifg.IfgChart.NavigateToKey | js/ifg.js:432-439 | ticks an unticked group and pushes its key, or unticks it and removes the key; flags, visibility, counter and the pending first route are unchanged until the router's `show` runs; the ticked boxes stay the known keys on the stack when they were before, also from the state a thrown `show` leaves; the route it builds decodes back to the new stack |

## Left out

- Rendering is not modelled: d3/jQuery selections, SVG attributes, axes, scales, `raise`/`moveToFront`, `activeInForeground`, transitions, tooltips, `BSN.initCallback`, `requestAnimationFrame` and `setTimeout`. What is visible is kept as sets of shown, dark or highlighted groups.
- src/transitionLine.js, src/dimensions.js and vite.config.js are not part of this model: they hold animation, pixel layout and build configuration only.
- `d3.stack` (src/requests.js:16-19) is a library call; the model stops at its input `groupData` and the stack keys.
- config.json is not part of this model. Labels, colours, default institutions and rate views are parameters.
- The CSV file is not part of this model. `granted`, `not_granted` and `filed_requests` are modelled as integers. `filed_requests || 0` is then the value itself.
- src/utils.js is not part of this model. `sumArray(rows, field)` is modelled as the sum of that field.
- JsNumbers.RoundedPercent: `Math.round(a / b * 100)` is computed exactly on rationals. The floating-point quotient can round differently at exact halves.
- Groups.Aggregate: the `⌀` entries carry their year as the integer bucket key. In the source the year is the string key of `Object.entries`.
- JsObjects.Entries: lists every integer key in ascending order. The engine does this only for array-index keys 0 … 2³²−2, so negative years would follow in insertion order.
- Rows.LoadRows: fails on every kept row whose year does not parse to an integer. In src/data.js the comparator then returns NaN, which the sort reads as 0, so the order is implementation-defined only when that makes the comparator inconsistent. The model also fails where the source's order is well defined: with a single kept row, when all parsed years are equal, and in js/ifg.js:289-298, where a failed d3 date parse gives `null`, which the subtraction reads as 0.
- Rows.Normalise: returns new values. The source's `map` overwrites year, count and transparency in the CSV objects in place.
- Rows.LoadRows: the year parser is a parameter. src/data.js and src/main.js use `parseInt(s, 10)` (JsNumbers.ParseInt); js/ifg.js:289 uses a d3 date format, whose years the model treats as integers.
- Ifg.IfgChart.ActivateGroup: does not model the label box, which shows when the key is on top of the stack (js/ifg.js:87-105).
- Ifg.IfgChart.Show: returns the redirect instead of calling `router.navigate`; the jQuery `hide` of the labels is not modelled. A TypeError is returned as the outcome `Threw` rather than propagated to the caller.
- Ifg.IfgChart.ActivateGroup, Ifg.IfgChart.DeactivateGroup and Ifg.IfgChart.RefreshAllActiveGroups: `activeInForeground` (js/ifg.js:139-140) also throws in these when the stack's top is not a group key. It runs after their state change, so their new state is the one stated, but the exception is not signalled. Only Show models it, because there it stops the reset loop.
- Ifg.IfgChart.UpdateNav: returns the route instead of navigating. The Backbone router then calls `show` with it, and that call is not modelled.
- MainChart.MakeGroups: when the loop throws, the source has already stored the groups of the earlier labels in the module-level `groups` (src/main.js:195-200), and its handlers go on reading them. The model returns only the error.
- Ifg.IfgChart.NavigateToKey: the model assumes one checkbox per group key. Keys without a box read as unticked, as `prop('checked')` is undefined for them.
- Ifg.KnownPieces: `groups[p] !== undefined` also holds for inherited properties such as `constructor`. The model treats only group keys as known.
- The "choose all" handler of js/ifg.js (lines 466 onwards) is outside the modelled core.
- Rates.RateChart.DeactivateGroup: whether the circles are hidden is not tracked, only that they exist.
- Rates.RateChart.SelectCategory: the option value is modelled as an index into the rate views. Redrawing after the change is rendering.
- SuccessRate.SuccessChart: the dots register a second `mouseover`/`mouseout` pair (src/successRate.js:98-121), which replaces the group activation with tooltips. Only the group handlers are modelled.

## Findings

| source | as written | input that shows it | evidently intended | confidence | as-written member | corrected member |
|---|---|---|---|---|---|---|
| src/main.js:195-200 | `makeGroup` runs for every label key, and reads `transparency` of the last row of the label's group (src/main.js:138-139) | a label table with the key `⌀`, as src/data.js:17 and src/requests.js:13-14 show, and CSV rows none of which is named `⌀`: the group is empty and `lastBubble` is undefined, so the loop throws | labels without rows get no group, since there is no line to draw | medium, not executed | MainChart.MakeGroups (with MainChart.UnmatchedLabelFails) | MainChart.MakeNonEmptyGroups |
