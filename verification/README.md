# Blood-sugar tracker: the hourly reading set

A Dafny model of the logic of a client-side blood-sugar diary. A day has 24
hourly slots, each holding a reading in mg/dL or nothing. The model covers the
four parts of the component, which exists in two near-identical trees (the
`src/components/*.js` tree and the `components/*.jsx` tree):

- **Tracker** (`tracker.dfy`, module `Tracker`): the slots, the hour cursor,
  the entry field and its error, and the auto-advance switch. It covers the
  validated add, clear-all, the table's update and delete callbacks, hour
  selection, and the highlight of each hour button.
- **Reading set** (`reading_set.dfy`, module `ReadingSet`): the 24 slots, the
  accepted range [0, 600], the parsed-number checks shared by both entry forms,
  the Low/Normal/High classification (70 and 180 mg/dL) and the cursor's
  wrap-around.
- **Statistics** (`statistics.dfy`, module `Statistics`): the present readings,
  the empty state, the average, minimum and maximum, the below/in/above counts
  and their percentages, and the colour of the average card.
- **Table** (`reading_table.dfy`, module `ReadingTable`): the rows (hours with a
  reading, in ascending hour order) and the inline editor's state machine
  (start, save with validation, cancel).

`wrappers.dfy` holds `Option` (the source's `null`) and `Result`.

The model is pure. Every operation takes a state and returns one, and a
refused input is a value (`Rejection`) rather than a message. `Number.parseFloat`
is a parameter `grammar: string -> Num`. The model fixes two facts about it:
the empty text parses to NaN, and a stored number left in the table's edit
field parses back to itself (a finite number's string form reads back as
that number). A parsed number is `NaN`, `Infinity(negative)` or
`Finite(real)`. Arithmetic is exact real arithmetic.

## Model

| member | source | states |
|---|---|---|
| ReadingSet.ParseFloat | src/components/BloodSugarTracker.js:74 | `Number.parseFloat` of the empty text is NaN whatever the grammar. Non-empty text is read by the grammar |
| ReadingSet.ValidateNumber | src/components/BloodSugarTable.js:19-29 | a parsed value is accepted exactly when it is finite and in [0, 600], and then unchanged. NaN is refused as not-a-number. Everything else, both infinities included, is refused as out of range. The tracker applies the same checks at src/components/BloodSugarTracker.js:74-83 |
| ReadingSet.Classify | src/components/BloodSugarTable.js:49-69 | Low exactly below 70, High exactly above 180, and Normal exactly on [70, 180]. The same thresholds are used at components/blood-sugar-table.jsx:53-69 and in both trees' button and average colours |
| ReadingSet.ClassifyBoundaries | src/components/BloodSugarTable.js:50-62 | 69.9 is Low, 70 and 180 are Normal, and 180.1 is High |
| ReadingSet.Empty | src/components/BloodSugarTracker.js:23 | `Array(24).fill(null)`: 24 slots, none holding a reading |
| ReadingSet.SetSlot | src/components/BloodSugarTracker.js:90-91 | copy-and-write: the length is kept, slot h holds the new value, and every other slot is unchanged |
| ReadingSet.NextHour | src/components/BloodSugarTracker.js:98 | the next cursor position stays in 0..23. It is h+1 below 23 and wraps from 23 to 0 |
| ReadingSet.NextHourWraps | components/blood-sugar-tracker.jsx:101 | the next hour after 23 is 0, and after h in 0..22 it is h+1 |
| Statistics.Present | src/components/BloodSugarStats.js:5 | the null filter yields at most one reading per slot (its members are given by PresentMembers) |
| Statistics.PresentMembers | components/blood-sugar-stats.jsx:9 | a value is a valid reading exactly when some slot holds it |
| Statistics.Filter | src/components/BloodSugarStats.js:22 | `filter` keeps exactly the readings satisfying the predicate, each as many times as it occurs in the input, and drops every other reading |
| Statistics.Reduce | src/components/BloodSugarStats.js:17 | `reduce((sum, val) => sum + val, acc)`, folding from the left, gives the start value plus the sum of the readings (Statistics.Sum, the head-first reference sum) |
| Statistics.Percent | src/components/BloodSugarStats.js:23 | `(part / total) * 100` is never negative and is at most 100 when part ≤ total. It is 0 for a part of 0 and exactly 100 when part is the whole |
| Statistics.MinOf | src/components/BloodSugarStats.js:18 | `Math.min` returns one of the readings, and that reading is at or below all of them |
| Statistics.MaxOf | src/components/BloodSugarStats.js:19 | `Math.max` returns one of the readings, and that reading is at or above all of them |
| Statistics.SumBounds | src/components/BloodSugarStats.js:17 | readings between lo and hi sum to between count·lo and count·hi |
| Statistics.AverageBetween | components/blood-sugar-stats.jsx:21-23 | the average of readings lying between lo and hi also lies between them |
| Statistics.RangesPartition | src/components/BloodSugarStats.js:22-31 | the below (<70), in ([70,180]) and above (>180) filters partition the readings, so their counts sum to the total |
| Statistics.SummaryOf | components/blood-sugar-stats.jsx:20-35 | for a non-empty list: count = length, average = sum/count, min and max are members bounding every reading, and min ≤ average ≤ max. `below` is the number of readings under 70, `inRange` the number in [70, 180], and `above` the number over 180 (each a `filter` length), and the three sum to count |
| Statistics.Summarize | src/components/BloodSugarStats.js:5-31 | the empty state exactly when no slot has a reading. Otherwise the summary of the present readings, with the properties of SummaryOf stated over the slots, including what each of the three range counts counts |
| Statistics.AllAbsentHasNoReadings | src/components/BloodSugarStats.js:7-14 | a day with no reading shows the empty state |
| Statistics.PercentagesPartition | src/components/BloodSugarStats.js:23-31 | each of the three range percentages is in [0, 100], and together they sum to 100 |
| Statistics.ThreePercentages | components/blood-sugar-stats.jsx:26-35 | three counts that add up to a positive total give percentages in [0, 100] summing to 100 |
| Statistics.AverageColor | src/components/BloodSugarStats.js:34-38 | the average card is red exactly when the average is below 70 and orange exactly when it is above 180. The same code is at components/blood-sugar-stats.jsx:38-42 |
| Statistics.UniformDayAverage | components/blood-sugar-stats.jsx:38-42 | when every reading of the day falls in one band, the average card shows that band |
| Statistics.ExampleDay | src/components/BloodSugarStats.js:17-31 | readings 70, 180, 50 and 200 give count 4, mean 125, min 50, max 200, and 25 % below, 50 % in and 25 % above range |
| ReadingTable.RowsFrom | src/components/BloodSugarTable.js:43-45 | the map-and-filter yields rows in strictly ascending hour order, each carrying its slot's reading |
| ReadingTable.RowsFromComplete | components/blood-sugar-table.jsx:47-49 | every hour with a reading gets a row |
| ReadingTable.InsertByHour | src/components/BloodSugarTable.js:46 | one insertion step of the sort keeps the rows ordered by hour and adds only the inserted row |
| ReadingTable.InsertPermutes | components/blood-sugar-table.jsx:50 | an insertion step adds exactly the inserted row and loses none |
| ReadingTable.SortByHour | src/components/BloodSugarTable.js:46 | the sort by hour returns an ascending permutation of its input |
| ReadingTable.SortKeepsAscendingRows | components/blood-sugar-table.jsx:47-50 | rows already in strictly ascending hour order leave the sort unchanged |
| ReadingTable.Rows | src/components/BloodSugarTable.js:43-46 | the table rows are exactly the (hour, reading) pairs of the non-null slots, in strictly ascending hour order |
| ReadingTable.ParseEditValue | src/components/BloodSugarTable.js:19 | the edit field parsed: a number left in the field is read back unchanged, the empty text is NaN, and other text is read by the grammar |
| ReadingTable.FreshTableIgnoresSave | src/components/BloodSugarTable.js:7-9 | the editor starts with no hour being edited, an empty field and no error (`Idle`). In that state save does nothing and calls no `onUpdate`, because of the `editingHour !== null` guard at src/components/BloodSugarTable.js:18, and cancel leaves it as it is |
| ReadingTable.StartEditing | src/components/BloodSugarTable.js:11-15 | start editing sets the editing hour and clears the error. The field holds the stored number, except that a stored 0, being falsy, starts as the empty text |
| ReadingTable.StartEditingIntended | components/blood-sugar-table.jsx:15-19 | the corrected start: the field always holds the stored number (see Findings) |
| ReadingTable.SetEditValue | src/components/BloodSugarTable.js:115 | typing replaces the field, and the editing hour and the error stay as they were |
| ReadingTable.SaveEdit | src/components/BloodSugarTable.js:17-35 | save with no hour being edited changes nothing. A NaN field sets the not-a-number error and an out-of-range value the range error. Both stay in edit mode without calling `onUpdate`. A valid value calls `onUpdate(hour, value)` once with an in-range value, leaves edit mode and clears the error |
| ReadingTable.CancelEdit | src/components/BloodSugarTable.js:37-40 | cancel leaves edit mode and clears the error, with no update. The field is kept |
| ReadingTable.StoredZeroCannotBeResaved | components/blood-sugar-table.jsx:17 | as written, saving a stored 0 without typing is refused as not-a-number, and `onUpdate` is not called |
| ReadingTable.UnchangedReadingResaves | components/blood-sugar-table.jsx:21-38 | with the corrected start, saving any unchanged in-range reading writes that reading back and leaves edit mode |
| Tracker.Init | src/components/BloodSugarTracker.js:23-26 | a fresh session has 24 empty slots, the cursor on the clock's hour, an empty entry field and no error. Its statistics show the empty state, and its table has no rows |
| Tracker.CheckInput | src/components/BloodSugarTracker.js:69-88 | the add checks run in order: empty input, then NaN, then the range [0, 600], then the hour. Each refusal happens exactly when the earlier checks pass and its own fails |
| Tracker.AddReading | src/components/BloodSugarTracker.js:66-100 | a refused input changes nothing but the error. An accepted one writes only slot currentHour, clears the field and the error, and keeps length 24. The cursor moves to the next hour (23 wraps to 0) when auto-advance is on and stays otherwise. The cursor stays in 0..23, and readings stay in [0, 600] |
| Tracker.ClearAll | src/components/BloodSugarTracker.js:109-114 | the confirmed clear gives 24 empty slots and touches nothing else. Afterwards the statistics show the empty state |
| Tracker.UpdateReading | src/components/BloodSugarTracker.js:298-302 | `onUpdate(h, v)` sets slot h to v and leaves every other slot and field unchanged |
| Tracker.DeleteReading | src/components/BloodSugarTracker.js:308-312 | `onDelete(h)` empties slot h and leaves every other slot and field unchanged |
| Tracker.SelectHour | src/components/BloodSugarTracker.js:174 | an hour button moves the cursor to its hour (0..23) and changes nothing else |
| Tracker.SetAutoAdvance | src/components/BloodSugarTracker.js:206 | the checkbox sets the auto-advance switch and changes no other field |
| Tracker.SetInput | src/components/BloodSugarTracker.js:218 | typing sets the entry field and changes no other field |
| Tracker.TimeButtonStyle | src/components/BloodSugarTracker.js:125-140 | an hour with a reading shows its band (red/orange/green), taking precedence over the selected highlight. An empty selected hour is highlighted, and an empty unselected hour is plain (""). The same logic is at components/blood-sugar-tracker.jsx:134-149 |
| Tracker.TableMatchesStatistics | components/blood-sugar-stats.jsx:113 | the table's row values are exactly the statistics' valid readings, so the reported total is the number of non-null slots |
| Tracker.ButtonMatchesBadge | components/blood-sugar-tracker.jsx:134-141 | an hour's button shows the same band as that hour's table badge |
| Tracker.TableSaveKeepsReadingsInBounds | components/blood-sugar-tracker.jsx:286-290 | a save from the table followed by `onUpdate` changes only the edited hour, keeps 24 slots, and keeps every reading in [0, 600] |

## Left out

- Loading and saving the readings and the auto-advance preference in local storage, with their JSON encoding (src/components/BloodSugarTracker.js:13-24, 32-57). This is browser I/O. The loader does not check the length or the values of what it parses. So the model's operations require 24 slots, and no round trip through storage is claimed.
- Toasts, `setTimeout`, `window.confirm` and the input's `focus()`. These are UI side effects. Clear-all is modelled in its confirmed branch only.
- The grammar of `Number.parseFloat` (it accepts a numeric prefix such as "12abc"). It is a parameter of the model. Only two facts are fixed: the empty text parses to NaN, and a stored number left in the edit field parses back to itself (ReadingTable.ParseEditValue).
- Floating point: the model sums, divides and compares exact reals. `toFixed(1)` display rounding is left out. So the displayed percentages may not add up to exactly 100.0, while the model's do. For the same reason the promises min ≤ average ≤ max (Statistics.SummaryOf, Statistics.AverageBetween) and Statistics.UniformDayAverage hold for exact reals but can fail by one rounding step in the source: three readings of 0.1 sum to 0.30000000000000004, whose third is 0.10000000000000002, above the maximum 0.1.
- Statistics.Present: its own contract states only the length bound. Membership is stated separately by Statistics.PresentMembers, so that the statistics proofs stay cheap.
- Statistics.Sum: the reference sum adds head-first, while the average is computed by Statistics.Reduce, the left fold `reduce` performs. The two agree for exact reals. With floating point the order of additions can change the result.
- The CSS class strings. Button and badge colours are modelled as bands (`ButtonStyle`, `Band`). The two trees differ in markup only. The selected-hour classes of the two `getTimeButtonColor` functions differ (`bg-blue-100 …` and `bg-primary/10 …`), and both are modelled as `Selected`. The table badges differ too: src/components/BloodSugarTable.js:49-69 renders `span` elements with `bg-red-100 text-red-800` and similar classes, while components/blood-sugar-table.jsx:53-69 renders `Badge` elements (`variant="destructive"` for Low, `className="bg-orange-500"` for High). Both use the same thresholds and are modelled as `Band`.
- The `try`/`catch` around the update and delete callbacks. Copying an array and assigning an index cannot throw there.
- The chart components (src/components/BloodSugarChart.js, components/blood-sugar-chart.jsx). They are chart-library configuration, and their point colouring uses the same 70/180 thresholds as `Classify`. components/ui/progress.tsx, app/layout.tsx, app/page.jsx and src/App.js are styling and entry points with no logic.
- A stand-alone `setReading(hour, value)` operation does not exist in the code. The add form always writes the cursor's slot, so the hour is `currentHour`, and its range check is the `BadHour` branch of Tracker.CheckInput. A stored set of the wrong length is not replaced by an empty one either (see the first line). The model follows the code.

## Findings

| source | as written | input that shows it | evidently intended | confidence | as-written member | corrected member |
|---|---|---|---|---|---|---|
| src/components/BloodSugarTable.js:13 | `startEditing` passes the stored reading to `setEditValue` with a falsy-value fallback to the empty text, so the edit field starts empty when the stored reading is 0 (the same line is at components/blood-sugar-table.jsx:17) | edit the row of a stored 0 and press save without typing. `parseFloat("")` is NaN, so "Please enter a valid number" appears and the reading cannot be saved back | the field starts with the stored reading whenever there is one (`value ?? ""`) | medium, not executed | ReadingTable.StoredZeroCannotBeResaved | ReadingTable.UnchangedReadingResaves |
