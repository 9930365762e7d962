/**
  The tracker: the reading set, the hour cursor, the entry field and its
  error, and the auto-advance switch; the operations behind the entry form,
  the hour buttons, the clear button and the table callbacks.
 */
module Tracker {
  import opened Wrappers
  import opened ReadingSet
  import Statistics
  import ReadingTable

  datatype State = State(
    readings: Slots,
    currentHour: int,
    input: string,
    error: Option<Rejection>,
    autoAdvance: bool)

  /** How an hour button is highlighted: by its reading's band, as the selected hour, or not at all. */
  datatype ButtonStyle = Reading(band: Band) | Selected | Plain

  /** Twenty-four slots and a cursor on one of them. */
  predicate Valid(st: State) {
    |st.readings| == Hours && IsHour(st.currentHour)
  }

  /** A session: no readings, the cursor on the current hour of the clock, the saved auto-advance preference. */
  function Init(hourOfDay: int, autoAdvance: bool): (st: State)
    requires IsHour(hourOfDay)
    ensures Valid(st)
    ensures st.currentHour == hourOfDay && st.autoAdvance == autoAdvance
    ensures st.input == "" && st.error == None
    ensures Statistics.Summarize(st.readings) == Statistics.NoReadings
    ensures |ReadingTable.Rows(st.readings)| == 0
  {
    EmptyDay();
    State(Empty(), hourOfDay, "", None, autoAdvance)
  }

  /** A day with no readings shows the empty statistics and an empty table. */
  lemma EmptyDay()
    ensures Statistics.Summarize(Empty()) == Statistics.NoReadings
    ensures |ReadingTable.Rows(Empty())| == 0
  {
    Statistics.AllAbsentHasNoReadings(Empty());
    TableMatchesStatistics(Empty());
  }

  /** The entry form's checks, in order: missing value, NaN, range, hour. */
  function CheckInput(input: string, grammar: string -> Num, hour: int): (r: Result<real, Rejection>)
    ensures r == Failure(MissingValue) <==> input == ""
    ensures r == Failure(NotANumber) <==> input != "" && grammar(input).NaN?
    ensures r == Failure(OutOfRange) <==>
      input != "" && !grammar(input).NaN? && !(grammar(input).Finite? && InBounds(grammar(input).value))
    ensures r == Failure(BadHour) <==>
      input != "" && grammar(input).Finite? && InBounds(grammar(input).value) && !IsHour(hour)
    ensures r.Success? ==> r.value == grammar(input).value && InBounds(r.value) && IsHour(hour)
  {
    if input == "" then Failure(MissingValue)
    else
      match ValidateNumber(ParseFloat(grammar, input))
      case Failure(reason) => Failure(reason)
      case Success(v) => if hour < 0 || hour > 23 then Failure(BadHour) else Success(v)
  }

  /**
    The Add button: a refused input only sets the error; an accepted one
    writes the current hour's slot, empties the field and, with auto-advance
    on, moves the cursor to the next hour.
   */
  function AddReading(st: State, grammar: string -> Num): (r: State)
    requires |st.readings| == Hours
    ensures |r.readings| == Hours
    ensures Valid(st) ==> Valid(r)
    ensures r.error.None? <==> CheckInput(st.input, grammar, st.currentHour).Success?
    ensures r.error.Some? ==> r == st.(error := Some(CheckInput(st.input, grammar, st.currentHour).error))
    ensures r.error.None? ==>
      && r.readings[st.currentHour] == Some(grammar(st.input).value)
      && (forall h :: 0 <= h < Hours && h != st.currentHour ==> r.readings[h] == st.readings[h])
      && r.input == ""
      && r.autoAdvance == st.autoAdvance
    ensures r.error.None? && st.autoAdvance && st.currentHour < Hours - 1 ==> r.currentHour == st.currentHour + 1
    ensures r.error.None? && st.autoAdvance && st.currentHour == Hours - 1 ==> r.currentHour == 0
    ensures !st.autoAdvance ==> r.currentHour == st.currentHour
    ensures AllInBounds(st.readings) ==> AllInBounds(r.readings)
  {
    match CheckInput(st.input, grammar, st.currentHour)
    case Failure(reason) => st.(error := Some(reason))
    case Success(v) =>
      st.(readings := SetSlot(st.readings, st.currentHour, Some(v)),
          input := "",
          error := None,
          currentHour := if st.autoAdvance then NextHour(st.currentHour) else st.currentHour)
  }

  /** The confirmed branch of "Clear All Data": twenty-four empty slots, nothing else touched. */
  function ClearAll(st: State): (r: State)
    ensures |r.readings| == Hours
    ensures forall h :: 0 <= h < Hours ==> r.readings[h] == None
    ensures r == st.(readings := r.readings)
    ensures Valid(st) ==> Valid(r)
    ensures Statistics.Summarize(r.readings) == Statistics.NoReadings
  {
    var r := st.(readings := Empty());
    Statistics.AllAbsentHasNoReadings(r.readings);
    r
  }

  /** The table's `onUpdate(hour, value)`: only that slot changes. */
  function UpdateReading(st: State, hour: nat, value: real): (r: State)
    requires hour < |st.readings|
    ensures |r.readings| == |st.readings|
    ensures r.readings[hour] == Some(value)
    ensures forall h :: 0 <= h < |st.readings| && h != hour ==> r.readings[h] == st.readings[h]
    ensures r == st.(readings := r.readings)
    ensures Valid(st) ==> Valid(r)
  {
    st.(readings := SetSlot(st.readings, hour, Some(value)))
  }

  /** The table's `onDelete(hour)`: only that slot changes, to no reading. */
  function DeleteReading(st: State, hour: nat): (r: State)
    requires hour < |st.readings|
    ensures |r.readings| == |st.readings|
    ensures r.readings[hour] == None
    ensures forall h :: 0 <= h < |st.readings| && h != hour ==> r.readings[h] == st.readings[h]
    ensures r == st.(readings := r.readings)
    ensures Valid(st) ==> Valid(r)
    ensures AllInBounds(st.readings) ==> AllInBounds(r.readings)
  {
    st.(readings := SetSlot(st.readings, hour, None))
  }

  /** An hour button's click moves the cursor there. */
  function SelectHour(st: State, hour: int): (r: State)
    requires IsHour(hour)
    ensures r.currentHour == hour
    ensures r == st.(currentHour := hour)
    ensures |st.readings| == Hours ==> Valid(r)
  {
    st.(currentHour := hour)
  }

  /** The auto-advance checkbox. */
  function SetAutoAdvance(st: State, on: bool): (r: State)
    ensures r.autoAdvance == on
    ensures Valid(st) ==> Valid(r)
    ensures r.readings == st.readings && r.currentHour == st.currentHour
    ensures r.input == st.input && r.error == st.error
  {
    st.(autoAdvance := on)
  }

  /** The entry field's `onChange`. */
  function SetInput(st: State, text: string): (r: State)
    ensures r.input == text
    ensures Valid(st) ==> Valid(r)
    ensures r.readings == st.readings && r.currentHour == st.currentHour
    ensures r.error == st.error && r.autoAdvance == st.autoAdvance
  {
    st.(input := text)
  }

  /**
    The highlight of the button for `hour`: a reading's band wins over the
    selected-hour highlight; an empty hour that is not selected is plain.
   */
  function TimeButtonStyle(st: State, hour: nat): (b: ButtonStyle)
    requires hour < |st.readings|
    ensures b.Reading? <==> st.readings[hour].Some?
    ensures b.Reading? ==> b.band == Classify(st.readings[hour].value)
    ensures b == Selected <==> st.readings[hour].None? && hour == st.currentHour
    ensures b == Plain <==> st.readings[hour].None? && hour != st.currentHour
  {
    match st.readings[hour]
    case Some(v) => Reading(Classify(v))
    case None => if hour == st.currentHour then Selected else Plain
  }

  /** The reading values of the table rows, in row order. */
  function Values(rows: seq<ReadingTable.Row>): (vs: seq<real>)
    ensures |vs| == |rows|
    ensures forall k :: 0 <= k < |rows| ==> vs[k] == rows[k].value
  {
    if |rows| == 0 then [] else [rows[0].value] + Values(rows[1..])
  }

  lemma {:induction false} RowsFromValues(s: Slots, i: nat)
    requires i <= |s|
    ensures Values(ReadingTable.RowsFrom(s, i)) == Statistics.Present(s[i..])
    decreases |s| - i
  {
    if i < |s| {
      RowsFromValues(s, i + 1);
      assert s[i..][1..] == s[i + 1..];
      var rest := ReadingTable.RowsFrom(s, i + 1);
      if s[i].Some? {
        assert ReadingTable.RowsFrom(s, i) == [ReadingTable.Row(i, s[i].value)] + rest;
        assert Values(ReadingTable.RowsFrom(s, i)) == [s[i].value] + Values(rest);
      }
    }
  }

  /**
    The table and the statistics panel see the same readings: the rows'
    values are the panel's present readings, so the number of rows is the
    panel's total.
   */
  lemma TableMatchesStatistics(s: Slots)
    ensures Values(ReadingTable.Rows(s)) == Statistics.Present(s)
    ensures |ReadingTable.Rows(s)| == |Statistics.Present(s)|
  {
    var indexed := ReadingTable.RowsFrom(s, 0);
    ReadingTable.SortKeepsAscendingRows(indexed);
    RowsFromValues(s, 0);
    assert s[0..] == s;
  }

  /** An hour button and that hour's table badge show the same band. */
  lemma ButtonMatchesBadge(st: State, k: nat)
    requires k < |ReadingTable.Rows(st.readings)|
    ensures var row := ReadingTable.Rows(st.readings)[k];
      TimeButtonStyle(st, row.hour) == Reading(Classify(row.value))
  {
  }

  /**
    A save from the table editor followed by the tracker's `onUpdate` changes
    only the edited hour and keeps every reading within [0, 600].
   */
  lemma TableSaveKeepsReadingsInBounds(st: State, e: ReadingTable.Editor, grammar: string -> Num)
    requires Valid(st) && AllInBounds(st.readings)
    requires e.editingHour.Some? ==> e.editingHour.value < Hours
    ensures var out := ReadingTable.SaveEdit(e, grammar);
      out.update.Some? ==>
        var r := UpdateReading(st, out.update.value.hour, out.update.value.value);
        && Valid(r) && AllInBounds(r.readings)
        && (forall h :: 0 <= h < Hours && h != out.update.value.hour ==> r.readings[h] == st.readings[h])
  {
  }
}
