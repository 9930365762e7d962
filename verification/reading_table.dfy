/**
  The readings table: one row per hour that has a reading, and an inline
  editor that validates a new value before handing it to the tracker.
 */
module ReadingTable {
  import opened Wrappers
  import opened ReadingSet

  /** A table row: an hour and its reading. */
  datatype Row = Row(hour: nat, value: real)

  /**
    The edit field holds either text the user typed or, right after an edit
    starts, the stored number itself (the source passes the number through).
   */
  datatype EditValue = Text(text: string) | Number(number: real)

  /** The editor: which hour is being edited, the field, and the error shown. */
  datatype Editor = Editor(editingHour: Option<nat>, editValue: EditValue, error: Option<Rejection>)

  /** The editor after a save, and the `onUpdate(hour, value)` call it made, if any. */
  datatype SaveOutcome = SaveOutcome(editor: Editor, update: Option<Row>)

  /** The editor when the table first renders. */
  const Idle: Editor := Editor(None, Text(""), None)

  predicate StrictlyAscending(rows: seq<Row>) {
    forall i, j :: 0 <= i < j < |rows| ==> rows[i].hour < rows[j].hour
  }

  predicate Ascending(rows: seq<Row>) {
    forall i, j :: 0 <= i < j < |rows| ==> rows[i].hour <= rows[j].hour
  }

  /** `map((value, hour) => ({hour, value})).filter(value !== null)` from hour `i` on. */
  function RowsFrom(s: Slots, i: nat): (rows: seq<Row>)
    requires i <= |s|
    ensures StrictlyAscending(rows)
    ensures forall k :: 0 <= k < |rows| ==> i <= rows[k].hour < |s| && s[rows[k].hour] == Some(rows[k].value)
    decreases |s| - i
  {
    if i == |s| then []
    else
      var rest := RowsFrom(s, i + 1);
      if s[i].Some? then
        var rows := [Row(i, s[i].value)] + rest;
        assert forall k :: 1 <= k < |rows| ==> rows[k] == rest[k - 1];
        rows
      else rest
  }

  /** Every hour from `i` on that has a reading gets a row. */
  lemma {:induction false} RowsFromComplete(s: Slots, i: nat, h: nat)
    requires i <= h < |s| && s[h].Some?
    ensures exists k :: 0 <= k < |RowsFrom(s, i)| && RowsFrom(s, i)[k].hour == h
    decreases |s| - i
  {
    var rows := RowsFrom(s, i);
    if h == i {
      assert rows[0].hour == h;
    } else {
      RowsFromComplete(s, i + 1, h);
      var rest := RowsFrom(s, i + 1);
      var k :| 0 <= k < |rest| && rest[k].hour == h;
      if s[i].Some? {
        assert rows[k + 1] == rest[k];
      } else {
        assert rows[k] == rest[k];
      }
    }
  }

  /** Insert `r` before the first row with an hour not below its own. */
  function InsertByHour(r: Row, rows: seq<Row>): (res: seq<Row>)
    requires Ascending(rows)
    ensures Ascending(res)
    ensures forall x :: x in res ==> x == r || x in rows
  {
    if |rows| == 0 || r.hour <= rows[0].hour then [r] + rows
    else
      var rest := InsertByHour(r, rows[1..]);
      assert rows == [rows[0]] + rows[1..];
      var res := [rows[0]] + rest;
      assert forall k :: 1 <= k < |res| ==> res[k] == rest[k - 1];
      assert forall k :: 0 <= k < |rest| ==> rows[0].hour <= rest[k].hour by {
        forall k | 0 <= k < |rest| ensures rows[0].hour <= rest[k].hour {
          assert rest[k] in rest;
        }
      }
      res
  }

  /** Inserting adds exactly one row and loses none. */
  lemma {:induction false} InsertPermutes(r: Row, rows: seq<Row>)
    requires Ascending(rows)
    ensures multiset(InsertByHour(r, rows)) == multiset(rows) + multiset{r}
  {
    if |rows| > 0 && r.hour > rows[0].hour {
      InsertPermutes(r, rows[1..]);
      assert rows == [rows[0]] + rows[1..];
    }
  }

  /** `sort((a, b) => a.hour - b.hour)`, as a stable insertion sort. */
  function SortByHour(rows: seq<Row>): (res: seq<Row>)
    ensures Ascending(res)
    ensures multiset(res) == multiset(rows)
  {
    if |rows| == 0 then []
    else
      var sorted := SortByHour(rows[1..]);
      InsertPermutes(rows[0], sorted);
      assert rows == [rows[0]] + rows[1..];
      InsertByHour(rows[0], sorted)
  }

  /** Rows already in strictly ascending hour order come out of the sort unchanged. */
  lemma {:induction false} SortKeepsAscendingRows(rows: seq<Row>)
    requires StrictlyAscending(rows)
    ensures SortByHour(rows) == rows
  {
    if |rows| > 0 {
      SortKeepsAscendingRows(rows[1..]);
      assert rows == [rows[0]] + rows[1..];
    }
  }

  /** The rows the table lists: exactly the hours with a reading, in ascending hour order. */
  function Rows(s: Slots): (rows: seq<Row>)
    ensures StrictlyAscending(rows)
    ensures forall k :: 0 <= k < |rows| ==> rows[k].hour < |s| && s[rows[k].hour] == Some(rows[k].value)
    ensures forall h :: 0 <= h < |s| && s[h].Some? ==> exists k :: 0 <= k < |rows| && rows[k].hour == h
  {
    var indexed := RowsFrom(s, 0);
    SortKeepsAscendingRows(indexed);
    assert forall h :: 0 <= h < |s| && s[h].Some? ==> exists k :: 0 <= k < |indexed| && indexed[k].hour == h by {
      forall h | 0 <= h < |s| && s[h].Some? ensures exists k :: 0 <= k < |indexed| && indexed[k].hour == h {
        RowsFromComplete(s, 0, h);
      }
    }
    SortByHour(indexed)
  }

  /** What `Number.parseFloat` makes of the edit field. */
  function ParseEditValue(grammar: string -> Num, f: EditValue): (n: Num)
    ensures f.Number? ==> n == Finite(f.number)
    ensures f == Text("") ==> n == NaN
    ensures f.Text? && f.text != "" ==> n == grammar(f.text)
  {
    match f
    case Text(t) => ParseFloat(grammar, t)
    case Number(v) => Finite(v)
  }

  /**
    Begin editing the row for `hour`. The field starts as `value || ""`, so a
    stored 0 starts as the empty text.
   */
  function StartEditing(hour: nat, value: real): (e: Editor)
    ensures e.editingHour == Some(hour) && e.error == None
    ensures value != 0.0 ==> e.editValue == Number(value)
    ensures value == 0.0 ==> e.editValue == Text("")
  {
    Editor(Some(hour), if value == 0.0 then Text("") else Number(value), None)
  }

  /** Begin editing with the stored value in the field, whatever that value is. */
  function StartEditingIntended(hour: nat, value: real): (e: Editor)
    ensures e.editingHour == Some(hour) && e.error == None
    ensures e.editValue == Number(value)
  {
    Editor(Some(hour), Number(value), None)
  }

  /** The edit field's `onChange`. */
  function SetEditValue(e: Editor, text: string): (e': Editor)
    ensures e'.editValue == Text(text)
    ensures e'.editingHour == e.editingHour && e'.error == e.error
  {
    e.(editValue := Text(text))
  }

  /**
    Save the edit: nothing happens when no hour is being edited; a NaN or
    out-of-range field sets the error and stays in edit mode; a valid value
    is passed to `onUpdate` and the editor leaves edit mode.
   */
  function SaveEdit(e: Editor, grammar: string -> Num): (out: SaveOutcome)
    ensures e.editingHour.None? ==> out == SaveOutcome(e, None)
    ensures e.editingHour.Some? ==>
      (out.update.Some? <==> ParseEditValue(grammar, e.editValue).Finite? && InBounds(ParseEditValue(grammar, e.editValue).value))
    ensures out.update.Some? ==>
      && out.update.value == Row(e.editingHour.value, ParseEditValue(grammar, e.editValue).value)
      && InBounds(out.update.value.value)
      && out.editor == e.(editingHour := None, error := None)
    ensures e.editingHour.Some? && ParseEditValue(grammar, e.editValue).NaN? ==>
      out == SaveOutcome(e.(error := Some(NotANumber)), None)
    ensures e.editingHour.Some? && !ParseEditValue(grammar, e.editValue).NaN? && out.update.None? ==>
      out == SaveOutcome(e.(error := Some(OutOfRange)), None)
  {
    match e.editingHour
    case None => SaveOutcome(e, None)
    case Some(hour) =>
      match ValidateNumber(ParseEditValue(grammar, e.editValue))
      case Failure(reason) => SaveOutcome(e.(error := Some(reason)), None)
      case Success(v) => SaveOutcome(e.(editingHour := None, error := None), Some(Row(hour, v)))
  }

  /** Leave edit mode without calling `onUpdate`; the field keeps its text. */
  function CancelEdit(e: Editor): (e': Editor)
    ensures e'.editingHour == None && e'.error == None
    ensures e'.editValue == e.editValue
  {
    e.(editingHour := None, error := None)
  }

  /** A table that has not started an edit ignores save and cancel: the `editingHour !== null` guard. */
  lemma FreshTableIgnoresSave(grammar: string -> Num)
    ensures SaveEdit(Idle, grammar) == SaveOutcome(Idle, None)
    ensures CancelEdit(Idle) == Idle
  {
  }

  /** As written, a stored reading of 0 cannot be saved back unchanged: the field starts empty and fails to parse. */
  lemma StoredZeroCannotBeResaved(hour: nat, grammar: string -> Num)
    ensures SaveEdit(StartEditing(hour, 0.0), grammar)
         == SaveOutcome(Editor(Some(hour), Text(""), Some(NotANumber)), None)
  {
  }

  /** With the stored value in the field, saving an unchanged in-range reading writes it back. */
  lemma UnchangedReadingResaves(hour: nat, value: real, grammar: string -> Num)
    requires InBounds(value)
    ensures SaveEdit(StartEditingIntended(hour, value), grammar).update == Some(Row(hour, value))
    ensures SaveEdit(StartEditingIntended(hour, value), grammar).editor.editingHour == None
  {
  }
}
