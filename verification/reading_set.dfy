/**
  The hourly reading set: one optional blood-sugar reading (mg/dL) per hour of
  the day, together with the vocabulary every view shares: the accepted value
  range, the 70/180 target band and the hour cursor arithmetic.
 */
module ReadingSet {
  import opened Wrappers

  /** One slot per hour of the day, hours 0 through 23. */
  const Hours: nat := 24

  /** The inclusive range of a reading the entry forms accept. */
  const MinReading: real := 0.0
  const MaxReading: real := 600.0

  /** The target range: below 70 is low, above 180 is high. */
  const LowThreshold: real := 70.0
  const HighThreshold: real := 180.0

  /** Slot `h` holds the reading for hour `h`; `None` is an hour without a reading. */
  type Slots = seq<Option<real>>

  /** A JavaScript number as `Number.parseFloat` returns it. */
  datatype Num = NaN | Infinity(negative: bool) | Finite(value: real)

  /** Why an entered value is refused; each tag stands for one error message of the forms. */
  datatype Rejection = MissingValue | NotANumber | OutOfRange | BadHour

  /** The classification of a reading against the target range. */
  datatype Band = Low | Normal | High

  predicate IsHour(h: int) {
    0 <= h < Hours
  }

  predicate InBounds(v: real) {
    MinReading <= v <= MaxReading
  }

  /**
    `Number.parseFloat` on the text of an input field. The empty text never
    parses; the grammar of non-empty text is left abstract as `grammar`.
   */
  function ParseFloat(grammar: string -> Num, text: string): (n: Num)
    ensures text == "" ==> n == NaN
    ensures text != "" ==> n == grammar(text)
  {
    if text == "" then NaN else grammar(text)
  }

  /**
    The checks both entry forms apply to a parsed number, in their order: NaN
    first, then the range. Either infinity compares below 0 or above 600 and
    is therefore out of range.
   */
  function ValidateNumber(n: Num): (r: Result<real, Rejection>)
    ensures r.Success? <==> n.Finite? && InBounds(n.value)
    ensures r.Success? ==> r.value == n.value
    ensures r == Failure(NotANumber) <==> n.NaN?
    ensures r.Failure? ==> r.error == NotANumber || r.error == OutOfRange
  {
    match n
    case NaN => Failure(NotANumber)
    case Infinity(_) => Failure(OutOfRange)
    case Finite(v) => if v < MinReading || v > MaxReading then Failure(OutOfRange) else Success(v)
  }

  /** Low below 70, High above 180, Normal on the closed range in between. */
  function Classify(v: real): (b: Band)
    ensures b == Low <==> v < LowThreshold
    ensures b == High <==> v > HighThreshold
    ensures b == Normal <==> LowThreshold <= v <= HighThreshold
  {
    if v < LowThreshold then Low
    else if v > HighThreshold then High
    else Normal
  }

  /** The reading set a session starts from and a clear returns to. */
  function Empty(): (s: Slots)
    ensures |s| == Hours
    ensures forall h :: 0 <= h < |s| ==> s[h] == None
  {
    seq(Hours, _ => None)
  }

  /** Copy the slots and overwrite slot `h`. */
  function SetSlot(s: Slots, h: nat, x: Option<real>): (r: Slots)
    requires h < |s|
    ensures |r| == |s|
    ensures r[h] == x
    ensures forall k :: 0 <= k < |s| && k != h ==> r[k] == s[k]
  {
    s[h := x]
  }

  /** The hour after `h`, wrapping from 23 to 0. */
  function NextHour(h: int): (n: int)
    requires IsHour(h)
    ensures IsHour(n)
    ensures h < Hours - 1 ==> n == h + 1
    ensures h == Hours - 1 ==> n == 0
  {
    (h + 1) % Hours
  }

  /** Every present reading lies in the accepted range. */
  predicate AllInBounds(s: Slots) {
    forall h :: 0 <= h < |s| && s[h].Some? ==> InBounds(s[h].value)
  }

  lemma ClassifyBoundaries()
    ensures Classify(69.9) == Low
    ensures Classify(70.0) == Normal
    ensures Classify(180.0) == Normal
    ensures Classify(180.1) == High
  {
  }

  lemma NextHourWraps()
    ensures NextHour(23) == 0
    ensures forall h :: 0 <= h <= 22 ==> NextHour(h) == h + 1
  {
  }
}
