/**
 * The column-cleaning rules of the vehicle-stops ETL step: one function per
 * cleaned column, each a position-wise map from raw cells to cleaned cells.
 */
module Rules {
  import opened Cells
  import opened Numeric

  // ---------------------------------------------------------------------
  // clean_timestamp
  // ---------------------------------------------------------------------

  /** Five minutes in nanoseconds. */
  const SLOT: int := 5 * 60 * 1000000000

  /** The int64 value that the missing instant (NaT) converts to. */
  const NAT_NANOS: int := -0x8000_0000_0000_0000

  /**
   * Rounds an instant (nanoseconds since the epoch) strictly up to the next
   * five-minute boundary; a non-positive instant is invalid and becomes missing.
   */
  function RoundUpToSlot(t: int): (r: Cell)
    ensures t <= 0 ==> r == Missing
    ensures t > 0 ==> r.Int? && r.num % SLOT == 0 && t < r.num <= t + SLOT
  {
    if t > 0 then Int((t / SLOT + 1) * SLOT) else Missing
  }

  /** The rounded instant is the least boundary strictly after the input. */
  lemma RoundUpIsLeastLaterBoundary(t: int, m: int)
    requires t > 0 && m % SLOT == 0 && m > t
    ensures RoundUpToSlot(t).num <= m
  {
    assert m == (m / SLOT) * SLOT;
    assert t == (t / SLOT) * SLOT + t % SLOT;
    assert m / SLOT > t / SLOT;
  }

  /** An instant already on a boundary moves to the next boundary. */
  lemma BoundaryMovesToNext(t: int)
    requires t > 0 && t % SLOT == 0
    ensures RoundUpToSlot(t) == Int(t + SLOT)
  {
    assert t == (t / SLOT) * SLOT;
  }

  /** An instant one nanosecond before a boundary rounds to that boundary. */
  lemma JustBeforeBoundary(t: int)
    requires t > 0 && (t + 1) % SLOT == 0
    ensures RoundUpToSlot(t) == Int(t + 1)
  {
    assert t + 1 == ((t + 1) / SLOT) * SLOT;
    assert t / SLOT == (t + 1) / SLOT - 1;
  }

  /**
   * The nanosecond count a cell has once read as a datetime and converted to
   * int64: a missing cell is NaT, an integer is already nanoseconds, a string
   * is read by `parse`, which answers None when no datetime format reads it.
   */
  function Nanos(parse: string -> Option<int>, c: Cell): Option<int> {
    match c
    case Missing => Some(NAT_NANOS)
    case Int(t) => Some(t)
    case Str(s) => parse(s)
  }

  /** Every cell of the column reads as a datetime. */
  predicate Parses(parse: string -> Option<int>, col: Column) {
    forall k :: 0 <= k < |col| ==> Nanos(parse, col[k]).Some?
  }

  function TimestampCell(parse: string -> Option<int>, c: Cell): Cell {
    match Nanos(parse, c)
    case None => Missing
    case Some(t) => RoundUpToSlot(t)
  }

  /**
   * clean_timestamp: fails when some cell cannot be read as a datetime;
   * otherwise each instant is rounded up to the next five-minute boundary.
   */
  function CleanTimestamp(parse: string -> Option<int>, col: Column): (r: Result<Column>)
    ensures r.Ok? <==> Parses(parse, col)
    ensures r.Err? ==> r.error == UnparseableDatetime
    ensures r.Ok? ==> |r.value| == |col|
    ensures r.Ok? ==> forall k :: 0 <= k < |col| ==>
      var t := Nanos(parse, col[k]).value;
      && (t <= 0 ==> r.value[k] == Missing)
      && (t > 0 ==> r.value[k].Int? && r.value[k].num % SLOT == 0 && t < r.value[k].num <= t + SLOT)
  {
    if Parses(parse, col) then Ok(TimestampColumn(parse, col)) else Err(UnparseableDatetime)
  }

  /** The rounded column, consulted only once every cell has been read. */
  function TimestampColumn(parse: string -> Option<int>, col: Column): Column {
    MapCells(c => TimestampCell(parse, c), col)
  }

  /** A missing timestamp stays missing. */
  lemma MissingTimestampStaysMissing(parse: string -> Option<int>)
    ensures TimestampCell(parse, Missing) == Missing
  {
    assert NAT_NANOS <= 0;
  }

  // ---------------------------------------------------------------------
  // clean_stop_cause
  // ---------------------------------------------------------------------

  const KEPT_CAUSES: set<string> := {"Moving Violation", "Equipment Violation"}

  predicate IsKeptCause(c: Cell) {
    c.Str? && c.text in KEPT_CAUSES
  }

  function StopCauseCell(c: Cell): Cell {
    if IsKeptCause(c) then c else Missing
  }

  /**
   * clean_stop_cause: a cell equal to one of the two kept categories stays,
   * every other cell becomes missing.
   */
  function CleanStopCause(col: Column): (r: Column)
    ensures |r| == |col|
    ensures forall k :: 0 <= k < |col| ==> (IsKeptCause(col[k]) ==> r[k] == col[k])
    ensures forall k :: 0 <= k < |col| ==> (!IsKeptCause(col[k]) ==> r[k] == Missing)
  {
    MapCells(StopCauseCell, col)
  }

  /** Cleaning stop causes a second time changes nothing. */
  lemma CleanStopCauseIdempotent(col: Column)
    ensures CleanStopCause(CleanStopCause(col)) == CleanStopCause(col)
  {
    MapCellsIdempotent(StopCauseCell, col);
  }

  // ---------------------------------------------------------------------
  // clean_service_area
  // ---------------------------------------------------------------------

  function ServiceAreaCell(c: Cell): Cell {
    if c == Str("Unknown") then Missing else c
  }

  /** clean_service_area: exactly the value "Unknown" becomes missing; every other cell passes. */
  function CleanServiceArea(col: Column): (r: Column)
    ensures |r| == |col|
    ensures forall k :: 0 <= k < |col| ==> (col[k] == Str("Unknown") ==> r[k] == Missing)
    ensures forall k :: 0 <= k < |col| ==> (col[k] != Str("Unknown") ==> r[k] == col[k])
  {
    MapCells(ServiceAreaCell, col)
  }

  lemma ServiceAreaExample()
    ensures CleanServiceArea([Str("Unknown"), Str("Central"), Str("Unknown")])
         == [Missing, Str("Central"), Missing]
  {
  }

  // ---------------------------------------------------------------------
  // clean_subject_age
  // ---------------------------------------------------------------------

  /** Numeric coercion with errors turned into missing: None for a non-numeric cell. */
  function ToNumber(c: Cell): Option<int> {
    match c
    case Missing => None
    case Int(a) => Some(a)
    case Str(s) => ParseInteger(s)
  }

  /** The outlier filter exactly as the source writes it: at least 15 OR below 100. */
  predicate PassesOutlierFilter(a: int) {
    a >= 15 || a < 100
  }

  /** The multiple of five nearest to an integer age. */
  function RoundToFive(a: int): (r: int)
    ensures r % 5 == 0
    ensures -2 <= r - a <= 2
  {
    5 * ((a + 2) / 5)
  }

  /** No other multiple of five is as near, so ties cannot arise for integers. */
  lemma RoundToFiveIsNearest(a: int, m: int)
    requires m % 5 == 0 && m != RoundToFive(a)
    ensures m - a > 2 || a - m > 2
  {
    var r := RoundToFive(a);
    assert m == 5 * (m / 5) && r == 5 * (r / 5);
    assert m / 5 != r / 5;
  }

  /** The outlier filter removes no numeric value at all. */
  lemma OutlierFilterKeepsAll(a: int)
    ensures PassesOutlierFilter(a)
  {
  }

  function AgeCell(c: Cell): Cell {
    match ToNumber(c)
    case None => Missing
    case Some(a) => if PassesOutlierFilter(a) then Int(RoundToFive(a)) else Missing
  }

  /**
   * clean_subject_age: a non-numeric cell becomes missing; every numeric cell,
   * however large or small, survives the filter and is rounded to the nearest
   * multiple of five.
   */
  function CleanSubjectAge(col: Column): (r: Column)
    ensures |r| == |col|
    ensures forall k :: 0 <= k < |col| ==> (ToNumber(col[k]).None? ==> r[k] == Missing)
    ensures forall k :: 0 <= k < |col| ==> (ToNumber(col[k]).Some? ==>
      r[k].Int? && r[k].num % 5 == 0 && -2 <= r[k].num - ToNumber(col[k]).value <= 2)
  {
    MapCells(AgeCell, col)
  }

  lemma AgeExample()
    ensures CleanSubjectAge([Str("30"), Str("abc"), Str("17"), Int(200)])
         == [Int(30), Missing, Int(15), Int(200)]
  {
    assert DigitsValue("3") == 3;
    assert DigitsValue("30") == 30;
    assert DigitsValue("1") == 1;
    assert DigitsValue("17") == 17;
    NonNumericToken("abc", 0);
  }

  // ---------------------------------------------------------------------
  // clean_subject_sex
  // ---------------------------------------------------------------------

  /** Some character of the string is neither 'M' nor 'F' (the pattern [^MF]). */
  predicate HasOtherThanMF(s: string) {
    exists k :: 0 <= k < |s| && s[k] != 'M' && s[k] != 'F'
  }

  /**
   * The regex replacement {'M': 1, 'F': 0, '[^MF]': NaN}: the first pattern
   * found anywhere in a string replaces the whole cell; non-strings are kept.
   */
  function SexCell(c: Cell): Cell {
    match c
    case Str(s) =>
      if 'M' in s then Int(1)
      else if 'F' in s then Int(0)
      else if HasOtherThanMF(s) then Missing
      else c
    case _ => c
  }

  /**
   * clean_subject_sex: a string holding 'M' becomes 1, else one holding 'F'
   * becomes 0, else any non-empty string becomes missing; the match is
   * case-sensitive and non-string cells pass unchanged.
   */
  function CleanSubjectSex(col: Column): (r: Column)
    ensures |r| == |col|
    ensures forall k :: 0 <= k < |col| ==> (col[k].Str? && 'M' in col[k].text ==> r[k] == Int(1))
    ensures forall k :: 0 <= k < |col| ==>
      (col[k].Str? && 'M' !in col[k].text && 'F' in col[k].text ==> r[k] == Int(0))
    ensures forall k :: 0 <= k < |col| ==>
      (col[k].Str? && col[k].text != "" && 'M' !in col[k].text && 'F' !in col[k].text ==> r[k] == Missing)
    ensures forall k :: 0 <= k < |col| ==> (!col[k].Str? || col[k].text == "" ==> r[k] == col[k])
  {
    assert forall k :: 0 <= k < |col| && col[k].Str? && col[k].text != "" ==> col[k].text[0] in col[k].text;
    MapCells(SexCell, col)
  }

  /** On one-character strings: "M" is 1, "F" is 0, every other character (lower case too) is missing. */
  lemma SexOfOneCharacter(ch: char)
    ensures SexCell(Str([ch])) == if ch == 'M' then Int(1) else if ch == 'F' then Int(0) else Missing
  {
    if ch != 'M' && ch != 'F' {
      assert [ch][0] == ch;
    }
  }

  lemma SexExample()
    ensures CleanSubjectSex([Str("M"), Str("f"), Str("X"), Missing]) == [Int(1), Missing, Missing, Missing]
  {
    SexOfOneCharacter('M');
    SexOfOneCharacter('f');
    SexOfOneCharacter('X');
  }

  // ---------------------------------------------------------------------
  // clean_yes_no
  // ---------------------------------------------------------------------

  predicate HasYes(s: string) {
    'Y' in s || 'y' in s
  }

  predicate HasNo(s: string) {
    'N' in s || 'n' in s
  }

  /**
   * The regex replacement {'Y|y': 1, 'N|n': 0}: the first pattern found
   * anywhere in a string replaces the whole cell; non-strings are kept.
   */
  function YesNoReplace(c: Cell): Cell {
    match c
    case Str(s) => if HasYes(s) then Int(1) else if HasNo(s) then Int(0) else c
    case _ => c
  }

  /** After replacement, only the values 0 and 1 are kept. */
  function YesNoCell(c: Cell): Cell {
    var out := YesNoReplace(c);
    if out == Int(0) || out == Int(1) then out else Missing
  }

  /**
   * The rule clean_yes_no builds for any yes/no column: a string holding Y or y
   * is 1, else one holding N or n is 0; the integers 0 and 1 pass; everything
   * else is missing, so only 0, 1 and missing come out.
   */
  function CleanYesNo(col: Column): (r: Column)
    ensures |r| == |col|
    ensures forall k :: 0 <= k < |col| ==> r[k] == Missing || r[k] == Int(0) || r[k] == Int(1)
    ensures forall k :: 0 <= k < |col| ==>
      (r[k] == Int(1) <==> (col[k].Str? && HasYes(col[k].text)) || col[k] == Int(1))
    ensures forall k :: 0 <= k < |col| ==>
      (r[k] == Int(0) <==> (col[k].Str? && !HasYes(col[k].text) && HasNo(col[k].text)) || col[k] == Int(0))
  {
    MapCells(YesNoCell, col)
  }

  /** Cleaning a yes/no column a second time changes nothing. */
  lemma CleanYesNoIdempotent(col: Column)
    ensures CleanYesNo(CleanYesNo(col)) == CleanYesNo(col)
  {
    MapCellsIdempotent(YesNoCell, col);
  }

  /** "maybe" holds a 'y', so it reads as yes. */
  lemma YesNoExample()
    ensures CleanYesNo([Str("Y"), Str("n"), Str("maybe"), Str("?"), Int(0)])
         == [Int(1), Int(0), Int(1), Missing, Int(0)]
  {
    assert "maybe"[2] == 'y';
  }
}
