/**
 * The dispatcher of the cleaning step: it builds the column-name to rule
 * registry, then reshapes the loaded table (row identifier first, cleaned
 * columns in place, raw date and time columns dropped).
 */
module Dispatch {
  import opened Cells
  import opened Rules

  // ---------------------------------------------------------------------
  // Tables
  // ---------------------------------------------------------------------

  /** A named column. */
  datatype Field = Field(name: string, cells: Column)

  /** A table: its row count and its columns in order. */
  datatype Frame = Frame(rows: nat, fields: seq<Field>)

  /** Every column holds one cell per row. */
  predicate Rectangular(fr: Frame) {
    forall k :: 0 <= k < |fr.fields| ==> |fr.fields[k].cells| == fr.rows
  }

  function Names(fields: seq<Field>): seq<string> {
    seq(|fields|, k requires 0 <= k < |fields| => fields[k].name)
  }

  predicate DistinctNames(fields: seq<Field>) {
    forall i, j :: 0 <= i < j < |fields| ==> fields[i].name != fields[j].name
  }

  predicate HasColumn(fields: seq<Field>, name: string) {
    exists k :: 0 <= k < |fields| && fields[k].name == name
  }

  /** No two columns carry this name. */
  predicate AtMostOnce(fields: seq<Field>, name: string) {
    forall i, j :: 0 <= i < |fields| && 0 <= j < |fields| && fields[i].name == name && fields[j].name == name ==> i == j
  }

  /** frame[name]: the cells of the column with that name (names are unique wherever it is used), None when there is none. */
  function Lookup(fields: seq<Field>, name: string): (r: Option<Column>)
    ensures r.None? <==> !HasColumn(fields, name)
    ensures r.Some? ==> exists k :: 0 <= k < |fields| && fields[k].name == name && r.value == fields[k].cells
  {
    if fields == [] then None
    else if fields[0].name == name then Some(fields[0].cells)
    else
      var r := Lookup(fields[1..], name);
      assert r.Some? ==> exists k :: 1 <= k < |fields| && fields[k].name == name && r.value == fields[k].cells
        by { if r.Some? { var k :| 0 <= k < |fields[1..]| && fields[1..][k].name == name && r.value == fields[1..][k].cells; assert fields[k + 1] == fields[1..][k]; } }
      assert HasColumn(fields, name) ==> HasColumn(fields[1..], name)
        by { if HasColumn(fields, name) { var k :| 0 <= k < |fields| && fields[k].name == name; assert fields[1..][k - 1] == fields[k]; } }
      r
  }

  lemma LookupUnique(fields: seq<Field>, name: string, k: nat)
    requires k < |fields| && fields[k].name == name && AtMostOnce(fields, name)
    ensures Lookup(fields, name) == Some(fields[k].cells)
  {
  }

  // ---------------------------------------------------------------------
  // Rules and the registry
  // ---------------------------------------------------------------------

  /** The cleaning rules; YesNo(c) is the closure clean_yes_no(c). */
  datatype Rule = Timestamp | StopCause | ServiceArea | SubjectAge | SubjectSex | YesNo(column: string)

  /** The column a rule reads from the table it is given. */
  function SourceColumn(rule: Rule): string {
    match rule
    case Timestamp => "timestamp"
    case StopCause => "stop_cause"
    case ServiceArea => "service_area"
    case SubjectAge => "subject_age"
    case SubjectSex => "subject_sex"
    case YesNo(c) => c
  }

  /** The module-level function clean_<name>, when there is one, as an explicit table. */
  function RuleNamed(name: string): Option<Rule> {
    if name == "timestamp" then Some(Timestamp)
    else if name == "stop_cause" then Some(StopCause)
    else if name == "service_area" then Some(ServiceArea)
    else if name == "subject_age" then Some(SubjectAge)
    else if name == "subject_sex" then Some(SubjectSex)
    else None
  }

  const YES_NO_COLUMNS: seq<string> :=
    ["sd_resident", "arrested", "searched", "obtained_consent", "contraband_found", "property_seized"]

  /** The rule a column of this name is cleaned with, when the column is present. */
  function ColumnRule(name: string): Option<Rule> {
    if name in YES_NO_COLUMNS then Some(YesNo(name)) else RuleNamed(name)
  }

  /** Column names no rule is registered under. */
  lemma UnregisteredNames()
    ensures ColumnRule("id") == None && ColumnRule("index") == None && ColumnRule("level_0") == None
    ensures ColumnRule("stop_date") == None && ColumnRule("stop_time") == None
  {
    // The yes/no names are 8, 11, 15 or 16 characters long; the names above are 2, 5, 7 or 9.
    var lengths := [11, 8, 8, 16, 16, 15];
    assert forall k :: 0 <= k < |YES_NO_COLUMNS| ==> |YES_NO_COLUMNS[k]| == lengths[k];
  }

  /** No clean_<name> function is named after a yes/no column. */
  lemma RuleNamesAreNotYesNo(name: string)
    requires RuleNamed(name).Some?
    ensures ColumnRule(name) == RuleNamed(name)
  {
    // The rule names are 9, 10, 11 or 12 characters long and the yes/no names 8, 11, 15 or 16;
    // the one yes/no name of length 11, "sd_resident", has 'd' second, where "subject_age" and "subject_sex" have 'u'.
    var lengths := [11, 8, 8, 16, 16, 15];
    assert forall k :: 0 <= k < |YES_NO_COLUMNS| ==> |YES_NO_COLUMNS[k]| == lengths[k];
    assert forall k :: 0 <= k < |YES_NO_COLUMNS| ==> |YES_NO_COLUMNS[k]| != 11 || YES_NO_COLUMNS[k][1] == 'd';
  }

  /** A name a rule is registered under is neither the identifier, "index", nor a raw date column. */
  lemma RegisteredKeyNames(key: string)
    requires ColumnRule(key).Some?
    ensures key != "id" && key != "index" && key != "level_0" && key !in RAW_DATE_COLUMNS
  {
    UnregisteredNames();
  }

  /** The rule the registry holds for a name, given the names of the table's columns. */
  function RuleFor(names: seq<string>, name: string): Option<Rule> {
    if name in YES_NO_COLUMNS || name in names then ColumnRule(name) else None
  }

  /**
   * The result of applying a rule to a column. Only the timestamp rule can
   * fail, when one of its cells does not read as a datetime.
   */
  function Apply(rule: Rule, parse: string -> Option<int>, col: Column): (r: Result<Column>)
    ensures r.Ok? <==> (rule.Timestamp? ==> Parses(parse, col))
    ensures r.Ok? ==> r.value == Cleaned(rule, parse, col)
  {
    if rule.Timestamp? then CleanTimestamp(parse, col) else Ok(Cleaned(rule, parse, col))
  }

  /** The column a rule produces when it succeeds. */
  function Cleaned(rule: Rule, parse: string -> Option<int>, col: Column): (r: Column)
    ensures |r| == |col|
  {
    match rule
    case Timestamp => TimestampColumn(parse, col)
    case StopCause => CleanStopCause(col)
    case ServiceArea => CleanServiceArea(col)
    case SubjectAge => CleanSubjectAge(col)
    case SubjectSex => CleanSubjectSex(col)
    case YesNo(_) => CleanYesNo(col)
  }

  /** One registry entry: an assignment key and the rule stored under it. */
  datatype Entry = Entry(key: string, rule: Rule)

  predicate HasKey(reg: seq<Entry>, key: string) {
    exists i :: 0 <= i < |reg| && reg[i].key == key
  }

  predicate KeysDistinct(reg: seq<Entry>) {
    forall i, j :: 0 <= i < j < |reg| ==> reg[i].key != reg[j].key
  }

  /** Every entry is stored under the name of the column its rule reads. */
  predicate Sourced(reg: seq<Entry>) {
    forall i :: 0 <= i < |reg| ==> reg[i].key == SourceColumn(reg[i].rule)
  }

  /**
   * Dictionary assignment reg[e.key] = e.rule on an insertion-ordered
   * dictionary: an existing key keeps its place and takes the new rule, a new
   * key goes last.
   */
  function Put(reg: seq<Entry>, e: Entry): seq<Entry> {
    if HasKey(reg, e.key) then
      seq(|reg|, i requires 0 <= i < |reg| => if reg[i].key == e.key then e else reg[i])
    else
      reg + [e]
  }

  /** Dictionary lookup. */
  function FindRule(reg: seq<Entry>, key: string): (r: Option<Rule>)
    ensures r.None? <==> !HasKey(reg, key)
    ensures r.Some? ==> exists i :: 0 <= i < |reg| && reg[i] == Entry(key, r.value)
  {
    if reg == [] then None
    else if reg[0].key == key then Some(reg[0].rule)
    else
      var r := FindRule(reg[1..], key);
      assert r.Some? ==> exists i :: 1 <= i < |reg| && reg[i] == Entry(key, r.value)
        by { if r.Some? { var i :| 0 <= i < |reg[1..]| && reg[1..][i] == Entry(key, r.value); assert reg[i + 1] == reg[1..][i]; } }
      assert HasKey(reg, key) ==> HasKey(reg[1..], key)
        by { if HasKey(reg, key) { var i :| 0 <= i < |reg| && reg[i].key == key; assert reg[1..][i - 1] == reg[i]; } }
      r
  }

  /** After reg[e.key] = e.rule, that key finds e.rule and every other key finds what it found before. */
  lemma {:induction false} PutThenFind(reg: seq<Entry>, e: Entry, key: string)
    ensures FindRule(Put(reg, e), key) == if key == e.key then Some(e.rule) else FindRule(reg, key)
  {
    var p := Put(reg, e);
    if reg != [] {
      if HasKey(reg, e.key) {
        assert p[1..] == Put(reg[1..], e) || !HasKey(reg[1..], e.key);
        if HasKey(reg[1..], e.key) {
          PutThenFind(reg[1..], e, key);
        } else {
          assert p[1..] == reg[1..];
        }
      } else {
        assert p[1..] == reg[1..] + [e];
        assert !HasKey(reg[1..], e.key);
        PutThenFind(reg[1..], e, key);
        assert Put(reg[1..], e) == reg[1..] + [e];
      }
    }
  }

  lemma PutKeepsShape(reg: seq<Entry>, e: Entry)
    requires KeysDistinct(reg) && Sourced(reg) && e.key == SourceColumn(e.rule)
    ensures KeysDistinct(Put(reg, e)) && Sourced(Put(reg, e))
  {
  }

  /** The first loop of the registry construction, as a specification: one step per column name. */
  function RegisterNamed(reg: seq<Entry>, names: seq<string>): seq<Entry>
    decreases |names|
  {
    if names == [] then reg
    else
      var next := match RuleNamed(names[0])
        case None => reg
        case Some(rule) => Put(reg, Entry(names[0], rule));
      RegisterNamed(next, names[1..])
  }

  /** The second loop: every yes/no column gets its closure, present or not. */
  function RegisterYesNo(reg: seq<Entry>, cols: seq<string>): seq<Entry>
    decreases |cols|
  {
    if cols == [] then reg else RegisterYesNo(Put(reg, Entry(cols[0], YesNo(cols[0]))), cols[1..])
  }

  /** The registry main builds for a table with these column names. */
  function Registry(names: seq<string>): seq<Entry> {
    RegisterYesNo(RegisterNamed([], names), YES_NO_COLUMNS)
  }

  lemma {:induction false} RegisterNamedFind(reg: seq<Entry>, names: seq<string>, key: string)
    ensures FindRule(RegisterNamed(reg, names), key)
         == if key in names && RuleNamed(key).Some? then RuleNamed(key) else FindRule(reg, key)
    decreases |names|
  {
    if names != [] {
      var next := match RuleNamed(names[0])
        case None => reg
        case Some(rule) => Put(reg, Entry(names[0], rule));
      if RuleNamed(names[0]).Some? {
        PutThenFind(reg, Entry(names[0], RuleNamed(names[0]).value), key);
      }
      RegisterNamedFind(next, names[1..], key);
      assert key in names <==> key == names[0] || key in names[1..];
    }
  }

  lemma {:induction false} RegisterNamedShape(reg: seq<Entry>, names: seq<string>)
    requires KeysDistinct(reg) && Sourced(reg)
    ensures KeysDistinct(RegisterNamed(reg, names)) && Sourced(RegisterNamed(reg, names))
    decreases |names|
  {
    if names != [] {
      var next := match RuleNamed(names[0])
        case None => reg
        case Some(rule) => Put(reg, Entry(names[0], rule));
      if RuleNamed(names[0]).Some? {
        PutKeepsShape(reg, Entry(names[0], RuleNamed(names[0]).value));
      }
      RegisterNamedShape(next, names[1..]);
    }
  }

  lemma {:induction false} RegisterYesNoFind(reg: seq<Entry>, cols: seq<string>, key: string)
    ensures FindRule(RegisterYesNo(reg, cols), key) == if key in cols then Some(YesNo(key)) else FindRule(reg, key)
    decreases |cols|
  {
    if cols != [] {
      PutThenFind(reg, Entry(cols[0], YesNo(cols[0])), key);
      RegisterYesNoFind(Put(reg, Entry(cols[0], YesNo(cols[0]))), cols[1..], key);
      assert key in cols <==> key == cols[0] || key in cols[1..];
    }
  }

  lemma {:induction false} RegisterYesNoShape(reg: seq<Entry>, cols: seq<string>)
    requires KeysDistinct(reg) && Sourced(reg)
    ensures KeysDistinct(RegisterYesNo(reg, cols)) && Sourced(RegisterYesNo(reg, cols))
    decreases |cols|
  {
    if cols != [] {
      PutKeepsShape(reg, Entry(cols[0], YesNo(cols[0])));
      RegisterYesNoShape(Put(reg, Entry(cols[0], YesNo(cols[0]))), cols[1..]);
    }
  }

  /**
   * The registry maps a name to a rule exactly when the name is a yes/no
   * column, or a present column with a clean_<name> function; it holds each
   * key once, under the name of the column the rule reads.
   */
  lemma RegistryFacts(names: seq<string>)
    ensures KeysDistinct(Registry(names)) && Sourced(Registry(names))
    ensures forall key :: FindRule(Registry(names), key) == RuleFor(names, key)
  {
    RegisterNamedShape([], names);
    RegisterYesNoShape(RegisterNamed([], names), YES_NO_COLUMNS);
    forall key ensures FindRule(Registry(names), key) == RuleFor(names, key) {
      RegisterYesNoFind(RegisterNamed([], names), YES_NO_COLUMNS, key);
      RegisterNamedFind([], names, key);
    }
  }

  /** The two loops that fill the registry in place. */
  method BuildRegistry(names: seq<string>) returns (reg: seq<Entry>)
    ensures reg == Registry(names)
    ensures KeysDistinct(reg) && Sourced(reg)
    ensures forall key :: FindRule(reg, key) == RuleFor(names, key)
  {
    reg := [];
    for i := 0 to |names|
      invariant RegisterNamed(reg, names[i..]) == RegisterNamed([], names)
    {
      assert names[i..][0] == names[i] && names[i..][1..] == names[i + 1..];
      match RuleNamed(names[i]) {
        case Some(rule) => reg := Put(reg, Entry(names[i], rule));
        case None =>
      }
    }
    var cols := YES_NO_COLUMNS;
    for j := 0 to |cols|
      invariant RegisterYesNo(reg, cols[j..]) == Registry(names)
    {
      assert cols[j..][0] == cols[j] && cols[j..][1..] == cols[j + 1..];
      reg := Put(reg, Entry(cols[j], YesNo(cols[j])));
    }
    RegistryFacts(names);
  }

  // ---------------------------------------------------------------------
  // The reshaping chain
  // ---------------------------------------------------------------------

  /** The default row index 0, 1, ..., n-1. */
  function Ids(n: nat): Column {
    seq(n, i requires 0 <= i < n => Int(i))
  }

  /**
   * reset_index: the row index becomes a new first column, named "index", or
   * "level_0" when a column "index" exists; inserting a name that is taken fails.
   */
  function ResetIndex(fr: Frame): Result<Frame> {
    if !HasColumn(fr.fields, "index") then Ok(Frame(fr.rows, [Field("index", Ids(fr.rows))] + fr.fields))
    else if HasColumn(fr.fields, "level_0") then Err(ColumnExists("level_0"))
    else Ok(Frame(fr.rows, [Field("level_0", Ids(fr.rows))] + fr.fields))
  }

  function Renamed(name: string): string {
    if name == "index" then "id" else name
  }

  /** rename(columns={'index': 'id'}): every column named "index" is renamed, nothing else changes. */
  function RenameIndex(fields: seq<Field>): (r: seq<Field>)
    ensures |r| == |fields|
    ensures forall k :: 0 <= k < |fields| ==> r[k] == Field(Renamed(fields[k].name), fields[k].cells)
  {
    if fields == [] then []
    else [Field(Renamed(fields[0].name), fields[0].cells)] + RenameIndex(fields[1..])
  }

  /** frame[key] = col: replaces every column named key, or appends one when there is none. */
  function SetColumn(fields: seq<Field>, key: string, col: Column): seq<Field> {
    if HasColumn(fields, key) then
      seq(|fields|, i requires 0 <= i < |fields| => if fields[i].name == key then Field(key, col) else fields[i])
    else
      fields + [Field(key, col)]
  }

  /** One keyword argument of assign: the rule reads its column from the frame as assigned so far. */
  function AssignEntry(fields: seq<Field>, e: Entry, parse: string -> Option<int>): Result<seq<Field>> {
    var src := SourceColumn(e.rule);
    match Lookup(fields, src) {
      case None => Err(KeyNotFound([src]))
      case Some(col) =>
        match Apply(e.rule, parse, col) {
          case Err(err) => Err(err)
          case Ok(cleaned) => Ok(SetColumn(fields, e.key, cleaned))
        }
    }
  }

  /** assign(**registry): the entries in dictionary order, stopping at the first that fails. */
  function AssignAll(fields: seq<Field>, reg: seq<Entry>, parse: string -> Option<int>): Result<seq<Field>>
    decreases |reg|
  {
    if reg == [] then Ok(fields)
    else
      match AssignEntry(fields, reg[0], parse)
      case Err(err) => Err(err)
      case Ok(next) => AssignAll(next, reg[1..], parse)
  }

  const RAW_DATE_COLUMNS: seq<string> := ["stop_date", "stop_time"]

  /** The keys, in order, that name no column. */
  function Absent(fields: seq<Field>, keys: seq<string>): (r: seq<string>)
    ensures forall c :: c in r <==> c in keys && !HasColumn(fields, c)
  {
    if keys == [] then []
    else (if HasColumn(fields, keys[0]) then [] else [keys[0]]) + Absent(fields, keys[1..])
  }

  /** The columns, in order, other than the raw date and time. */
  function Kept(fields: seq<Field>): seq<Field> {
    if fields == [] then []
    else (if fields[0].name in RAW_DATE_COLUMNS then [] else [fields[0]]) + Kept(fields[1..])
  }

  /** drop(['stop_date', 'stop_time'], axis=1): fails naming the labels that are absent. */
  function DropRawDates(fields: seq<Field>): Result<seq<Field>> {
    var missing := Absent(fields, RAW_DATE_COLUMNS);
    if missing != [] then Err(KeyNotFound(missing)) else Ok(Kept(fields))
  }

  /** The chain reset_index, rename, assign, drop applied to a loaded table. */
  function Reshape(fr: Frame, reg: seq<Entry>, parse: string -> Option<int>): Result<Frame> {
    match ResetIndex(fr) {
      case Err(err) => Err(err)
      case Ok(indexed) =>
        match AssignAll(RenameIndex(indexed.fields), reg, parse) {
          case Err(err) => Err(err)
          case Ok(ruled) =>
            match DropRawDates(ruled) {
              case Err(err) => Err(err)
              case Ok(dropped) => Ok(Frame(fr.rows, dropped))
            }
        }
    }
  }

  // ---------------------------------------------------------------------
  // The cleaned table, described directly
  // ---------------------------------------------------------------------

  /** The name the row identifier column ends up with. */
  function IdName(fields: seq<Field>): string {
    if HasColumn(fields, "index") then "level_0" else "id"
  }

  /** A kept input column as it appears in the output: renamed if it was "index", cleaned if it has a rule. */
  function CleanField(x: Field, parse: string -> Option<int>): Field {
    Field(Renamed(x.name), match ColumnRule(x.name) case None => x.cells case Some(rule) => Cleaned(rule, parse, x.cells))
  }

  function CleanFields(xs: seq<Field>, parse: string -> Option<int>): (r: seq<Field>)
    ensures |r| == |xs|
    ensures forall k :: 0 <= k < |xs| ==> r[k] == CleanField(xs[k], parse)
  {
    if xs == [] then [] else [CleanField(xs[0], parse)] + CleanFields(xs[1..], parse)
  }

  /** The output table: the row identifier, then every kept input column, cleaned, in input order. */
  function Expected(fr: Frame, parse: string -> Option<int>): Frame {
    Frame(fr.rows, [Field(IdName(fr.fields), Ids(fr.rows))] + CleanFields(Kept(fr.fields), parse))
  }

  /**
   * The run succeeds exactly when reset_index can name its column, every
   * yes/no column and both raw date columns are present, and every timestamp
   * reads as a datetime.
   */
  predicate Succeeds(fr: Frame, parse: string -> Option<int>) {
    && !(HasColumn(fr.fields, "index") && HasColumn(fr.fields, "level_0"))
    && (forall c :: c in YES_NO_COLUMNS ==> HasColumn(fr.fields, c))
    && HasColumn(fr.fields, "stop_date") && HasColumn(fr.fields, "stop_time")
    && (Lookup(fr.fields, "timestamp").Some? ==> Parses(parse, Lookup(fr.fields, "timestamp").value))
  }

  lemma NamesHas(fields: seq<Field>, name: string)
    ensures name in Names(fields) <==> HasColumn(fields, name)
  {
    if HasColumn(fields, name) {
      var k :| 0 <= k < |fields| && fields[k].name == name;
      assert Names(fields)[k] == name;
    }
  }

  // ---------------------------------------------------------------------
  // The chain computes the described table
  // ---------------------------------------------------------------------

  /** The registry entry's column is present and its rule succeeds on it. */
  predicate EntryRuns(fields: seq<Field>, e: Entry, parse: string -> Option<int>) {
    Lookup(fields, e.key).Some? && Apply(e.rule, parse, Lookup(fields, e.key).value).Ok?
  }

  /** Each column whose name is a registry key, cleaned by that key's rule; every other column as it was. */
  function ApplyRules(fields: seq<Field>, reg: seq<Entry>, parse: string -> Option<int>): seq<Field> {
    seq(|fields|, i requires 0 <= i < |fields| => RuleField(reg, fields[i], parse))
  }

  /** One column, cleaned by the rule its name is a key of, if any. */
  function RuleField(reg: seq<Entry>, x: Field, parse: string -> Option<int>): Field {
    match FindRule(reg, x.name)
    case None => x
    case Some(rule) => Field(x.name, Cleaned(rule, parse, x.cells))
  }

  /** Replacing the one column named key leaves every other name where it was, with its cells. */
  lemma SetColumnOnce(fields: seq<Field>, key: string, col: Column, k: nat, other: string)
    requires k < |fields| && fields[k].name == key && AtMostOnce(fields, key)
    requires other != key && AtMostOnce(fields, other)
    ensures |SetColumn(fields, key, col)| == |fields|
    ensures forall i :: 0 <= i < |fields| ==>
      SetColumn(fields, key, col)[i] == if i == k then Field(key, col) else fields[i]
    ensures AtMostOnce(SetColumn(fields, key, col), other)
    ensures Lookup(SetColumn(fields, key, col), other) == Lookup(fields, other)
  {
    var next := SetColumn(fields, key, col);
    assert forall i :: 0 <= i < |fields| ==> next[i].name == fields[i].name;
    if HasColumn(fields, other) {
      var j :| 0 <= j < |fields| && fields[j].name == other;
      LookupUnique(fields, other, j);
      LookupUnique(next, other, j);
    } else {
      assert !HasColumn(next, other);
    }
  }

  /** Cleaning the first entry's column, then applying the rest, is applying the whole registry. */
  lemma ApplyRulesStep(fields: seq<Field>, reg: seq<Entry>, parse: string -> Option<int>, k: nat)
    requires reg != [] && KeysDistinct(reg)
    requires k < |fields| && fields[k].name == reg[0].key && AtMostOnce(fields, reg[0].key)
    ensures ApplyRules(SetColumn(fields, reg[0].key, Cleaned(reg[0].rule, parse, fields[k].cells)), reg[1..], parse)
         == ApplyRules(fields, reg, parse)
  {
    var e, rest := reg[0], reg[1..];
    var next := SetColumn(fields, e.key, Cleaned(e.rule, parse, fields[k].cells));
    assert |next| == |fields|;
    assert !HasKey(rest, e.key);
    forall i | 0 <= i < |fields|
      ensures ApplyRules(next, rest, parse)[i] == ApplyRules(fields, reg, parse)[i]
    {
      if fields[i].name == e.key {
        assert i == k;
      }
    }
  }

  /** When the first entry runs, assign continues with its column cleaned in place. */
  lemma AssignFirst(fields: seq<Field>, reg: seq<Entry>, parse: string -> Option<int>, k: nat)
    requires reg != [] && reg[0].key == SourceColumn(reg[0].rule)
    requires k < |fields| && fields[k].name == reg[0].key && AtMostOnce(fields, reg[0].key)
    requires EntryRuns(fields, reg[0], parse)
    ensures AssignAll(fields, reg, parse)
         == AssignAll(SetColumn(fields, reg[0].key, Cleaned(reg[0].rule, parse, fields[k].cells)), reg[1..], parse)
  {
    LookupUnique(fields, reg[0].key, k);
  }

  /** Cleaning the first entry's column changes neither where the other keys are found nor whether their rules run. */
  lemma RestUnaffected(fields: seq<Field>, reg: seq<Entry>, parse: string -> Option<int>, k: nat)
    requires reg != [] && KeysDistinct(reg)
    requires forall i :: 0 <= i < |reg| ==> AtMostOnce(fields, reg[i].key)
    requires k < |fields| && fields[k].name == reg[0].key
    ensures forall i :: 0 <= i < |reg| - 1 ==>
      var next := SetColumn(fields, reg[0].key, Cleaned(reg[0].rule, parse, fields[k].cells));
      && AtMostOnce(next, reg[1..][i].key)
      && (EntryRuns(next, reg[1..][i], parse) <==> EntryRuns(fields, reg[1..][i], parse))
  {
    var next := SetColumn(fields, reg[0].key, Cleaned(reg[0].rule, parse, fields[k].cells));
    forall i | 0 <= i < |reg| - 1
      ensures AtMostOnce(next, reg[1..][i].key)
      ensures EntryRuns(next, reg[1..][i], parse) <==> EntryRuns(fields, reg[1..][i], parse)
    {
      assert reg[1..][i] == reg[i + 1];
      SetColumnOnce(fields, reg[0].key, Cleaned(reg[0].rule, parse, fields[k].cells), k, reg[i + 1].key);
    }
  }

  lemma EntriesRunSplit(fields: seq<Field>, reg: seq<Entry>, parse: string -> Option<int>)
    requires reg != []
    ensures (forall i :: 0 <= i < |reg| ==> EntryRuns(fields, reg[i], parse))
        <==> EntryRuns(fields, reg[0], parse) && forall i :: 0 <= i < |reg| - 1 ==> EntryRuns(fields, reg[1..][i], parse)
  {
    assert forall i :: 0 <= i < |reg| - 1 ==> reg[1..][i] == reg[i + 1];
  }

  /** When the first entry does not run, assign fails. */
  lemma AssignFirstFails(fields: seq<Field>, reg: seq<Entry>, parse: string -> Option<int>)
    requires reg != [] && reg[0].key == SourceColumn(reg[0].rule)
    requires !EntryRuns(fields, reg[0], parse)
    ensures AssignAll(fields, reg, parse).Err?
  {
    assert AssignEntry(fields, reg[0], parse).Err?;
  }

  /**
   * assign with a registry whose keys are distinct and each name the column
   * its rule reads, and occur at most once in the frame: it succeeds exactly
   * when every entry's column is present and its rule succeeds, and then it
   * equals cleaning each keyed column by its rule, in place.
   */
  lemma {:induction false} AssignAllApplies(fields: seq<Field>, reg: seq<Entry>, parse: string -> Option<int>)
    requires KeysDistinct(reg) && Sourced(reg)
    requires forall i :: 0 <= i < |reg| ==> AtMostOnce(fields, reg[i].key)
    ensures AssignAll(fields, reg, parse).Ok? <==> forall i :: 0 <= i < |reg| ==> EntryRuns(fields, reg[i], parse)
    ensures AssignAll(fields, reg, parse).Ok? ==> AssignAll(fields, reg, parse).value == ApplyRules(fields, reg, parse)
    decreases |reg|
  {
    if reg == [] {
      assert forall i :: 0 <= i < |fields| ==> ApplyRules(fields, reg, parse)[i] == fields[i];
    } else {
      var e, rest := reg[0], reg[1..];
      assert e.key == SourceColumn(e.rule);
      if !EntryRuns(fields, e, parse) {
        AssignFirstFails(fields, reg, parse);
      } else {
        var k :| 0 <= k < |fields| && fields[k].name == e.key;
        LookupUnique(fields, e.key, k);
        var next := SetColumn(fields, e.key, Cleaned(e.rule, parse, fields[k].cells));
        AssignFirst(fields, reg, parse, k);
        RestUnaffected(fields, reg, parse, k);
        AssignAllApplies(next, rest, parse);
        ApplyRulesStep(fields, reg, parse, k);
        EntriesRunSplit(fields, reg, parse);
      }
    }
  }

  /** The frame after reset_index and rename, when reset_index succeeds. */
  function WithId(fr: Frame): seq<Field> {
    [Field(IdName(fr.fields), Ids(fr.rows))] + RenameIndex(fr.fields)
  }

  lemma IndexedFields(fr: Frame)
    requires !(HasColumn(fr.fields, "index") && HasColumn(fr.fields, "level_0"))
    ensures ResetIndex(fr).Ok? && RenameIndex(ResetIndex(fr).value.fields) == WithId(fr)
  {
    var xs := ResetIndex(fr).value.fields;
    var r, t := RenameIndex(xs), WithId(fr);
    forall i | 0 <= i < |t| ensures r[i] == t[i] {
      if i > 0 {
        assert xs[i] == fr.fields[i - 1];
      }
    }
  }

  /** A registered name is found in the indexed frame where it was in the input, and only once. */
  lemma IndexedLookup(fr: Frame, key: string)
    requires DistinctNames(fr.fields) && key != "id" && key != "index" && key != "level_0"
    ensures AtMostOnce(WithId(fr), key)
    ensures Lookup(WithId(fr), key) == Lookup(fr.fields, key)
  {
    var w := WithId(fr);
    var xs := RenameIndex(fr.fields);
    assert w[0].name != key;
    forall i | 1 <= i < |w| && w[i].name == key
      ensures fr.fields[i - 1].name == key
    {
      assert w[i] == xs[i - 1];
    }
    forall i, j | 0 <= i < |w| && 0 <= j < |w| && w[i].name == key && w[j].name == key
      ensures i == j
    {
      assert fr.fields[i - 1].name == fr.fields[j - 1].name;
    }
    if HasColumn(fr.fields, key) {
      var j :| 0 <= j < |fr.fields| && fr.fields[j].name == key;
      LookupUnique(fr.fields, key, j);
      assert w[j + 1] == xs[j];
      LookupUnique(w, key, j + 1);
    } else {
      assert !HasColumn(w, key);
    }
  }

  lemma {:induction false} KeptOfCleanFields(xs: seq<Field>, parse: string -> Option<int>)
    ensures Kept(CleanFields(xs, parse)) == CleanFields(Kept(xs), parse)
  {
    if xs != [] {
      var c := CleanFields(xs, parse);
      assert c[1..] == CleanFields(xs[1..], parse);
      KeptOfCleanFields(xs[1..], parse);
      var head := if xs[0].name in RAW_DATE_COLUMNS then [] else [xs[0]];
      CleanFieldsAppend(head, Kept(xs[1..]), parse);
    }
  }

  lemma CleanFieldsAppend(a: seq<Field>, b: seq<Field>, parse: string -> Option<int>)
    ensures CleanFields(a + b, parse) == CleanFields(a, parse) + CleanFields(b, parse)
  {
    var l, r := CleanFields(a + b, parse), CleanFields(a, parse) + CleanFields(b, parse);
    forall k | 0 <= k < |l| ensures l[k] == r[k] {
      if k < |a| {
        assert (a + b)[k] == a[k];
      } else {
        assert (a + b)[k] == b[k - |a|];
      }
    }
  }

  /** Keeping distributes over concatenation. */
  lemma {:induction false} KeptAppend(a: seq<Field>, b: seq<Field>)
    ensures Kept(a + b) == Kept(a) + Kept(b)
    decreases |a|
  {
    if a != [] {
      assert (a + b)[0] == a[0] && (a + b)[1..] == a[1..] + b;
      KeptAppend(a[1..], b);
      var head := if a[0].name in RAW_DATE_COLUMNS then [] else [a[0]];
      calc {
        Kept(a + b);
        head + Kept(a[1..] + b);
        head + (Kept(a[1..]) + Kept(b));
        (head + Kept(a[1..])) + Kept(b);
      }
    } else {
      assert a + b == b;
    }
  }

  /** The kept columns are input columns, none of them a raw date or time column. */
  lemma {:induction false} KeptMembers(xs: seq<Field>)
    ensures |Kept(xs)| <= |xs|
    ensures forall x :: x in Kept(xs) <==> x in xs && x.name !in RAW_DATE_COLUMNS
    decreases |xs|
  {
    if xs != [] {
      KeptMembers(xs[1..]);
      forall x ensures x in xs <==> x == xs[0] || x in xs[1..] {
        assert xs == [xs[0]] + xs[1..];
      }
    }
  }

  /**
   * The output table has the input's row count, the row identifier 0 .. n-1
   * as its first column, no raw date or time column, one column per kept
   * input column, and every column as long as the table when the input's are.
   */
  lemma ExpectedShape(fr: Frame, parse: string -> Option<int>)
    ensures Expected(fr, parse).rows == fr.rows
    ensures |Expected(fr, parse).fields| == 1 + |Kept(fr.fields)|
    ensures Expected(fr, parse).fields[0] == Field(IdName(fr.fields), Ids(fr.rows))
    ensures forall i :: 0 <= i < fr.rows ==> Expected(fr, parse).fields[0].cells[i] == Int(i)
    ensures !HasColumn(Expected(fr, parse).fields, "stop_date") && !HasColumn(Expected(fr, parse).fields, "stop_time")
    ensures Rectangular(fr) ==> Rectangular(Expected(fr, parse))
  {
    var out := Expected(fr, parse).fields;
    var ks := Kept(fr.fields);
    KeptMembers(fr.fields);
    UnregisteredNames();
    forall k | 1 <= k < |out|
      ensures out[k].name !in RAW_DATE_COLUMNS
      ensures Rectangular(fr) ==> |out[k].cells| == fr.rows
    {
      var x := ks[k - 1];
      assert out[k] == CleanField(x, parse);
      assert x in ks;
      var j :| 0 <= j < |fr.fields| && fr.fields[j] == x;
      if ColumnRule(x.name).Some? {
        assert |Cleaned(ColumnRule(x.name).value, parse, x.cells)| == |x.cells|;
      }
    }
  }

  /** Each kept input column appears, cleaned, right after the identifier and the kept columns before it. */
  lemma ExpectedKeepsPosition(fr: Frame, parse: string -> Option<int>, k: nat)
    requires k < |fr.fields| && fr.fields[k].name !in RAW_DATE_COLUMNS
    ensures 1 + |Kept(fr.fields[..k])| < |Expected(fr, parse).fields|
    ensures Expected(fr, parse).fields[1 + |Kept(fr.fields[..k])|] == CleanField(fr.fields[k], parse)
  {
    var xs := fr.fields;
    assert xs == xs[..k] + ([xs[k]] + xs[k + 1..]);
    KeptAppend(xs[..k], [xs[k]] + xs[k + 1..]);
    assert Kept([xs[k]] + xs[k + 1..]) == [xs[k]] + Kept(xs[k + 1..]) by {
      assert ([xs[k]] + xs[k + 1..])[1..] == xs[k + 1..];
    }
    assert Kept(xs)[|Kept(xs[..k])|] == xs[k];
  }

  /** What the registry main builds is known to satisfy, for a table with these column names. */
  ghost predicate RegistryFor(reg: seq<Entry>, names: seq<string>) {
    && KeysDistinct(reg) && Sourced(reg)
    && forall key :: FindRule(reg, key) == RuleFor(names, key)
  }

  /** Each registry entry names a registered column, found in the indexed frame once and where it was in the input. */
  lemma EntriesInIndexed(fr: Frame, reg: seq<Entry>)
    requires DistinctNames(fr.fields) && RegistryFor(reg, Names(fr.fields))
    ensures forall i :: 0 <= i < |reg| ==>
      && ColumnRule(reg[i].key).Some? && reg[i].rule == ColumnRule(reg[i].key).value
      && AtMostOnce(WithId(fr), reg[i].key) && Lookup(WithId(fr), reg[i].key) == Lookup(fr.fields, reg[i].key)
  {
    forall i | 0 <= i < |reg|
      ensures ColumnRule(reg[i].key).Some? && reg[i].rule == ColumnRule(reg[i].key).value
      ensures AtMostOnce(WithId(fr), reg[i].key) && Lookup(WithId(fr), reg[i].key) == Lookup(fr.fields, reg[i].key)
    {
      var key := reg[i].key;
      assert HasKey(reg, key);
      assert FindRule(reg, key) == Some(reg[i].rule);
      RegisteredKeyNames(key);
      IndexedLookup(fr, key);
    }
  }

  /** An input column, renamed as rename does and then cleaned by the registry, is that column as the output describes it. */
  lemma RuledRenamed(reg: seq<Entry>, names: seq<string>, x: Field, parse: string -> Option<int>)
    requires RegistryFor(reg, names) && x.name in names
    ensures RuleField(reg, Field(Renamed(x.name), x.cells), parse) == CleanField(x, parse)
  {
    assert FindRule(reg, Renamed(x.name)) == RuleFor(names, Renamed(x.name));
    if x.name == "index" {
      UnregisteredNames();
    }
  }

  /** Cleaning the indexed frame by the registry gives the identifier column, then every input column cleaned. */
  lemma AppliedIsCleanFields(fr: Frame, reg: seq<Entry>, parse: string -> Option<int>)
    requires RegistryFor(reg, Names(fr.fields))
    ensures ApplyRules(WithId(fr), reg, parse)
         == [Field(IdName(fr.fields), Ids(fr.rows))] + CleanFields(fr.fields, parse)
  {
    var w := WithId(fr);
    var a := ApplyRules(w, reg, parse);
    var t := [Field(IdName(fr.fields), Ids(fr.rows))] + CleanFields(fr.fields, parse);
    forall k | 0 <= k < |a| ensures a[k] == t[k] {
      if k == 0 {
        UnregisteredNames();
        assert FindRule(reg, w[0].name) == RuleFor(Names(fr.fields), w[0].name);
      } else {
        var x := fr.fields[k - 1];
        assert w[k] == Field(Renamed(x.name), x.cells);
        assert Names(fr.fields)[k - 1] == x.name;
        RuledRenamed(reg, Names(fr.fields), x, parse);
      }
    }
  }

  /** Cleaning keeps which names are present, apart from "index", which becomes "id". */
  lemma CleanedHasColumn(xs: seq<Field>, parse: string -> Option<int>, d: string)
    requires d != "id" && d != "index"
    ensures HasColumn(CleanFields(xs, parse), d) <==> HasColumn(xs, d)
  {
    var c := CleanFields(xs, parse);
    if HasColumn(xs, d) {
      var j :| 0 <= j < |xs| && xs[j].name == d;
      assert c[j].name == d;
    }
    if HasColumn(c, d) {
      var j :| 0 <= j < |c| && c[j].name == d;
      assert xs[j].name == d;
    }
  }

  /** drop fails exactly when one of the raw date columns is absent. */
  lemma DropSucceeds(xs: seq<Field>)
    ensures DropRawDates(xs).Ok? <==> HasColumn(xs, "stop_date") && HasColumn(xs, "stop_time")
  {
    var missing := Absent(xs, RAW_DATE_COLUMNS);
    if missing != [] {
      assert missing[0] in missing;
    } else {
      assert "stop_date" !in missing && "stop_time" !in missing;
    }
  }

  /** A leading column that is not a raw date column changes nothing about drop but is kept in front. */
  lemma DropWithHead(id: Field, xs: seq<Field>)
    requires id.name !in RAW_DATE_COLUMNS
    ensures DropRawDates([id] + xs).Ok? <==> DropRawDates(xs).Ok?
    ensures DropRawDates(xs).Ok? ==> DropRawDates([id] + xs).value == [id] + DropRawDates(xs).value
  {
    var a := [id] + xs;
    DropSucceeds(a);
    DropSucceeds(xs);
    forall d | d in RAW_DATE_COLUMNS ensures HasColumn(a, d) <==> HasColumn(xs, d) {
      if HasColumn(a, d) {
        var j :| 0 <= j < |a| && a[j].name == d;
        assert j > 0 && xs[j - 1].name == d;
      }
      if HasColumn(xs, d) {
        var j :| 0 <= j < |xs| && xs[j].name == d;
        assert a[j + 1].name == d;
      }
    }
    assert a[1..] == xs;
  }

  /** Dropping the raw date columns from the cleaned frame: it succeeds exactly when both are in the input, and keeps the rest in order. */
  lemma DropOfCleaned(fr: Frame, parse: string -> Option<int>)
    ensures var a := [Field(IdName(fr.fields), Ids(fr.rows))] + CleanFields(fr.fields, parse);
      && (DropRawDates(a).Ok? <==> HasColumn(fr.fields, "stop_date") && HasColumn(fr.fields, "stop_time"))
      && (DropRawDates(a).Ok? ==> DropRawDates(a).value == Expected(fr, parse).fields)
  {
    var id := Field(IdName(fr.fields), Ids(fr.rows));
    var c := CleanFields(fr.fields, parse);
    CleanedHasColumn(fr.fields, parse, "stop_date");
    CleanedHasColumn(fr.fields, parse, "stop_time");
    DropSucceeds(c);
    DropWithHead(id, c);
    KeptOfCleanFields(fr.fields, parse);
  }

  /**
   * The chain reset_index, rename, assign(registry), drop, run with a
   * registry as main builds it, succeeds exactly when Succeeds holds, and then
   * yields the table Expected describes.
   */
  lemma ReshapeWith(fr: Frame, reg: seq<Entry>, parse: string -> Option<int>)
    requires DistinctNames(fr.fields) && RegistryFor(reg, Names(fr.fields))
    ensures Reshape(fr, reg, parse).Ok? <==> Succeeds(fr, parse)
    ensures Succeeds(fr, parse) ==> Reshape(fr, reg, parse) == Ok(Expected(fr, parse))
  {
    if HasColumn(fr.fields, "index") && HasColumn(fr.fields, "level_0") {
      return;
    }
    IndexedFields(fr);
    var w := WithId(fr);
    EntriesInIndexed(fr, reg);
    AssignAllApplies(w, reg, parse);
    EntriesRunIffSucceeds(fr, reg, parse);
    if AssignAll(w, reg, parse).Ok? {
      AppliedIsCleanFields(fr, reg, parse);
      DropOfCleaned(fr, parse);
    }
  }

  /** The same, for the registry itself. */
  lemma ReshapeIsExpected(fr: Frame, parse: string -> Option<int>)
    requires DistinctNames(fr.fields)
    ensures Reshape(fr, Registry(Names(fr.fields)), parse).Ok? <==> Succeeds(fr, parse)
    ensures Succeeds(fr, parse) ==> Reshape(fr, Registry(Names(fr.fields)), parse) == Ok(Expected(fr, parse))
  {
    RegistryFacts(Names(fr.fields));
    ReshapeWith(fr, Registry(Names(fr.fields)), parse);
  }

  /** Every registry entry runs on the indexed frame exactly when the yes/no columns are present and the timestamps parse. */
  lemma EntriesRunIffSucceeds(fr: Frame, reg: seq<Entry>, parse: string -> Option<int>)
    requires DistinctNames(fr.fields) && RegistryFor(reg, Names(fr.fields))
    requires forall i :: 0 <= i < |reg| ==>
      && ColumnRule(reg[i].key).Some? && reg[i].rule == ColumnRule(reg[i].key).value
      && Lookup(WithId(fr), reg[i].key) == Lookup(fr.fields, reg[i].key)
    ensures (forall i :: 0 <= i < |reg| ==> EntryRuns(WithId(fr), reg[i], parse))
        <==> (forall c :: c in YES_NO_COLUMNS ==> HasColumn(fr.fields, c))
             && (Lookup(fr.fields, "timestamp").Some? ==> Parses(parse, Lookup(fr.fields, "timestamp").value))
  {
    var names := Names(fr.fields);
    var w := WithId(fr);
    if forall i :: 0 <= i < |reg| ==> EntryRuns(w, reg[i], parse) {
      forall c | c in YES_NO_COLUMNS ensures HasColumn(fr.fields, c) {
        assert FindRule(reg, c) == Some(YesNo(c));
        var j :| 0 <= j < |reg| && reg[j] == Entry(c, YesNo(c));
        assert EntryRuns(w, reg[j], parse);
      }
      if Lookup(fr.fields, "timestamp").Some? {
        RuleNamesAreNotYesNo("timestamp");
        NamesHas(fr.fields, "timestamp");
        assert FindRule(reg, "timestamp") == Some(Timestamp);
        var j :| 0 <= j < |reg| && reg[j] == Entry("timestamp", Timestamp);
        assert EntryRuns(w, reg[j], parse);
      }
    }
    if && (forall c :: c in YES_NO_COLUMNS ==> HasColumn(fr.fields, c))
       && (Lookup(fr.fields, "timestamp").Some? ==> Parses(parse, Lookup(fr.fields, "timestamp").value))
    {
      forall i | 0 <= i < |reg| ensures EntryRuns(w, reg[i], parse) {
        var key := reg[i].key;
        assert FindRule(reg, key) == Some(reg[i].rule) by { assert HasKey(reg, key); }
        assert RuleFor(names, key).Some?;
        NamesHas(fr.fields, key);
        if key !in YES_NO_COLUMNS && RuleNamed(key) == Some(Timestamp) {
          assert key == "timestamp";
        }
      }
    }
  }

  // ---------------------------------------------------------------------
  // The cleaning run
  // ---------------------------------------------------------------------

  /**
   * main without its input and output: builds the registry from the table's
   * column names, then reshapes the table. It fails exactly when Succeeds does
   * not hold and otherwise returns the table Expected describes.
   */
  method CleanStops(fr: Frame, parse: string -> Option<int>) returns (r: Result<Frame>)
    requires DistinctNames(fr.fields)
    ensures r.Ok? <==> Succeeds(fr, parse)
    ensures r.Ok? ==> r.value == Expected(fr, parse)
  {
    var reg := BuildRegistry(Names(fr.fields));
    r := Reshape(fr, reg, parse);
    ReshapeWith(fr, reg, parse);
  }
}
