# Vehicle-stops cleaning step, modelled in Dafny

The cleaning step of the traffic-stops ETL works in two stages. First it
loads the city's table of vehicle stops. Then it rewrites that table as
follows:

- Each of a fixed set of columns is cleaned by its own rule:
  - `timestamp`, `stop_cause`, `service_area`, `subject_age` and
    `subject_sex`, each by a rule named `clean_<column>`;
  - the six yes/no columns, by the closure that `clean_yes_no(column)`
    builds.
- A row identifier column is put first.
- The raw `stop_date` and `stop_time` columns are dropped.

This project models the two parts of that step and proves what each does.

**The cleaning rules** (`rules.dfy`, module `Rules`) are pure functions
from a column to a column of the same length. Each one works cell by cell
(`Cells.MapCells`).

- A cell is one of:
  - missing (NaN or NaT);
  - a string;
  - an integer.
- Instants are nanoseconds since the epoch.
- Reading a string as a datetime is a parameter, `parse`. When `parse`
  returns `None`, `pd.to_datetime` raises, and the model returns
  `Err(UnparseableDatetime)`.
- The numeric coercion used for ages is `Numeric.ParseInteger`. It accepts
  an optional sign followed by at least one decimal digit.

**The dispatcher** (`dispatch.dfy`, module `Dispatch`) models the body of
`main` between reading and writing. It works in two steps.

1. It builds the registry, a name-to-rule dictionary that keeps insertion
   order. This is done in two loops, written as the method
   `BuildRegistry`:
   - the first loop gives every column that has a `clean_<name>` rule that
     rule;
   - the second loop puts the six yes/no closures in, whether or not those
     columns exist.
2. It runs the chain `reset_index`, `rename(index -> id)`,
   `assign(**registry)`, `drop([stop_date, stop_time])`. This is the
   function `Reshape`. Its error cases are the ones pandas raises:
   - `reset_index` fails with `ColumnExists("level_0")` when both `index`
     and `level_0` are taken;
   - `assign` stops with `KeyNotFound` at the first closure whose column is
     absent, or with `UnparseableDatetime`;
   - `drop` fails with `KeyNotFound`, listing the raw date columns that are
     absent.

The run is also described directly, independently of the chain:

- `Expected` is the output table: the identifier, then every input column
  other than the raw date and time, each cleaned by its rule, in input
  order.
- `Succeeds` is the condition under which the chain completes.

`ReshapeIsExpected` proves that the chain succeeds exactly when `Succeeds`
holds, and that it then yields `Expected`. The method `CleanStops`
(registry, then chain) carries the same contract.

The loaded table's column names are assumed distinct
(`requires DistinctNames`). This is a property of the table as `read_csv`
produces it: `read_csv` renames repeated header names.

Facts about the code that its docstrings do not state:

- `clean_timestamp` rounds strictly up, although its docstring
  (clean.py:16) says "round to nearest": an instant on a five-minute
  boundary moves to the next boundary.
- The `subject_sex` patterns are case-sensitive and match anywhere in a
  string, so `"f"` becomes missing and `"FM"` becomes 1.
- The yes/no patterns match anywhere in a string, so `"maybe"` becomes 1.
- The age filter `(age >= 15) | (age < 100)` admits every value
  (`OutlierFilterKeepsAll`).
- Ages are integers, so `round(age / 5)` never meets a tie, and the
  rounding is exactly `5 * floor((age + 2) / 5)`.

## Model

| member | source | states |
|---|---|---|
| Numeric.ParseDecimal | traffic-stops/src/etl/clean.py:43 | the numeric coercion reads back the decimal text of every integer as that integer |
| Numeric.NonNumericToken | traffic-stops/src/etl/clean.py:42-43 | a token containing a character that is neither a digit nor a sign is not numeric (coerced to missing) |
| Rules.RoundUpToSlot | traffic-stops/src/etl/clean.py:19-20 | a non-positive instant becomes missing; a positive one becomes a multiple of five minutes strictly after it and at most five minutes later |
| Rules.RoundUpIsLeastLaterBoundary | traffic-stops/src/etl/clean.py:19-20 | the rounded instant is the least five-minute boundary strictly after the input |
| Rules.BoundaryMovesToNext | traffic-stops/src/etl/clean.py:20 | an instant already on a boundary moves to the next boundary |
| Rules.JustBeforeBoundary | traffic-stops/src/etl/clean.py:20 | an instant one nanosecond before a boundary rounds to that boundary |
| Rules.MissingTimestampStaysMissing | traffic-stops/src/etl/clean.py:20 | NaT (int64 minimum) fails the positivity filter and stays missing |
| Rules.CleanTimestamp | traffic-stops/src/etl/clean.py:15-21 | fails with an unparseable-datetime error exactly when some cell does not read as a datetime; otherwise keeps the length and rounds each instant up as above, missing for non-positive instants |
| Rules.CleanStopCause | traffic-stops/src/etl/clean.py:24-29 | a cell equal to "Moving Violation" or "Equipment Violation" is kept, every other cell becomes missing, length kept |
| Rules.CleanStopCauseIdempotent | traffic-stops/src/etl/clean.py:24-29 | cleaning stop causes twice equals cleaning them once |
| Rules.CleanServiceArea | traffic-stops/src/etl/clean.py:32-36 | exactly the cells equal to "Unknown" become missing, all other cells are unchanged |
| Rules.RoundToFive | traffic-stops/src/etl/clean.py:47 | the result is a multiple of five within 2 of the age |
| Rules.RoundToFiveIsNearest | traffic-stops/src/etl/clean.py:47 | every other multiple of five is more than 2 away, so the result is the unique nearest one |
| Rules.OutlierFilterKeepsAll | traffic-stops/src/etl/clean.py:45 | the filter as written (at least 15 or below 100) admits every value |
| Rules.CleanSubjectAge | traffic-stops/src/etl/clean.py:39-49 | a non-numeric cell becomes missing; every numeric cell becomes the nearest multiple of five, length kept |
| Rules.AgeExample | traffic-stops/src/etl/clean.py:39-49 | "30", "abc", "17", 200 clean to 30, missing, 15, 200 |
| Rules.CleanSubjectSex | traffic-stops/src/etl/clean.py:52-55 | a string containing 'M' is 1; else containing 'F' is 0; else a non-empty string is missing; non-strings and "" pass unchanged |
| Rules.SexOfOneCharacter | traffic-stops/src/etl/clean.py:55 | "M" is 1, "F" is 0, any other single character, lower case included, is missing |
| Rules.SexExample | traffic-stops/src/etl/clean.py:55 | "M", "f", "X", missing clean to 1, missing, missing, missing |
| Rules.CleanYesNo | traffic-stops/src/etl/clean.py:58-65 | the output holds only 0, 1 and missing; 1 exactly for strings containing Y/y or the integer 1; 0 exactly for strings with N/n and no Y/y or the integer 0 |
| Rules.CleanYesNoIdempotent | traffic-stops/src/etl/clean.py:61-63 | cleaning a yes/no column twice equals cleaning it once |
| Rules.YesNoExample | traffic-stops/src/etl/clean.py:62-63 | "Y", "n", "maybe", "?", 0 clean to 1, 0, 1, missing, 0 |
| Dispatch.Lookup | traffic-stops/src/etl/clean.py:62 | reading a column yields None exactly when no column has the name, else the cells of a column with that name |
| Dispatch.UnregisteredNames | traffic-stops/src/etl/clean.py:79-88 | no rule is registered under "id", "index", "level_0", "stop_date" or "stop_time" |
| Dispatch.RuleNamesAreNotYesNo | traffic-stops/src/etl/clean.py:80-88 | no clean_&lt;name&gt; rule is named after a yes/no column, so the second loop never overrides the first |
| Dispatch.Apply | traffic-stops/src/etl/clean.py:94 | a rule fails only when it is the timestamp rule and some cell does not parse; on success it yields the cleaned column |
| Dispatch.FindRule | traffic-stops/src/etl/clean.py:82 | dictionary lookup yields None exactly when the key is absent, else the rule of an entry with that key |
| Dispatch.PutThenFind | traffic-stops/src/etl/clean.py:82 | after assigning a key, the key finds the new rule and every other key finds what it found before |
| Dispatch.RegisterNamedFind | traffic-stops/src/etl/clean.py:79-82 | after the first loop, a key finds its clean_&lt;key&gt; rule exactly when it names a column and has such a rule, otherwise what it found before |
| Dispatch.RegisterNamedShape | traffic-stops/src/etl/clean.py:79-82 | the first loop keeps the keys distinct and every key the column its rule reads |
| Dispatch.RegisterYesNoFind | traffic-stops/src/etl/clean.py:87-88 | after the second loop, each yes/no column finds its closure, every other key what it found before |
| Dispatch.RegisterYesNoShape | traffic-stops/src/etl/clean.py:87-88 | the second loop keeps the keys distinct and every key the column its rule reads |
| Dispatch.RegistryFacts | traffic-stops/src/etl/clean.py:78-88 | the registry maps a name to a rule exactly when it is a yes/no column or a present column with a clean_&lt;name&gt; rule; keys are distinct and name the column read |
| Dispatch.BuildRegistry | traffic-stops/src/etl/clean.py:78-88 | the two loops build exactly the registry described above, with its lookup and shape facts |
| Dispatch.RenameIndex | traffic-stops/src/etl/clean.py:93 | every column named "index" is renamed "id", cells and order unchanged |
| Dispatch.Absent | traffic-stops/src/etl/clean.py:95 | the labels drop reports are exactly the requested ones naming no column |
| Dispatch.AssignAllApplies | traffic-stops/src/etl/clean.py:94 | assign succeeds exactly when every entry's column is present and its rule succeeds, and then equals cleaning each keyed column in place |
| Dispatch.IndexedFields | traffic-stops/src/etl/clean.py:92-93 | without both "index" and "level_0", reset_index succeeds and after rename the frame is the identifier then the renamed input columns |
| Dispatch.IndexedLookup | traffic-stops/src/etl/clean.py:92-93 | any other name occurs at most once in the indexed frame and is found there as in the input |
| Dispatch.EntriesInIndexed | traffic-stops/src/etl/clean.py:78-94 | every registry key has its column rule and is found once in the indexed frame, as in the input |
| Dispatch.AppliedIsCleanFields | traffic-stops/src/etl/clean.py:90-94 | cleaning the indexed frame by the registry gives the identifier, then every input column renamed and cleaned by its rule |
| Dispatch.EntriesRunIffSucceeds | traffic-stops/src/etl/clean.py:78-94 | every registry entry runs exactly when all yes/no columns are present and every timestamp parses |
| Dispatch.DropSucceeds | traffic-stops/src/etl/clean.py:95 | drop fails exactly when stop_date or stop_time is absent |
| Dispatch.DropWithHead | traffic-stops/src/etl/clean.py:92-95 | a leading identifier column changes neither whether drop fails nor what it keeps after it |
| Dispatch.DropOfCleaned | traffic-stops/src/etl/clean.py:95 | dropping from the cleaned frame succeeds exactly when both raw date columns were in the input, and leaves the output table's columns |
| Dispatch.ReshapeWith | traffic-stops/src/etl/clean.py:90-95 | with any registry having the registry's lookup and shape, the chain succeeds exactly when Succeeds holds and then yields Expected |
| Dispatch.ReshapeIsExpected | traffic-stops/src/etl/clean.py:90-95 | the chain with the registry built from the column names succeeds exactly when Succeeds holds and then yields Expected |
| Dispatch.KeptAppend | traffic-stops/src/etl/clean.py:95 | dropping the raw date columns distributes over concatenation |
| Dispatch.KeptMembers | traffic-stops/src/etl/clean.py:95 | the kept columns are exactly the input columns not named stop_date or stop_time |
| Dispatch.ExpectedShape | traffic-stops/src/etl/clean.py:90-95 | the output has the input's rows, the identifier 0..n-1 first, no stop_date or stop_time column, one column per kept input column, and stays rectangular |
| Dispatch.ExpectedKeepsPosition | traffic-stops/src/etl/clean.py:90-95 | each kept input column appears, cleaned, after the identifier and the kept columns before it |
| Numeric.ParseInteger | traffic-stops/src/etl/clean.py:43 | no contract of its own; ParseDecimal and NonNumericToken state what it reads and what it rejects |
| Dispatch.RuleNamed | traffic-stops/src/etl/clean.py:80-82 | no contract of its own; RuleNamesAreNotYesNo, UnregisteredNames and RegisterNamedFind state which names have a clean_&lt;name&gt; rule |
| Dispatch.Put | traffic-stops/src/etl/clean.py:82 | no contract of its own (dictionary assignment, at lines 82 and 88); PutThenFind and PutKeepsShape state it |
| Dispatch.Registry | traffic-stops/src/etl/clean.py:78-88 | no contract of its own; RegistryFacts states its lookup and shape, BuildRegistry that the loops compute it |
| Dispatch.ResetIndex | traffic-stops/src/etl/clean.py:92 | no contract of its own; IndexedFields states when it succeeds and what it yields |
| Dispatch.SetColumn | traffic-stops/src/etl/clean.py:94 | no contract of its own; SetColumnOnce states that it replaces the one column with the key and keeps the others |
| Dispatch.AssignEntry | traffic-stops/src/etl/clean.py:94 | no contract of its own; AssignFirst and AssignFirstFails state one keyword of assign |
| Dispatch.AssignAll | traffic-stops/src/etl/clean.py:94 | no contract of its own; AssignAllApplies states when assign succeeds and what it yields |
| Dispatch.DropRawDates | traffic-stops/src/etl/clean.py:95 | no contract of its own; DropSucceeds, DropWithHead and Absent state when drop fails and what it keeps |
| Dispatch.Reshape | traffic-stops/src/etl/clean.py:90-95 | no contract of its own; ReshapeIsExpected and ReshapeWith state that it succeeds exactly when Succeeds holds and then yields Expected |
| Dispatch.CleanStops | traffic-stops/src/etl/clean.py:78-95 | building the registry, then running the chain, succeeds exactly when Succeeds holds and returns Expected |

## Left out

- Reading the CSV from the URL, writing `cleaned_stops.csv`, the output directory and the `__main__` entry point are I/O and are not modelled. `CleanStops` takes the loaded table and returns the table that would be written.
- Datetime parsing (`pd.to_datetime` on strings) is library code. It is a parameter `parse` that returns nanoseconds or `None`. Converting the rounded nanoseconds back to datetimes is not modelled, since an instant is its nanosecond count.
- Rules.RoundUpToSlot: computes in exact integers. When some timestamp cell is missing or non-positive, `.where(x > 0)` (clean.py:20) turns the instants into float64, where present-day instants are 256 ns apart. So t = k·SLOT − 1 is read as k·SLOT and comes out as (k+1)·SLOT = t + SLOT + 1, beyond the `r.num <= t + SLOT` this member promises.
- Rules.JustBeforeBoundary: holds for the exact integer arithmetic only. On the float64 path just described, an instant one nanosecond before a boundary is rounded to the boundary after it.
- Rules.CleanTimestamp: does not model int64 overflow of the rounding for instants within five minutes of the int64 maximum (after the year 2262), because integers are unbounded here.
- Rules.CleanSubjectAge: the numeric coercion accepts only optionally signed decimal integers, not fractions, exponents or surrounding blanks. Results are integers rather than pandas' float64 values (`15` for `15.0`).
- Floating-point values in cells and pandas' dtype changes (integer columns with missing values becoming float64) are not modelled. Cells are missing, strings or integers.
- The lookup of `clean_<name>` in `globals()` is an explicit table (`Dispatch.RuleNamed`) of the five module-level rules.
- A column named `yes_no` is not modelled. Its name would find the factory `clean_yes_no` itself, and `assign` would fill the column with a function object. The model registers no rule for it.
- Duplicate column names in the loaded table are not modelled (`read_csv` renames them), hence `requires DistinctNames` on `CleanStops`.
