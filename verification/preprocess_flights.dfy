/** The flight-delay preprocessing of src/data/preprocess_flights.py: picking
    the source columns by candidate names, deriving the year, the departure
    hour and the `Delayed` label, keeping and renaming the model's columns,
    and splitting the rows into a reference year and a current year. */
module PreprocessFlights {
  import opened Tables
  import opened Drift

  // Column name candidates; the first one present wins.
  const DateCandidates: seq<string> := ["FL_DATE", "Flight_Date", "flight_date"]
  const YearColCandidates: seq<string> := ["YEAR", "year"]
  const MonthColCandidates: seq<string> := ["MONTH", "month"]
  const DayColCandidates: seq<string> := ["DAY", "day"]
  const ArrDelayCandidates: seq<string> := ["ARR_DELAY", "ArrDelay", "arr_delay", "arrival_delay"]
  const AirlineCandidates: seq<string> := ["OP_CARRIER", "AIRLINE", "Carrier", "carrier", "op_carrier"]
  const OriginCandidates: seq<string> := ["ORIGIN", "Origin", "origin"]
  const DestCandidates: seq<string> := ["DEST", "Dest", "dest", "destination", "Destination"]
  const DistanceCandidates: seq<string> := ["DISTANCE", "Distance", "distance"]
  const DepTimeCandidates: seq<string> := ["DEP_TIME", "CRS_DEP_TIME", "DepTime", "dep_time", "crs_dep_time"]

  /** The year given to every row when only month and day columns exist. */
  const SyntheticYear: int := 2020

  /** Threshold, in minutes, above which a flight counts as delayed. */
  const DelayThreshold: real := 15.0

  /** `_pick`: the first candidate, in candidate order, that is a column
      (see `PickIsFirst`). */
  function Pick(columns: seq<string>, candidates: seq<string>): (r: Option<string>)
    ensures r.None? <==> forall k :: 0 <= k < |candidates| ==> candidates[k] !in columns
    ensures r.Some? ==> r.value in columns && r.value in candidates
  {
    if candidates == [] then None
    else if candidates[0] in columns then Some(candidates[0])
    else
      var r := Pick(columns, candidates[1..]);
      assert forall k :: 1 <= k < |candidates| ==> candidates[k] == candidates[1..][k - 1];
      r
  }

  /** No candidate before the picked one is a column. */
  lemma {:induction false} PickIsFirst(columns: seq<string>, candidates: seq<string>)
    ensures Pick(columns, candidates).Some? ==>
      exists k :: 0 <= k < |candidates| && candidates[k] == Pick(columns, candidates).value
                  && (forall j :: 0 <= j < k ==> candidates[j] !in columns)
  {
    if candidates == [] {
    } else if candidates[0] in columns {
      assert candidates[0] == Pick(columns, candidates).value;
    } else {
      var tail := candidates[1..];
      PickIsFirst(columns, tail);
      var r := Pick(columns, tail);
      if r.Some? {
        var k :| 0 <= k < |tail| && tail[k] == r.value && (forall j :: 0 <= j < k ==> tail[j] !in columns);
        assert candidates[k + 1] == r.value;
        forall j | 0 <= j < k + 1 ensures candidates[j] !in columns {
          if j > 0 {
            assert candidates[j] == tail[j - 1];
          }
        }
      }
    }
  }

  /** The column chosen for every role. */
  datatype Picked = Picked(date: Option<string>, year: Option<string>, month: Option<string>,
                           day: Option<string>, arrDelay: Option<string>, airline: Option<string>,
                           origin: Option<string>, dest: Option<string>, distance: Option<string>,
                           depTime: Option<string>)

  /** Lines 78-87 of `main`. */
  function PickAll(columns: seq<string>): Picked {
    Picked(Pick(columns, DateCandidates), Pick(columns, YearColCandidates),
           Pick(columns, MonthColCandidates), Pick(columns, DayColCandidates),
           Pick(columns, ArrDelayCandidates), Pick(columns, AirlineCandidates),
           Pick(columns, OriginCandidates), Pick(columns, DestCandidates),
           Pick(columns, DistanceCandidates), Pick(columns, DepTimeCandidates))
  }

  /** A picked name that is truthy (non-empty) and a column. */
  predicate Usable(name: Option<string>, columns: seq<string>) {
    name.Some? && name.value != "" && name.value in columns
  }

  datatype YearSource = FromYearColumn(column: string) | FromDate(column: string) | Synthetic | NoSource

  /** The branch `_extract_year` takes: the year column first, then the
      date column, then month and day together. */
  function YearSourceOf(columns: seq<string>, date: Option<string>, year: Option<string>,
                        month: Option<string>, day: Option<string>): (s: YearSource)
    ensures s.FromYearColumn? <==> Usable(year, columns)
    ensures s.FromDate? <==> !Usable(year, columns) && Usable(date, columns)
    ensures s.Synthetic? <==> !Usable(year, columns) && !Usable(date, columns)
                              && Usable(month, columns) && Usable(day, columns)
    ensures s.FromYearColumn? ==> year == Some(s.column)
    ensures s.FromDate? ==> date == Some(s.column)
  {
    if Usable(year, columns) then FromYearColumn(year.value)
    else if Usable(date, columns) then FromDate(date.value)
    else if Usable(month, columns) && Usable(day, columns) then Synthetic
    else NoSource
  }

  /** What stops the preprocessing. */
  datatype PreprocessError =
    | NoYearSource          // the ValueError of `_extract_year`
    | YearNotInteger        // `astype(int)` on a missing or text year
    | NoYearDefined         // `int(df["year"].min())` on no defined year
    | NoArrivalDelay        // no arrival delay column
    | ArrivalDelayNotNumeric  // comparing a text delay with 15

  /** `df[year_col].astype(int)`: every cell must be a number, which is
      truncated; a missing or text cell makes the cast raise (None). */
  function CastYears(cells: seq<Option<Cell>>): (r: Option<seq<int>>)
    ensures r.None? <==> exists i :: 0 <= i < |cells| && (cells[i].None? || cells[i].value.Text?)
    ensures r.Some? ==> |r.value| == |cells| && forall i :: 0 <= i < |cells| ==>
      cells[i] == Some(Num(cells[i].value.x)) && r.value[i] == TruncToInt(cells[i].value.x)
  {
    if cells == [] then Some([])
    else
      var rest := CastYears(cells[1..]);
      assert forall i :: 1 <= i < |cells| ==> cells[i] == cells[1..][i - 1];
      match cells[0]
      case None => None
      case Some(Text(_)) => None
      case Some(Num(x)) => if rest.None? then None else Some([TruncToInt(x)] + rest.value)
  }

  /** `_extract_year`: one year per row, None where the date does not parse.
      `dateYear` stands for `pd.to_datetime(..., errors="coerce").dt.year`
      on one cell. */
  function ExtractYear(df: Frame, p: Picked, dateYear: Cell -> Option<int>)
    : (r: Result<seq<Option<int>>, PreprocessError>)
    requires WellFormed(df)
    ensures r.Success? ==> |r.value| == df.rows
    ensures r == Failure(NoYearSource) <==>
      YearSourceOf(Names(df.columns), p.date, p.year, p.month, p.day) == NoSource
    ensures r.Failure? ==> r.error == NoYearSource || r.error == YearNotInteger
    ensures YearSourceOf(Names(df.columns), p.date, p.year, p.month, p.day) == Synthetic ==>
      r == Success(seq(df.rows, _ => Some(SyntheticYear)))
    ensures YearSourceOf(Names(df.columns), p.date, p.year, p.month, p.day).FromYearColumn? ==>
      var cells := Lookup(df.columns, p.year.value).value.cells;
      && (r.Failure? <==> CastYears(cells).None?)
      && (r.Success? ==> forall i :: 0 <= i < df.rows ==> r.value[i] == Some(CastYears(cells).value[i]))
    ensures YearSourceOf(Names(df.columns), p.date, p.year, p.month, p.day).FromDate? ==>
      var cells := Lookup(df.columns, p.date.value).value.cells;
      && r.Success?
      && forall i :: 0 <= i < df.rows ==> r.value[i] == (if cells[i].Some? then dateYear(cells[i].value) else None)
  {
    var names := Names(df.columns);
    match YearSourceOf(names, p.date, p.year, p.month, p.day)
    case FromYearColumn(n) =>
      var col := Lookup(df.columns, n).value;
      var years := CastYears(col.cells);
      if years.None? then Failure(YearNotInteger)
      else Success(seq(|years.value|, i requires 0 <= i < |years.value| => Some(years.value[i])))
    case FromDate(n) =>
      var col := Lookup(df.columns, n).value;
      Success(seq(|col.cells|, i requires 0 <= i < |col.cells| =>
        if col.cells[i].Some? then dateYear(col.cells[i].value) else None))
    case Synthetic => Success(seq(df.rows, _ => Some(SyntheticYear)))
    case NoSource => Failure(NoYearSource)
  }

  /** Some row has a year, so `df["year"].min()` is not NaN. */
  predicate SomeYearDefined(years: seq<Option<int>>) {
    exists i :: 0 <= i < |years| && years[i].Some?
  }

  /** The divisor `_extract_dep_hour` uses for the whole column: 60
      (minutes since midnight) when the largest or the smallest present
      value exceeds 2400, 100 (HHMM) otherwise. */
  function DepHourDivisor(raw: seq<Option<real>>): (d: real)
    ensures d == 60.0 || d == 100.0
    ensures d == 60.0 <==> exists i :: 0 <= i < |raw| && raw[i].Some? && raw[i].value > 2400.0
  {
    var present := Present(raw);
    if |present| > 0 && (Max(present) > 2400.0 || Min(present) > 2400.0) then 60.0
    else
      assert forall i :: 0 <= i < |raw| && raw[i].Some? ==> raw[i].value in present;
      100.0
  }

  /** `_extract_dep_hour`: the coerced departure times floor-divided by the
      column's divisor; what does not coerce stays missing. */
  function DepHours(cells: seq<Option<Cell>>): (r: seq<Option<int>>)
    ensures |r| == |cells|
    ensures forall i :: 0 <= i < |cells| ==>
      r[i] == (if Coerce(cells)[i].Some? then Some((Coerce(cells)[i].value / DepHourDivisor(Coerce(cells))).Floor)
               else None)
  {
    var raw := Coerce(cells);
    var d := DepHourDivisor(raw);
    seq(|raw|, i requires 0 <= i < |raw| => if raw[i].Some? then Some((raw[i].value / d).Floor) else None)
  }

  /** A column of HHMM times (0 to 2359, any minutes) maps every present
      time to an hour from 0 to 23. */
  lemma HhmmHours(cells: seq<Option<Cell>>)
    requires forall i :: 0 <= i < |cells| && cells[i].Some? && cells[i].value.Num? ==>
      0.0 <= cells[i].value.x < 2400.0
    ensures forall i :: 0 <= i < |cells| && DepHours(cells)[i].Some? ==> 0 <= DepHours(cells)[i].value <= 23
  {
    var raw := Coerce(cells);
    assert DepHourDivisor(raw) == 100.0;
    forall i | 0 <= i < |cells| && DepHours(cells)[i].Some?
      ensures 0 <= DepHours(cells)[i].value <= 23
    {
      var x := raw[i].value;
      assert 0.0 <= x / 100.0 < 24.0;
    }
  }

  /** Minutes since midnight never exceed 2400, so a column holding only
      such times is read as HHMM: 1439 (23:59) gives hour 14. */
  lemma MinutesReadAsHhmm()
    ensures DepHours([Some(Num(1439.0))]) == [Some(14)]
  {
    var raw := Coerce([Some(Num(1439.0))]);
    assert raw == [Some(1439.0)];
    assert DepHourDivisor(raw) == 100.0;
    assert (1439.0 / 100.0).Floor == 14;
  }

  /** `(df[arr_delay_col] > 15).astype(int)`: 1 for a delay over 15, 0 for
      any other number and for a missing delay; a text delay makes the
      comparison raise (None). */
  function DelayedLabel(cells: seq<Option<Cell>>): (r: Option<seq<Option<Cell>>>)
    ensures r.None? <==> exists i :: 0 <= i < |cells| && cells[i].Some? && cells[i].value.Text?
    ensures r.Some? ==> |r.value| == |cells| && forall i :: 0 <= i < |cells| ==>
      (r.value[i] == Some(Num(1.0)) <==> cells[i].Some? && cells[i].value.x > DelayThreshold) &&
      (r.value[i] == Some(Num(0.0)) <==> !(cells[i].Some? && cells[i].value.x > DelayThreshold))
  {
    var delays := AsFloats(cells);
    if delays.None? then None
    else
      Some(seq(|cells|, i requires 0 <= i < |cells| =>
        if delays.value[i].Some? && delays.value[i].value > DelayThreshold then Some(Num(1.0)) else Some(Num(0.0))))
  }

  /** `df[name] = values`: every column of that name is overwritten in
      place; without one, the column is appended. */
  function SetColumn(cols: seq<Column>, c: Column): (r: seq<Column>)
    ensures Lookup(r, c.name) == Some(c)
    ensures forall n :: n != c.name ==> Lookup(r, n) == Lookup(cols, n)
    ensures forall n :: n in Names(r) <==> n in Names(cols) || n == c.name
    ensures forall i :: 0 <= i < |r| ==> r[i] == c || r[i] in cols
    ensures forall i :: 0 <= i < |cols| && cols[i].name != c.name ==> cols[i] in r
    ensures forall i :: 0 <= i < |r| && r[i].name == c.name ==> r[i] == c
  {
    if c.name in Names(cols) then
      ReplaceAllLookup(cols, c);
      ReplaceAll(cols, c)
    else
      AppendLookup(cols, c);
      cols + [c]
  }

  /** Every column named like `c` overwritten by `c`, the others kept. */
  function ReplaceAll(cols: seq<Column>, c: Column): (r: seq<Column>)
    ensures |r| == |cols|
  {
    seq(|cols|, i requires 0 <= i < |cols| => if cols[i].name == c.name then c else cols[i])
  }

  /** Overwriting keeps the names, finds `c` under its name and leaves the
      other names finding what they found. */
  lemma {:induction false} ReplaceAllLookup(cols: seq<Column>, c: Column)
    ensures Names(ReplaceAll(cols, c)) == Names(cols)
    ensures c.name in Names(cols) ==> Lookup(ReplaceAll(cols, c), c.name) == Some(c)
    ensures forall n :: n != c.name ==> Lookup(ReplaceAll(cols, c), n) == Lookup(cols, n)
  {
    if cols != [] {
      var r := ReplaceAll(cols, c);
      assert r[1..] == ReplaceAll(cols[1..], c);
      ReplaceAllLookup(cols[1..], c);
    }
  }

  /** Appending a column of a new name finds it under that name and leaves
      the other names finding what they found. */
  lemma {:induction false} AppendLookup(cols: seq<Column>, c: Column)
    requires c.name !in Names(cols)
    ensures Names(cols + [c]) == Names(cols) + [c.name]
    ensures Lookup(cols + [c], c.name) == Some(c)
    ensures forall n :: n != c.name ==> Lookup(cols + [c], n) == Lookup(cols, n)
  {
    NamesConcat(cols, [c]);
    assert Names([c]) == [c.name];
    if cols != [] {
      assert (cols + [c])[1..] == cols[1..] + [c];
      assert cols[0].name in Names(cols);
      AppendLookup(cols[1..], c);
    }
  }

  /** Integers with missing entries as the cells of an integer column. */
  function IntCells(xs: seq<Option<int>>): (cells: seq<Option<Cell>>)
    ensures |cells| == |xs|
    ensures forall i :: 0 <= i < |xs| ==> (cells[i].None? <==> xs[i].None?)
    ensures forall i, y :: 0 <= i < |xs| ==> (cells[i] == Some(Num(y as real)) <==> xs[i] == Some(y))
  {
    seq(|xs|, i requires 0 <= i < |xs| => if xs[i].Some? then Some(Num(xs[i].value as real)) else None)
  }

  /** The year column `df["year"]` receives. */
  function YearColumn(years: seq<Option<int>>): Column {
    Column("year", Int64, IntCells(years))
  }

  /** The picked column of the four roles that are kept and renamed. */
  predicate RenamedRole(p: Picked, n: string) {
    p.airline == Some(n) || p.origin == Some(n) || p.dest == Some(n) || p.distance == Some(n)
  }

  /** The keep set and renaming of lines 97-115 of `main`: "year",
      "Delayed", every picked role and, with a departure time, "dep_hour" are
      kept, the departure-time column itself is not; each role is renamed to
      its canonical name, a later role winning when two pick the same
      column. */
  ghost predicate BuiltKeep(p: Picked, keep: set<string>, renames: map<string, string>) {
    && (forall n :: n in keep <==>
         (p.depTime != Some(n) && (n == "year" || n == "Delayed" || RenamedRole(p, n) || (p.depTime.Some? && n == "dep_hour"))))
    && (forall n :: n in renames <==> RenamedRole(p, n))
    && (forall n :: n in renames ==> renames[n] in {"airline", "origin", "destination", "distance"})
    && (p.distance.Some? ==> p.distance.value in renames && renames[p.distance.value] == "distance")
    && (p.dest.Some? && p.dest != p.distance ==>
         p.dest.value in renames && renames[p.dest.value] == "destination")
    && (p.origin.Some? && p.origin != p.dest && p.origin != p.distance ==>
         p.origin.value in renames && renames[p.origin.value] == "origin")
    && (p.airline.Some? && p.airline != p.origin && p.airline != p.dest && p.airline != p.distance ==>
         p.airline.value in renames && renames[p.airline.value] == "airline")
  }

  /** Lines 97-115 of `main`: the set of kept columns and the renaming. */
  method BuildKeep(p: Picked) returns (keep: set<string>, renames: map<string, string>)
    ensures BuiltKeep(p, keep, renames)
  {
    keep := {"year", "Delayed"};
    renames := map[];
    if p.airline.Some? {
      keep := keep + {p.airline.value};
      renames := renames[p.airline.value := "airline"];
    }
    if p.origin.Some? {
      keep := keep + {p.origin.value};
      renames := renames[p.origin.value := "origin"];
    }
    if p.dest.Some? {
      keep := keep + {p.dest.value};
      renames := renames[p.dest.value := "destination"];
    }
    if p.distance.Some? {
      keep := keep + {p.distance.value};
      renames := renames[p.distance.value := "distance"];
    }
    if p.depTime.Some? {
      keep := keep + {p.depTime.value};
      keep := keep + {"dep_hour"};
      keep := keep - {p.depTime.value};
    }
  }

  /** No name is a candidate of both lists. */
  predicate Disjoint(a: seq<string>, b: seq<string>) {
    forall i, j :: 0 <= i < |a| && 0 <= j < |b| ==> a[i] != b[j]
  }

  /** Two roles with disjoint candidate lists never pick the same column. */
  lemma PickDisjoint(columns: seq<string>, a: seq<string>, b: seq<string>)
    requires Disjoint(a, b)
    ensures Pick(columns, a).Some? ==> Pick(columns, a) != Pick(columns, b)
  {
    var r, t := Pick(columns, a), Pick(columns, b);
    if r.Some? && t.Some? {
      var i :| 0 <= i < |a| && a[i] == r.value;
      var k :| 0 <= k < |b| && b[k] == t.value;
      assert a[i] != b[k];
    }
  }

  lemma AirlineCandidatesDisjoint()
    ensures Disjoint(AirlineCandidates, OriginCandidates) && Disjoint(AirlineCandidates, DestCandidates)
    ensures Disjoint(AirlineCandidates, DistanceCandidates) && Disjoint(AirlineCandidates, DepTimeCandidates)
  {
  }

  lemma OriginCandidatesDisjoint()
    ensures Disjoint(OriginCandidates, DestCandidates) && Disjoint(OriginCandidates, DistanceCandidates)
    ensures Disjoint(OriginCandidates, DepTimeCandidates)
  {
  }

  lemma DestCandidatesDisjoint()
    ensures Disjoint(DestCandidates, DistanceCandidates) && Disjoint(DestCandidates, DepTimeCandidates)
    ensures Disjoint(DistanceCandidates, DepTimeCandidates)
  {
  }

  /** The candidate lists of the roles are pairwise disjoint, so on picked
      columns every kept source column gets its own canonical name. */
  lemma PickedRolesDistinct(columns: seq<string>)
    ensures RolesDistinct(PickAll(columns))
  {
    AirlineCandidatesDisjoint();
    OriginCandidatesDisjoint();
    DestCandidatesDisjoint();
    PickDisjoint(columns, AirlineCandidates, OriginCandidates);
    PickDisjoint(columns, AirlineCandidates, DestCandidates);
    PickDisjoint(columns, AirlineCandidates, DistanceCandidates);
    PickDisjoint(columns, AirlineCandidates, DepTimeCandidates);
    PickDisjoint(columns, OriginCandidates, DestCandidates);
    PickDisjoint(columns, OriginCandidates, DistanceCandidates);
    PickDisjoint(columns, OriginCandidates, DepTimeCandidates);
    PickDisjoint(columns, DestCandidates, DistanceCandidates);
    PickDisjoint(columns, DestCandidates, DepTimeCandidates);
    PickDisjoint(columns, DistanceCandidates, DepTimeCandidates);
  }

  /** `existing` and `df[existing]`: the kept columns, in frame order. */
  function SelectKept(cols: seq<Column>, keep: set<string>): (r: seq<Column>)
    ensures forall i :: 0 <= i < |r| ==> r[i] in cols && r[i].name in keep
    ensures forall i :: 0 <= i < |cols| && cols[i].name in keep ==> cols[i] in r
  {
    if cols == [] then []
    else
      var rest := SelectKept(cols[1..], keep);
      assert forall i :: 1 <= i < |cols| ==> cols[i] == cols[1..][i - 1];
      if cols[0].name in keep then [cols[0]] + rest else rest
  }

  /** Selecting a kept name leaves what `df[name]` finds unchanged. */
  lemma {:induction false} LookupSelectKept(cols: seq<Column>, keep: set<string>, n: string)
    requires n in keep
    ensures Lookup(SelectKept(cols, keep), n) == Lookup(cols, n)
  {
    if cols != [] {
      LookupSelectKept(cols[1..], keep, n);
    }
  }

  /** The name a column carries after `rename(columns=renames)`. */
  function Renamed(name: string, renames: map<string, string>): string {
    if name in renames then renames[name] else name
  }

  /** `out.rename(columns=renames)` */
  function RenameColumns(cols: seq<Column>, renames: map<string, string>): (r: seq<Column>)
    ensures |r| == |cols|
    ensures forall i :: 0 <= i < |cols| ==>
      r[i] == Column(Renamed(cols[i].name, renames), cols[i].dtype, cols[i].cells)
  {
    if cols == [] then []
    else [Column(Renamed(cols[0].name, renames), cols[0].dtype, cols[0].cells)] + RenameColumns(cols[1..], renames)
  }

  /** A name neither renamed nor produced by the renaming is found as
      before. */
  lemma {:induction false} LookupRenamed(cols: seq<Column>, renames: map<string, string>, n: string)
    requires n !in renames && forall k :: k in renames ==> renames[k] != n
    ensures Lookup(RenameColumns(cols, renames), n) == Lookup(cols, n)
  {
    if cols != [] {
      assert RenameColumns(cols, renames)[1..] == RenameColumns(cols[1..], renames);
      LookupRenamed(cols[1..], renames, n);
    }
  }

  /** `dropna(how="all", axis=1)`: the columns with a value left, in
      order. */
  function DropAllNull(cols: seq<Column>): (r: seq<Column>)
    ensures forall i :: 0 <= i < |r| ==> r[i] in cols && !AllMissing(r[i].cells)
    ensures forall i :: 0 <= i < |cols| && !AllMissing(cols[i].cells) ==> cols[i] in r
  {
    if cols == [] then []
    else
      var rest := DropAllNull(cols[1..]);
      assert forall i :: 1 <= i < |cols| ==> cols[i] == cols[1..][i - 1];
      if AllMissing(cols[0].cells) then rest else [cols[0]] + rest
  }

  /** A column with a value is still what `df[name]` finds after the
      drop. */
  lemma {:induction false} LookupDropAllNull(cols: seq<Column>, n: string)
    requires Lookup(cols, n).Some? && !AllMissing(Lookup(cols, n).value.cells)
    ensures Lookup(DropAllNull(cols), n) == Lookup(cols, n)
  {
    if cols[0].name != n {
      LookupDropAllNull(cols[1..], n);
    }
  }

  /** `drop(columns=[name])` */
  function DropColumn(cols: seq<Column>, name: string): (r: seq<Column>)
    ensures forall i :: 0 <= i < |r| ==> r[i] in cols && r[i].name != name
    ensures forall i :: 0 <= i < |cols| && cols[i].name != name ==> cols[i] in r
  {
    if cols == [] then []
    else
      var rest := DropColumn(cols[1..], name);
      assert forall i :: 1 <= i < |cols| ==> cols[i] == cols[1..][i - 1];
      if cols[0].name == name then rest else [cols[0]] + rest
  }

  /** Dropping a column removes exactly its name. */
  lemma {:induction false} DropColumnNames(cols: seq<Column>, name: string)
    ensures Names(DropColumn(cols, name)) == Filtered(Names(cols), name)
  {
    if cols != [] {
      DropColumnNames(cols[1..], name);
      assert Names(cols)[1..] == Names(cols[1..]);
      var rest := DropColumn(cols[1..], name);
      if cols[0].name != name {
        assert Names([cols[0]] + rest) == [cols[0].name] + Names(rest);
      }
    }
  }

  /** The names other than `name`, in order. */
  function Filtered(names: seq<string>, name: string): (r: seq<string>)
    ensures forall n :: n in r <==> n in names && n != name
  {
    if names == [] then []
    else
      assert forall k :: 1 <= k < |names| ==> names[k] == names[1..][k - 1];
      (if names[0] == name then [] else [names[0]]) + Filtered(names[1..], name)
  }

  /** The rows, in order, whose year cell equals y (`out["year"] == y`; a
      missing year equals nothing). */
  function RowsOfYear(cells: seq<Option<Cell>>, y: int): (rows: seq<nat>)
    ensures forall k :: 0 <= k < |rows| ==> rows[k] < |cells| && cells[rows[k]] == Some(Num(y as real))
    ensures forall i :: 0 <= i < |cells| && cells[i] == Some(Num(y as real)) ==> i in rows
    ensures forall k, l :: 0 <= k < l < |rows| ==> rows[k] < rows[l]
  {
    if cells == [] then []
    else
      var front := cells[..|cells| - 1];
      var rest := RowsOfYear(front, y);
      assert forall i :: 0 <= i < |cells| - 1 ==> cells[i] == front[i];
      rest + (if cells[|cells| - 1] == Some(Num(y as real)) then [|cells| - 1] else [])
  }

  /** Two different years select disjoint sets of rows, so together they
      never hold more rows than the frame. */
  lemma {:induction false} YearSplitDisjoint(cells: seq<Option<Cell>>, a: int, b: int)
    requires a != b
    ensures forall k, l :: 0 <= k < |RowsOfYear(cells, a)| && 0 <= l < |RowsOfYear(cells, b)| ==>
      RowsOfYear(cells, a)[k] != RowsOfYear(cells, b)[l]
    ensures |RowsOfYear(cells, a)| + |RowsOfYear(cells, b)| <= |cells|
  {
    if cells != [] {
      YearSplitDisjoint(cells[..|cells| - 1], a, b);
    }
  }

  /** `df[mask]`: the given rows of every column, in the given order. */
  function SelectRows(f: Frame, rows: seq<nat>): (r: Frame)
    requires WellFormed(f) && forall k :: 0 <= k < |rows| ==> rows[k] < f.rows
    ensures WellFormed(r) && r.rows == |rows| && Names(r.columns) == Names(f.columns)
    ensures forall j :: 0 <= j < |f.columns| ==> r.columns[j].dtype == f.columns[j].dtype
    ensures forall j, k :: 0 <= j < |f.columns| && 0 <= k < |rows| ==>
      r.columns[j].cells[k] == f.columns[j].cells[rows[k]]
  {
    var cols := seq(|f.columns|, j requires 0 <= j < |f.columns| =>
      Column(f.columns[j].name, f.columns[j].dtype,
             seq(|rows|, k requires 0 <= k < |rows| => f.columns[j].cells[rows[k]])));
    assert Names(cols) == Names(f.columns);
    Frame(|rows|, cols)
  }

  /** `dst` holds the cells of `src` at `rows`, in that order, with the
      same dtype. */
  predicate SlicedFrom(src: Column, rows: seq<nat>, dst: Column) {
    && dst.dtype == src.dtype
    && |dst.cells| == |rows|
    && forall k :: 0 <= k < |rows| ==> rows[k] < |src.cells| && dst.cells[k] == src.cells[rows[k]]
  }

  /** `df[name]` finds the first column of that name. */
  lemma {:induction false} LookupFirst(cols: seq<Column>, n: string) returns (i: nat)
    requires n in Names(cols)
    ensures i < |cols| && Lookup(cols, n) == Some(cols[i])
    ensures forall j :: 0 <= j < i ==> cols[j].name != n
  {
    if cols[0].name == n {
      i := 0;
    } else {
      assert Lookup(cols[1..], n) == Lookup(cols, n);
      var k := LookupFirst(cols[1..], n);
      i := k + 1;
      forall j | 0 <= j < i ensures cols[j].name != n {
        if j > 0 {
          assert cols[j] == cols[1..][j - 1];
        }
      }
    }
  }

  /** The first column carrying a name is what `df[name]` finds. */
  lemma {:induction false} LookupAtFirst(cols: seq<Column>, n: string, i: nat)
    requires i < |cols| && cols[i].name == n
    requires forall j :: 0 <= j < i ==> cols[j].name != n
    ensures Lookup(cols, n) == Some(cols[i])
  {
    if i > 0 {
      forall j | 0 <= j < i - 1 ensures cols[1..][j].name != n {
        assert cols[1..][j] == cols[j + 1];
      }
      LookupAtFirst(cols[1..], n, i - 1);
    }
  }

  /** After `df[mask]`, a column holds the selected cells of the column of
      that name. */
  lemma LookupSelectRows(f: Frame, rows: seq<nat>, n: string)
    requires WellFormed(f) && forall k :: 0 <= k < |rows| ==> rows[k] < f.rows
    requires Lookup(f.columns, n).Some?
    ensures Lookup(SelectRows(f, rows).columns, n).Some?
    ensures SlicedFrom(Lookup(f.columns, n).value, rows, Lookup(SelectRows(f, rows).columns, n).value)
  {
    var r := SelectRows(f, rows);
    var i := LookupFirst(f.columns, n);
    forall j | 0 <= j < i ensures r.columns[j].name != n {
      assert Names(r.columns)[j] == Names(f.columns)[j];
    }
    assert Names(r.columns)[i] == Names(f.columns)[i];
    LookupAtFirst(r.columns, n, i);
  }

  /** Dropping one column leaves what `df[n]` finds for every other name. */
  lemma {:induction false} LookupDropColumn(cols: seq<Column>, name: string, n: string)
    requires n != name
    ensures Lookup(DropColumn(cols, name), n) == Lookup(cols, n)
  {
    if cols != [] {
      LookupDropColumn(cols[1..], name, n);
    }
  }

  /** Selecting rows and dropping "year" leaves every other column as the
      selected cells of that column. */
  lemma SliceColumns(out: Frame, rows: seq<nat>)
    requires WellFormed(out) && forall k :: 0 <= k < |rows| ==> rows[k] < out.rows
    ensures var cols := DropColumn(SelectRows(out, rows).columns, "year");
      forall n :: n != "year" && Lookup(out.columns, n).Some? ==>
        Lookup(cols, n).Some? && SlicedFrom(Lookup(out.columns, n).value, rows, Lookup(cols, n).value)
  {
    var cols := DropColumn(SelectRows(out, rows).columns, "year");
    forall n | n != "year" && Lookup(out.columns, n).Some?
      ensures Lookup(cols, n).Some? && SlicedFrom(Lookup(out.columns, n).value, rows, Lookup(cols, n).value)
    {
      LookupSelectRows(out, rows, n);
      LookupDropColumn(SelectRows(out, rows).columns, "year", n);
    }
  }

  /** The names the outputs may carry. */
  const OutputNames: set<string> := {"Delayed", "dep_hour", "airline", "origin", "destination", "distance"}

  /** What `main` writes for one year: well formed, without "year", with the
      label, and only under canonical names. */
  predicate OutputShape(f: Frame) {
    && WellFormed(f)
    && "year" !in Names(f.columns)
    && "Delayed" in Names(f.columns)
    && forall i :: 0 <= i < |f.columns| ==> f.columns[i].name in OutputNames
  }

  /** Lines 120-123 of `main`: the rows of one year, without the year
      column. */
  function YearSlice(out: Frame, y: int): (r: Frame)
    requires WellFormed(out) && "year" in Names(out.columns)
    ensures r.rows == |RowsOfYear(Lookup(out.columns, "year").value.cells, y)|
    ensures WellFormed(r) && "year" !in Names(r.columns)
    ensures forall n :: n in Names(r.columns) <==> n in Names(out.columns) && n != "year"
    ensures forall n :: n != "year" && Lookup(out.columns, n).Some? ==>
      && Lookup(r.columns, n).Some?
      && SlicedFrom(Lookup(out.columns, n).value, RowsOfYear(Lookup(out.columns, "year").value.cells, y),
                    Lookup(r.columns, n).value)
  {
    var cells := Lookup(out.columns, "year").value.cells;
    LookupLength(out.rows, out.columns, "year");
    var sliced := SelectRows(out, RowsOfYear(cells, y));
    DropColumnNames(sliced.columns, "year");
    SliceColumns(out, RowsOfYear(cells, y));
    Frame(sliced.rows, DropColumn(sliced.columns, "year"))
  }

  /** None of `names` is a column `main` creates. */
  predicate NoneCreated(names: seq<string>) {
    forall k :: 0 <= k < |names| ==> names[k] != "year" && names[k] != "Delayed" && names[k] != "dep_hour"
  }

  /** No candidate of the later roles names a column `main` creates. */
  lemma CandidatesNotCreated()
    ensures NoneCreated(ArrDelayCandidates) && NoneCreated(AirlineCandidates) && NoneCreated(OriginCandidates)
    ensures NoneCreated(DestCandidates) && NoneCreated(DistanceCandidates) && NoneCreated(DepTimeCandidates)
  {
  }

  /** A column picked from such candidates is a source column. */
  lemma PickNotCreated(columns: seq<string>, candidates: seq<string>)
    requires NoneCreated(candidates)
    ensures Pick(columns, candidates).Some? ==>
      var n := Pick(columns, candidates).value;
      n in columns && n != "year" && n != "Delayed" && n != "dep_hour"
  {
    var r := Pick(columns, candidates);
    if r.Some? {
      var k :| 0 <= k < |candidates| && candidates[k] == r.value;
    }
  }

  /** The picked arrival-delay, departure-time and renamed columns are
      source columns, distinct from the ones `main` creates. */
  lemma PickedNamesAreSourceNames(columns: seq<string>)
    ensures var p := PickAll(columns);
      && (p.arrDelay.Some? ==> p.arrDelay.value in columns && p.arrDelay.value != "year" && p.arrDelay.value != "Delayed")
      && (p.depTime.Some? ==> p.depTime.value in columns)
      && PicksNotCreated(p)
  {
    CandidatesNotCreated();
    PickNotCreated(columns, ArrDelayCandidates);
    PickNotCreated(columns, DepTimeCandidates);
    PickNotCreated(columns, AirlineCandidates);
    PickNotCreated(columns, OriginCandidates);
    PickNotCreated(columns, DestCandidates);
    PickNotCreated(columns, DistanceCandidates);
  }

  /** Lines 117-120 of `main`: keep, rename, then drop the all-null
      columns. */
  function Shape(cols: seq<Column>, keep: set<string>, renames: map<string, string>): seq<Column> {
    DropAllNull(RenameColumns(SelectKept(cols, keep), renames))
  }

  /** Shaping a frame keeps one cell per row in every column. */
  lemma ShapeWellFormed(rows: nat, cols: seq<Column>, keep: set<string>, renames: map<string, string>)
    requires WellFormed(Frame(rows, cols))
    ensures WellFormed(Frame(rows, Shape(cols, keep, renames)))
  {
    var selected := SelectKept(cols, keep);
    var renamed := RenameColumns(selected, renames);
    assert forall i :: 0 <= i < |renamed| ==> |renamed[i].cells| == rows;
  }

  /** A kept column that is not renamed, whose name no other column is
      renamed to, and that has a value, is still what `out[name]` finds. */
  lemma ShapeKeeps(cols: seq<Column>, keep: set<string>, renames: map<string, string>, c: Column)
    requires Lookup(cols, c.name) == Some(c) && c.name in keep
    requires c.name !in renames && forall k :: k in renames ==> renames[k] != c.name
    requires !AllMissing(c.cells)
    ensures Lookup(Shape(cols, keep, renames), c.name) == Some(c)
  {
    var selected := SelectKept(cols, keep);
    LookupSelectKept(cols, keep, c.name);
    LookupRenamed(selected, renames, c.name);
    LookupDropAllNull(RenameColumns(selected, renames), c.name);
  }

  /** What the keep set and the renaming of `BuildKeep` amount to on picked
      columns: "year" and "Delayed" are kept and never renamed, every other
      kept name is renamed or is "dep_hour", and the renaming produces only
      canonical names. */
  predicate KeepsCanonical(keep: set<string>, renames: map<string, string>) {
    && "year" in keep && "Delayed" in keep
    && "year" !in renames && "Delayed" !in renames
    && (forall n :: n in keep ==> n in renames || n == "year" || n == "Delayed" || n == "dep_hour")
    && (forall n :: n in renames ==> renames[n] in {"airline", "origin", "destination", "distance"})
  }

  /** `BuildKeep` on roles that never pick "year" or "Delayed" gives such a
      keep set and renaming. */
  lemma KeepCanonical(p: Picked, keep: set<string>, renames: map<string, string>)
    requires PicksNotCreated(p) && BuiltKeep(p, keep, renames)
    ensures KeepsCanonical(keep, renames)
  {
  }

  /** Such a keep set and renaming leave only canonical names and "year". */
  lemma ShapeNames(cols: seq<Column>, keep: set<string>, renames: map<string, string>)
    requires KeepsCanonical(keep, renames)
    ensures forall i :: 0 <= i < |Shape(cols, keep, renames)| ==>
      Shape(cols, keep, renames)[i].name in OutputNames + {"year"}
  {
    var selected := SelectKept(cols, keep);
    var renamed := RenameColumns(selected, renames);
    var kept := DropAllNull(renamed);
    forall i | 0 <= i < |kept| ensures kept[i].name in OutputNames + {"year"} {
      var j :| 0 <= j < |renamed| && renamed[j] == kept[i];
      RenamedCanonical(selected[j].name, keep, renames);
    }
  }

  /** A kept name, once renamed, is canonical or "year". */
  lemma RenamedCanonical(name: string, keep: set<string>, renames: map<string, string>)
    requires KeepsCanonical(keep, renames) && name in keep
    ensures Renamed(name, renames) in OutputNames + {"year"}
  {
  }

  /** A frame shaped by `main` that still holds the year and the label
      splits into two frames of the output shape. */
  lemma SliceShape(out: Frame, y: int)
    requires WellFormed(out) && "year" in Names(out.columns) && "Delayed" in Names(out.columns)
    requires forall i :: 0 <= i < |out.columns| ==> out.columns[i].name in OutputNames + {"year"}
    ensures OutputShape(YearSlice(out, y))
  {
    var r := YearSlice(out, y);
    forall i | 0 <= i < |r.columns| ensures r.columns[i].name in OutputNames {
      assert Names(r.columns)[i] == r.columns[i].name;
      var j :| 0 <= j < |out.columns| && Names(out.columns)[j] == r.columns[i].name;
    }
  }

  /** A column found in a well-formed frame has one cell per row. */
  lemma LookupLength(rows: nat, cols: seq<Column>, n: string)
    requires WellFormed(Frame(rows, cols)) && Lookup(cols, n).Some?
    ensures |Lookup(cols, n).value.cells| == rows
  {
    var j :| 0 <= j < |cols| && cols[j] == Lookup(cols, n).value;
  }

  /** The label is defined in every row. */
  lemma LabelDefined(cells: seq<Option<Cell>>, row: nat)
    requires row < |cells| && DelayedLabel(cells).Some?
    ensures DelayedLabel(cells).value[row].Some?
  {
  }

  /** Setting a column of the frame's length keeps the frame well formed. */
  lemma SetColumnWellFormed(rows: nat, cols: seq<Column>, c: Column)
    requires WellFormed(Frame(rows, cols)) && |c.cells| == rows
    ensures WellFormed(Frame(rows, SetColumn(cols, c)))
  {
    var r := SetColumn(cols, c);
    forall i | 0 <= i < |r| ensures |r[i].cells| == rows {
      if r[i] != c {
        var j :| 0 <= j < |cols| && cols[j] == r[i];
      }
    }
  }

  /** The shaped frame before the split: well formed, year and label
      unchanged, and only canonical names besides "year". */
  lemma ShapedFrame(rows: nat, cols: seq<Column>, keep: set<string>, renames: map<string, string>,
                    yearCol: Column, delayedCol: Column, row: nat)
    requires WellFormed(Frame(rows, cols))
    requires yearCol.name == "year" && Lookup(cols, "year") == Some(yearCol)
    requires delayedCol.name == "Delayed" && Lookup(cols, "Delayed") == Some(delayedCol)
    requires row < |yearCol.cells| && row < |delayedCol.cells|
    requires yearCol.cells[row].Some? && delayedCol.cells[row].Some?
    requires KeepsCanonical(keep, renames)
    ensures var shaped := Shape(cols, keep, renames);
      && WellFormed(Frame(rows, shaped))
      && Lookup(shaped, "year") == Some(yearCol)
      && Lookup(shaped, "Delayed") == Some(delayedCol)
      && forall i :: 0 <= i < |shaped| ==> shaped[i].name in OutputNames + {"year"}
  {
    ShapeKeepsCreated(cols, keep, renames, yearCol, row);
    ShapeKeepsCreated(cols, keep, renames, delayedCol, row);
    ShapeWellFormed(rows, cols, keep, renames);
    ShapeNames(cols, keep, renames);
  }

  /** "year" and "Delayed", with a value in some row, survive shaping. */
  lemma ShapeKeepsCreated(cols: seq<Column>, keep: set<string>, renames: map<string, string>, c: Column, row: nat)
    requires KeepsCanonical(keep, renames)
    requires c.name == "year" || c.name == "Delayed"
    requires Lookup(cols, c.name) == Some(c) && row < |c.cells| && c.cells[row].Some?
    ensures Lookup(Shape(cols, keep, renames), c.name) == Some(c)
  {
    ShapeKeeps(cols, keep, renames, c);
  }

  /** Some column named `n` has a value. */
  predicate HasValuedColumn(cols: seq<Column>, n: string) {
    exists i :: 0 <= i < |cols| && cols[i].name == n && !AllMissing(cols[i].cells)
  }

  /** Setting a column changes which names have a value only at its own
      name. */
  lemma SetColumnValued(cols: seq<Column>, c: Column, n: string)
    ensures HasValuedColumn(SetColumn(cols, c), n) ==>
      (c.name == n && !AllMissing(c.cells)) || HasValuedColumn(cols, n)
    ensures n != c.name ==> (HasValuedColumn(SetColumn(cols, c), n) <==> HasValuedColumn(cols, n))
  {
    SetColumnValuedFrom(cols, c, n);
    if n != c.name {
      SetColumnValuedTo(cols, c, n);
    }
  }

  /** A valued column after `df[name] = values` is the new one or an old
      one. */
  lemma SetColumnValuedFrom(cols: seq<Column>, c: Column, n: string)
    ensures HasValuedColumn(SetColumn(cols, c), n) ==>
      (c.name == n && !AllMissing(c.cells)) || HasValuedColumn(cols, n)
  {
    var r := SetColumn(cols, c);
    if HasValuedColumn(r, n) {
      var i :| 0 <= i < |r| && r[i].name == n && !AllMissing(r[i].cells);
      if r[i] != c {
        assert r[i] in cols;
        var j :| 0 <= j < |cols| && cols[j] == r[i];
        assert cols[j].name == n && !AllMissing(cols[j].cells);
      }
    }
  }

  /** A valued column of another name survives `df[name] = values`. */
  lemma SetColumnValuedTo(cols: seq<Column>, c: Column, n: string)
    requires n != c.name
    ensures HasValuedColumn(cols, n) ==> HasValuedColumn(SetColumn(cols, c), n)
  {
    var r := SetColumn(cols, c);
    if HasValuedColumn(cols, n) {
      var j :| 0 <= j < |cols| && cols[j].name == n && !AllMissing(cols[j].cells);
      assert cols[j] in r;
      var i :| 0 <= i < |r| && r[i] == cols[j];
      assert r[i].name == n && !AllMissing(r[i].cells);
    }
  }

  /** The output column `t` of the shaped columns `out`, fed by the column
      named `s` of `src`: present exactly when some column of that name has
      a value, and then the first such column under its new name. */
  predicate Carries(out: seq<Column>, t: string, src: seq<Column>, s: Option<string>) {
    && (t in Names(out) <==> s.Some? && HasValuedColumn(src, s.value))
    && (s.Some? && Lookup(src, s.value).Some? && !AllMissing(Lookup(src, s.value).value.cells) ==>
          Lookup(out, t) == Some(Column(t, Lookup(src, s.value).value.dtype, Lookup(src, s.value).value.cells)))
  }

  /** Among the kept names, exactly `s` ends up named `t`. */
  predicate RenamesFor(keep: set<string>, renames: map<string, string>, s: Option<string>, t: string) {
    && (s.Some? ==> s.value in keep)
    && forall n :: n in keep ==> (Renamed(n, renames) == t <==> s == Some(n))
  }

  /** Renaming only the columns named `s` to `t` makes `df[t]` the first
      column named `s`, renamed. */
  lemma {:induction false} LookupRenamedTo(cols: seq<Column>, renames: map<string, string>, s: string, t: string)
    requires Lookup(cols, s).Some? && Renamed(s, renames) == t
    requires forall i :: 0 <= i < |cols| && Renamed(cols[i].name, renames) == t ==> cols[i].name == s
    ensures Lookup(RenameColumns(cols, renames), t) ==
      Some(Column(t, Lookup(cols, s).value.dtype, Lookup(cols, s).value.cells))
  {
    var ren := RenameColumns(cols, renames);
    if cols[0].name != s {
      assert ren[0].name != t;
      assert ren[1..] == RenameColumns(cols[1..], renames);
      forall i | 0 <= i < |cols[1..]| && Renamed(cols[1..][i].name, renames) == t
        ensures cols[1..][i].name == s
      {
        assert cols[1..][i] == cols[i + 1];
      }
      LookupRenamedTo(cols[1..], renames, s, t);
    }
  }

  /** Keeping, renaming and dropping the all-null columns: the output
      column `t` carries the source column that alone is renamed to it. */
  lemma ShapeCarries(cols: seq<Column>, keep: set<string>, renames: map<string, string>, s: Option<string>, t: string)
    requires RenamesFor(keep, renames, s, t)
    ensures Carries(Shape(cols, keep, renames), t, cols, s)
  {
    ShapeName(cols, keep, renames, s, t);
    if s.Some? {
      if Lookup(cols, s.value).Some? && !AllMissing(Lookup(cols, s.value).value.cells) {
        var sel := SelectKept(cols, keep);
        LookupSelectKept(cols, keep, s.value);
        LookupRenamedTo(sel, renames, s.value, t);
        LookupDropAllNull(RenameColumns(sel, renames), t);
      }
    }
  }

  /** The output column `t` exists exactly when the source column that
      alone is renamed to it has a value. */
  lemma ShapeName(cols: seq<Column>, keep: set<string>, renames: map<string, string>, s: Option<string>, t: string)
    requires RenamesFor(keep, renames, s, t)
    ensures t in Names(Shape(cols, keep, renames)) <==> s.Some? && HasValuedColumn(cols, s.value)
  {
    var sel := SelectKept(cols, keep);
    DropAllNullValued(RenameColumns(sel, renames), t);
    RenamedValued(sel, keep, renames, s, t);
    if s.Some? {
      SelectKeptValued(cols, keep, s.value);
    }
  }

  /** After `dropna(how="all", axis=1)` a name is left exactly when some
      column of that name has a value. */
  lemma DropAllNullValued(cols: seq<Column>, t: string)
    ensures t in Names(DropAllNull(cols)) <==> HasValuedColumn(cols, t)
  {
    var out := DropAllNull(cols);
    if t in Names(out) {
      var m :| 0 <= m < |out| && Names(out)[m] == t;
      assert out[m] in cols;
    }
    if HasValuedColumn(cols, t) {
      var i :| 0 <= i < |cols| && cols[i].name == t && !AllMissing(cols[i].cells);
      var m :| 0 <= m < |out| && out[m] == cols[i];
      assert Names(out)[m] == t;
    }
  }

  /** Among kept columns, the one renamed to `t` has a value exactly when
      the column named `s` does. */
  lemma RenamedValued(sel: seq<Column>, keep: set<string>, renames: map<string, string>, s: Option<string>, t: string)
    requires RenamesFor(keep, renames, s, t)
    requires forall i :: 0 <= i < |sel| ==> sel[i].name in keep
    ensures HasValuedColumn(RenameColumns(sel, renames), t) <==> s.Some? && HasValuedColumn(sel, s.value)
  {
    var ren := RenameColumns(sel, renames);
    if HasValuedColumn(ren, t) {
      var j :| 0 <= j < |ren| && ren[j].name == t && !AllMissing(ren[j].cells);
      assert Renamed(sel[j].name, renames) == t;
    }
    if s.Some? && HasValuedColumn(sel, s.value) {
      var j :| 0 <= j < |sel| && sel[j].name == s.value && !AllMissing(sel[j].cells);
      assert ren[j].name == t;
    }
  }

  /** Selecting the kept names leaves which kept names have a value. */
  lemma SelectKeptValued(cols: seq<Column>, keep: set<string>, n: string)
    requires n in keep
    ensures HasValuedColumn(SelectKept(cols, keep), n) <==> HasValuedColumn(cols, n)
  {
    var sel := SelectKept(cols, keep);
    if HasValuedColumn(sel, n) {
      var j :| 0 <= j < |sel| && sel[j].name == n && !AllMissing(sel[j].cells);
      assert sel[j] in cols;
    }
    if HasValuedColumn(cols, n) {
      var i :| 0 <= i < |cols| && cols[i].name == n && !AllMissing(cols[i].cells);
      assert cols[i] in sel;
    }
  }

  /** No two roles pick the same column. */
  predicate RolesDistinct(p: Picked) {
    && (p.airline.Some? ==> p.airline != p.origin && p.airline != p.dest && p.airline != p.distance
                            && p.airline != p.depTime)
    && (p.origin.Some? ==> p.origin != p.dest && p.origin != p.distance && p.origin != p.depTime)
    && (p.dest.Some? ==> p.dest != p.distance && p.dest != p.depTime)
    && (p.distance.Some? ==> p.distance != p.depTime)
  }

  /** A pick that is not a column `main` creates. */
  predicate NotCreated(s: Option<string>) {
    s.Some? ==> s.value != "year" && s.value != "Delayed" && s.value != "dep_hour"
  }

  /** No kept or departure-time pick is a column `main` creates. */
  predicate PicksNotCreated(p: Picked) {
    NotCreated(p.airline) && NotCreated(p.origin) && NotCreated(p.dest) && NotCreated(p.distance)
    && NotCreated(p.depTime)
  }

  /** For distinct picks that are not created columns, each canonical name
      comes from its own role, "Delayed" and "dep_hour" from themselves. */
  lemma KeepRoles(p: Picked, keep: set<string>, renames: map<string, string>)
    requires RolesDistinct(p) && PicksNotCreated(p) && BuiltKeep(p, keep, renames)
    ensures RenamesFor(keep, renames, p.airline, "airline")
    ensures RenamesFor(keep, renames, p.origin, "origin")
    ensures RenamesFor(keep, renames, p.dest, "destination")
    ensures RenamesFor(keep, renames, p.distance, "distance")
    ensures RenamesFor(keep, renames, Some("Delayed"), "Delayed")
    ensures RenamesFor(keep, renames, if p.depTime.Some? then Some("dep_hour") else None, "dep_hour")
  {
    KeepRole(p, keep, renames, p.airline, "airline");
    KeepRole(p, keep, renames, p.origin, "origin");
    KeepRole(p, keep, renames, p.dest, "destination");
    KeepRole(p, keep, renames, p.distance, "distance");
    KeepCreated(p, keep, renames);
  }

  /** One renamed role: the kept names renamed to `t` are exactly its
      pick. */
  lemma KeepRole(p: Picked, keep: set<string>, renames: map<string, string>, s: Option<string>, t: string)
    requires RolesDistinct(p) && PicksNotCreated(p) && BuiltKeep(p, keep, renames)
    requires (s, t) in {(p.airline, "airline"), (p.origin, "origin"), (p.dest, "destination"), (p.distance, "distance")}
    ensures RenamesFor(keep, renames, s, t)
  {
    forall n | n in keep
      ensures Renamed(n, renames) == t <==> s == Some(n)
    {
      if n in renames {
        assert RenamedRole(p, n);
      }
    }
  }

  /** "Delayed" is kept under its own name only. */
  lemma KeepCreated(p: Picked, keep: set<string>, renames: map<string, string>)
    requires PicksNotCreated(p) && BuiltKeep(p, keep, renames)
    ensures RenamesFor(keep, renames, Some("Delayed"), "Delayed")
    ensures RenamesFor(keep, renames, if p.depTime.Some? then Some("dep_hour") else None, "dep_hour")
  {
    KeepUnrenamed(p, keep, renames, "Delayed");
    KeepUnrenamed(p, keep, renames, "dep_hour");
    if p.depTime.Some? {
      assert "dep_hour" in keep;
    } else {
      assert "dep_hour" !in keep;
    }
  }

  /** A created name is neither renamed nor the new name of a kept one. */
  lemma KeepUnrenamed(p: Picked, keep: set<string>, renames: map<string, string>, t: string)
    requires PicksNotCreated(p) && BuiltKeep(p, keep, renames)
    requires t == "Delayed" || t == "dep_hour"
    ensures forall n :: n in keep ==> (Renamed(n, renames) == t <==> n == t)
  {
    forall n | n in keep
      ensures Renamed(n, renames) == t <==> n == t
    {
      if n in renames {
        assert renames[n] in {"airline", "origin", "destination", "distance"};
        assert RenamedRole(p, n);
      }
    }
  }

  /** The column `df["dep_hour"]` receives. */
  function DepHourColumn(cells: seq<Option<Cell>>): Column {
    Column("dep_hour", Int64, IntCells(DepHours(cells)))
  }

  /** The columns of `df` once lines 89-114 of `main` have set "year",
      "Delayed" and, with a departure time, "dep_hour". */
  function Labelled(src: seq<Column>, p: Picked, years: seq<Option<int>>, labels: seq<Option<Cell>>): seq<Column> {
    var cols := SetColumn(SetColumn(src, YearColumn(years)), Column("Delayed", Int64, labels));
    if p.depTime.Some? && Lookup(src, p.depTime.value).Some? then
      SetColumn(cols, DepHourColumn(Lookup(src, p.depTime.value).value.cells))
    else cols
  }

  /** A source name other than the created ones is found, and has a value,
      as in the loaded frame. */
  lemma LabelledAgrees(src: seq<Column>, p: Picked, years: seq<Option<int>>, labels: seq<Option<Cell>>, n: string)
    requires n != "year" && n != "Delayed" && n != "dep_hour"
    ensures Lookup(Labelled(src, p, years, labels), n) == Lookup(src, n)
    ensures HasValuedColumn(Labelled(src, p, years, labels), n) <==> HasValuedColumn(src, n)
  {
    var c1 := SetColumn(src, YearColumn(years));
    var c2 := SetColumn(c1, Column("Delayed", Int64, labels));
    SetColumnValued(src, YearColumn(years), n);
    SetColumnValued(c1, Column("Delayed", Int64, labels), n);
    if p.depTime.Some? && Lookup(src, p.depTime.value).Some? {
      SetColumnValued(c2, DepHourColumn(Lookup(src, p.depTime.value).value.cells), n);
    }
  }

  /** After `df[name] = values`, a column of that name has a value exactly
      when the new values have one. */
  lemma SetColumnReplaced(cols: seq<Column>, c: Column)
    ensures HasValuedColumn(SetColumn(cols, c), c.name) <==> !AllMissing(c.cells)
  {
    var r := SetColumn(cols, c);
    if HasValuedColumn(r, c.name) {
      var i :| 0 <= i < |r| && r[i].name == c.name && !AllMissing(r[i].cells);
      assert r[i] == c;
    }
    if !AllMissing(c.cells) {
      assert Lookup(r, c.name).value in r;
      var i :| 0 <= i < |r| && r[i] == c;
      assert r[i].name == c.name && !AllMissing(r[i].cells);
    }
  }

  /** "dep_hour" in the labelled columns: the derived hours, which have a
      value exactly when some "dep_hour" column does. */
  lemma LabelledHour(src: seq<Column>, p: Picked, years: seq<Option<int>>, labels: seq<Option<Cell>>)
    requires p.depTime.Some? && Lookup(src, p.depTime.value).Some?
    ensures var hour := DepHourColumn(Lookup(src, p.depTime.value).value.cells);
      && Lookup(Labelled(src, p, years, labels), "dep_hour") == Some(hour)
      && (HasValuedColumn(Labelled(src, p, years, labels), "dep_hour") <==> !AllMissing(hour.cells))
  {
    var c1 := SetColumn(src, YearColumn(years));
    var c2 := SetColumn(c1, Column("Delayed", Int64, labels));
    SetColumnReplaced(c2, DepHourColumn(Lookup(src, p.depTime.value).value.cells));
  }

  /** What "dep_hour" holds in columns shaped from `src`: absent without a
      departure time; otherwise present exactly when the derived hours have
      a value, and then those hours. */
  predicate HourCarried(out: seq<Column>, src: seq<Column>, p: Picked) {
    && (p.depTime.None? ==> "dep_hour" !in Names(out))
    && (p.depTime.Some? && Lookup(src, p.depTime.value).Some? ==>
          var hour := DepHourColumn(Lookup(src, p.depTime.value).value.cells);
          && ("dep_hour" in Names(out) <==> !AllMissing(hour.cells))
          && (!AllMissing(hour.cells) ==> Lookup(out, "dep_hour") == Some(hour)))
  }

  /** The frame of lines 116-120 of `main`, before the split, in terms of
      the loaded columns `src`. */
  predicate ShapedOutputOf(out: Frame, src: seq<Column>, p: Picked, labels: seq<Option<Cell>>) {
    && WellFormed(out)
    && "year" in Names(out.columns)
    && (forall i :: 0 <= i < |out.columns| ==> out.columns[i].name in OutputNames + {"year"})
    && Lookup(out.columns, "Delayed") == Some(Column("Delayed", Int64, labels))
    && Carries(out.columns, "airline", src, p.airline)
    && Carries(out.columns, "origin", src, p.origin)
    && Carries(out.columns, "destination", src, p.dest)
    && Carries(out.columns, "distance", src, p.distance)
    && HourCarried(out.columns, src, p)
  }

  /** A role's output column, moved from the labelled columns to the loaded
      ones. */
  lemma CarriesFromSource(out: seq<Column>, t: string, src: seq<Column>, p: Picked,
                          years: seq<Option<int>>, labels: seq<Option<Cell>>, s: Option<string>)
    requires NotCreated(s)
    requires Carries(out, t, Labelled(src, p, years, labels), s)
    ensures Carries(out, t, src, s)
  {
    if s.Some? {
      LabelledAgrees(src, p, years, labels, s.value);
    }
  }

  /** The labelled columns stay one cell per row and hold the year and the
      label as set. */
  lemma LabelledBase(df: Frame, p: Picked, years: seq<Option<int>>, labels: seq<Option<Cell>>)
    requires WellFormed(df) && |years| == df.rows && |labels| == df.rows
    requires PicksNotCreated(p)
    ensures var cols := Labelled(df.columns, p, years, labels);
      && WellFormed(Frame(df.rows, cols))
      && Lookup(cols, "year") == Some(YearColumn(years))
      && Lookup(cols, "Delayed") == Some(Column("Delayed", Int64, labels))
  {
    var c1 := SetColumn(df.columns, YearColumn(years));
    var c2 := SetColumn(c1, Column("Delayed", Int64, labels));
    SetColumnWellFormed(df.rows, df.columns, YearColumn(years));
    SetColumnWellFormed(df.rows, c1, Column("Delayed", Int64, labels));
    if p.depTime.Some? && Lookup(df.columns, p.depTime.value).Some? {
      LookupLength(df.rows, df.columns, p.depTime.value);
      SetColumnWellFormed(df.rows, c2, DepHourColumn(Lookup(df.columns, p.depTime.value).value.cells));
    }
  }

  /** A renamed role's output column carries its loaded column. */
  lemma RoleShaped(src: seq<Column>, p: Picked, years: seq<Option<int>>, labels: seq<Option<Cell>>,
                   keep: set<string>, renames: map<string, string>, s: Option<string>, t: string)
    requires NotCreated(s) && RenamesFor(keep, renames, s, t)
    ensures Carries(Shape(Labelled(src, p, years, labels), keep, renames), t, src, s)
  {
    var cols := Labelled(src, p, years, labels);
    ShapeCarries(cols, keep, renames, s, t);
    CarriesFromSource(Shape(cols, keep, renames), t, src, p, years, labels, s);
  }

  /** "dep_hour" after shaping, in terms of the loaded columns. */
  lemma HourShaped(src: seq<Column>, p: Picked, years: seq<Option<int>>, labels: seq<Option<Cell>>,
                   keep: set<string>, renames: map<string, string>)
    requires RenamesFor(keep, renames, if p.depTime.Some? then Some("dep_hour") else None, "dep_hour")
    ensures HourCarried(Shape(Labelled(src, p, years, labels), keep, renames), src, p)
  {
    var cols := Labelled(src, p, years, labels);
    ShapeCarries(cols, keep, renames, if p.depTime.Some? then Some("dep_hour") else None, "dep_hour");
    if p.depTime.Some? && Lookup(src, p.depTime.value).Some? {
      LabelledHour(src, p, years, labels);
    }
  }

  /** The shaped frame `main` builds from the labelled columns. */
  lemma LabelledShape(df: Frame, p: Picked, years: seq<Option<int>>, labels: seq<Option<Cell>>, row: nat,
                      keep: set<string>, renames: map<string, string>)
    requires WellFormed(df) && |years| == df.rows && |labels| == df.rows
    requires row < df.rows && years[row].Some? && labels[row].Some?
    requires PicksNotCreated(p) && KeepsCanonical(keep, renames)
    requires RenamesFor(keep, renames, p.airline, "airline") && RenamesFor(keep, renames, p.origin, "origin")
    requires RenamesFor(keep, renames, p.dest, "destination") && RenamesFor(keep, renames, p.distance, "distance")
    requires RenamesFor(keep, renames, if p.depTime.Some? then Some("dep_hour") else None, "dep_hour")
    ensures var out := Frame(df.rows, Shape(Labelled(df.columns, p, years, labels), keep, renames));
      && ShapedOutputOf(out, df.columns, p, labels)
      && Lookup(out.columns, "year") == Some(YearColumn(years))
  {
    var cols := Labelled(df.columns, p, years, labels);
    LabelledBase(df, p, years, labels);
    ShapedFrame(df.rows, cols, keep, renames, YearColumn(years), Column("Delayed", Int64, labels), row);
    RoleShaped(df.columns, p, years, labels, keep, renames, p.airline, "airline");
    RoleShaped(df.columns, p, years, labels, keep, renames, p.origin, "origin");
    RoleShaped(df.columns, p, years, labels, keep, renames, p.dest, "destination");
    RoleShaped(df.columns, p, years, labels, keep, renames, p.distance, "distance");
    HourShaped(df.columns, p, years, labels, keep, renames);
  }

  /** The output column `t` of a year slice: present exactly when some
      source column named `s` has a value, and then holding the first such
      column's cells at the year's rows `ys`. */
  predicate CarriesSlice(out: seq<Column>, t: string, src: seq<Column>, s: Option<string>, ys: seq<nat>) {
    && (t in Names(out) <==> s.Some? && HasValuedColumn(src, s.value))
    && (s.Some? && Lookup(src, s.value).Some? && !AllMissing(Lookup(src, s.value).value.cells) ==>
          Lookup(out, t).Some? && SlicedFrom(Lookup(src, s.value).value, ys, Lookup(out, t).value))
  }

  /** "dep_hour" in a year slice, as `HourCarried` says for the whole
      frame, restricted to the rows `ys`. */
  predicate HourSliced(out: seq<Column>, src: seq<Column>, p: Picked, ys: seq<nat>) {
    && (p.depTime.None? ==> "dep_hour" !in Names(out))
    && (p.depTime.Some? && Lookup(src, p.depTime.value).Some? ==>
          var hour := DepHourColumn(Lookup(src, p.depTime.value).value.cells);
          && ("dep_hour" in Names(out) <==> !AllMissing(hour.cells))
          && (!AllMissing(hour.cells) ==> Lookup(out, "dep_hour").Some? && SlicedFrom(hour, ys, Lookup(out, "dep_hour").value)))
  }

  /** What `main` writes for the year whose rows of the loaded frame `src`
      are `ys`: one row per such row, the output shape, the label of each
      such row, and every renamed and derived column holding its source's
      cells at those rows. */
  predicate YearOutput(f: Frame, src: seq<Column>, p: Picked, labels: seq<Option<Cell>>, ys: seq<nat>) {
    && f.rows == |ys|
    && OutputShape(f)
    && Lookup(f.columns, "Delayed").Some?
    && SlicedFrom(Column("Delayed", Int64, labels), ys, Lookup(f.columns, "Delayed").value)
    && CarriesSlice(f.columns, "airline", src, p.airline, ys)
    && CarriesSlice(f.columns, "origin", src, p.origin, ys)
    && CarriesSlice(f.columns, "destination", src, p.dest, ys)
    && CarriesSlice(f.columns, "distance", src, p.distance, ys)
    && HourSliced(f.columns, src, p, ys)
  }

  /** Slicing keeps what each output column carries, at the year's rows. */
  lemma SliceCarries(out: Frame, y: int, t: string, src: seq<Column>, s: Option<string>)
    requires WellFormed(out) && "year" in Names(out.columns) && t != "year"
    requires Carries(out.columns, t, src, s)
    ensures CarriesSlice(YearSlice(out, y).columns, t, src, s, RowsOfYear(Lookup(out.columns, "year").value.cells, y))
  {
  }

  /** Each year slice of the shaped frame is what `main` writes. */
  lemma SliceOutput(out: Frame, src: seq<Column>, p: Picked, labels: seq<Option<Cell>>, y: int)
    requires ShapedOutputOf(out, src, p, labels)
    ensures YearOutput(YearSlice(out, y), src, p, labels, RowsOfYear(Lookup(out.columns, "year").value.cells, y))
  {
    SliceShape(out, y);
    SliceCarries(out, y, "airline", src, p.airline);
    SliceCarries(out, y, "origin", src, p.origin);
    SliceCarries(out, y, "destination", src, p.dest);
    SliceCarries(out, y, "distance", src, p.distance);
  }

  /** `main` from the loaded frame to the reference and current frames it
      writes. `dateYear` stands for the date parsing of `_extract_year`. */
  method Preprocess(df: Frame, referenceYear: int, currentYear: int, dateYear: Cell -> Option<int>)
    returns (r: Result<(Frame, Frame), PreprocessError>)
    requires WellFormed(df)
    ensures var p := PickAll(Names(df.columns));
      var years := ExtractYear(df, p, dateYear);
      && (years.Failure? ==> r == Failure(years.error))
      && (years.Success? && !SomeYearDefined(years.value) ==> r == Failure(NoYearDefined))
      && (years.Success? && SomeYearDefined(years.value) && p.arrDelay.None? ==> r == Failure(NoArrivalDelay))
      && (years.Success? && SomeYearDefined(years.value) && p.arrDelay.Some? ==>
            p.arrDelay.value in Names(df.columns)
            && (r.Failure? <==> DelayedLabel(Lookup(df.columns, p.arrDelay.value).value.cells).None?)
            && (r.Failure? ==> r.error == ArrivalDelayNotNumeric))
    ensures r.Success? ==>
      var p := PickAll(Names(df.columns));
      var years := ExtractYear(df, p, dateYear);
      && years.Success? && p.arrDelay.Some? && p.arrDelay.value in Names(df.columns)
      && DelayedLabel(Lookup(df.columns, p.arrDelay.value).value.cells).Some?
      && var labels := DelayedLabel(Lookup(df.columns, p.arrDelay.value).value.cells).value;
         && YearOutput(r.value.0, df.columns, p, labels, RowsOfYear(IntCells(years.value), referenceYear))
         && YearOutput(r.value.1, df.columns, p, labels, RowsOfYear(IntCells(years.value), currentYear))
  {
    var names := Names(df.columns);
    var p := PickAll(names);
    PickedNamesAreSourceNames(names);
    PickedRolesDistinct(names);
    var years := ExtractYear(df, p, dateYear);
    if years.Failure? {
      return Failure(years.error);
    }
    if !SomeYearDefined(years.value) {
      return Failure(NoYearDefined);
    }
    var row :| 0 <= row < |years.value| && years.value[row].Some?;
    if p.arrDelay.None? {
      return Failure(NoArrivalDelay);
    }
    LookupLength(df.rows, df.columns, p.arrDelay.value);
    var labels := DelayedLabel(Lookup(df.columns, p.arrDelay.value).value.cells);
    if labels.None? {
      return Failure(ArrivalDelayNotNumeric);
    }
    LabelDefined(Lookup(df.columns, p.arrDelay.value).value.cells, row);
    var reference, current := ShapeAndSplit(df, p, years.value, labels.value, row, referenceYear, currentYear);
    return Success((reference, current));
  }

  /** Lines 89-123 of `main` once the years and labels exist: set "year",
      "Delayed" and "dep_hour", keep, rename and drop the all-null columns,
      then split the rows by year. */
  method ShapeAndSplit(df: Frame, p: Picked, years: seq<Option<int>>, labels: seq<Option<Cell>>, row: nat,
                       referenceYear: int, currentYear: int)
    returns (reference: Frame, current: Frame)
    requires WellFormed(df) && |years| == df.rows && |labels| == df.rows
    requires row < df.rows && years[row].Some? && labels[row].Some?
    requires p.depTime.Some? ==> p.depTime.value in Names(df.columns)
    requires RolesDistinct(p) && PicksNotCreated(p)
    ensures YearOutput(reference, df.columns, p, labels, RowsOfYear(IntCells(years), referenceYear))
    ensures YearOutput(current, df.columns, p, labels, RowsOfYear(IntCells(years), currentYear))
  {
    var cols := SetColumn(df.columns, YearColumn(years));
    cols := SetColumn(cols, Column("Delayed", Int64, labels));
    var keep, renames := BuildKeep(p);
    if p.depTime.Some? {
      var hours := DepHours(Lookup(cols, p.depTime.value).value.cells);
      cols := SetColumn(cols, Column("dep_hour", Int64, IntCells(hours)));
    }
    assert cols == Labelled(df.columns, p, years, labels);
    KeepCanonical(p, keep, renames);
    KeepRoles(p, keep, renames);
    LabelledShape(df, p, years, labels, row, keep, renames);
    var out := Frame(df.rows, Shape(cols, keep, renames));
    reference := YearSlice(out, referenceYear);
    current := YearSlice(out, currentYear);
    SliceOutput(out, df.columns, p, labels, referenceYear);
    SliceOutput(out, df.columns, p, labels, currentYear);
  }
}
