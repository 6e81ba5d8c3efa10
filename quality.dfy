/** The batch validator run on a processed dataset before it is stored.

    The validator checks, in a fixed order: that the batch is not empty; that
    every required column is present (returning at once when one is not); the
    null count of seven critical columns; closed ranges on temperature and
    humidity; lower bounds on precipitation and wind speed; and repeated
    identities. Each failed check adds one message, and the batch is valid
    exactly when no message was added.

    The messages are modelled as an `Issue` per failed check, rendered by
    `Message` to the text the validator reports. The validator object only
    holds its thresholds, so they are a parameter here. */
module Quality {
  import opened Frames
  import opened Strings

  /** The columns a processed batch must have, in the order they are reported. */
  const RequiredColumns: seq<Column> := [
    "extraction_id", "recorded_at_utc", "event_time_utc", "event_date",
    "location_city", "location_state", "latitude", "longitude",
    "temperature_celsius", "precipitation_mm", "weather_code",
    "wind_speed_kmh", "relative_humidity"
  ]

  /** The columns whose nulls are reported, in the order they are reported. */
  const CriticalColumns: seq<Column> := [
    "extraction_id", "event_time_utc", "location_city", "location_state",
    "latitude", "longitude", "weather_code"
  ]

  const TemperatureColumn: Column := "temperature_celsius"
  const HumidityColumn: Column := "relative_humidity"
  const PrecipitationColumn: Column := "precipitation_mm"
  const WindSpeedColumn: Column := "wind_speed_kmh"

  /** The six thresholds of the quality configuration. */
  datatype Thresholds = Thresholds(
    temperatureMin: real, temperatureMax: real,
    humidityMin: real, humidityMax: real,
    precipitationMin: real, windSpeedMin: real)

  /** One failed check. */
  datatype Issue =
    | EmptyDataset
    | MissingColumns(names: seq<Column>)
    | NullValues(column: Column, count: nat)
    | TemperatureOutOfRange(count: nat)
    | HumidityOutOfRange(count: nat)
    | PrecipitationBelowMinimum(count: nat)
    | WindSpeedBelowMinimum(count: nat)
    | DuplicatedIds(count: nat)

  /** The text the validator reports for an issue. */
  function Message(i: Issue): string
  {
    match i
    case EmptyDataset => "Processed dataset is empty"
    case MissingColumns(names) => "Missing required columns: " + Join(", ", names)
    case NullValues(c, n) => "Column " + c + " has " + NatToString(n) + " null values"
    case TemperatureOutOfRange(n) => "Temperature out of range in " + NatToString(n) + " rows"
    case HumidityOutOfRange(n) => "Humidity out of range in " + NatToString(n) + " rows"
    case PrecipitationBelowMinimum(n) => "Precipitation below minimum in " + NatToString(n) + " rows"
    case WindSpeedBelowMinimum(n) => "Wind speed below minimum in " + NatToString(n) + " rows"
    case DuplicatedIds(n) => "Found " + NatToString(n) + " duplicated extraction_id values"
  }

  function Messages(issues: seq<Issue>): (r: seq<string>)
    ensures |r| == |issues|
    ensures forall k :: 0 <= k < |issues| ==> r[k] == Message(issues[k])
  {
    seq(|issues|, k requires 0 <= k < |issues| => Message(issues[k]))
  }

  lemma MessagesConcat(a: seq<Issue>, b: seq<Issue>)
    ensures Messages(a + b) == Messages(a) + Messages(b)
  {
    var joined, parts := Messages(a + b), Messages(a) + Messages(b);
    forall k | 0 <= k < |a + b| ensures joined[k] == parts[k] {
      if k < |a| {
        assert (a + b)[k] == a[k];
      } else {
        assert (a + b)[k] == b[k - |a|];
      }
    }
  }

  /** Adding the message of a check that fires keeps the errors in step with the issues. */
  lemma AddCheck(errors: seq<string>, found: seq<Issue>, n: nat, i: Issue)
    requires errors == Messages(found)
    ensures (if n > 0 then errors + [Message(i)] else errors) == Messages(found + IfAny(n, i))
  {
    MessagesConcat(found, IfAny(n, i));
    if n == 0 {
      assert found + [] == found;
    }
  }

  /** The number of rows that satisfy p: the height of a filtered frame, or the
      sum of a boolean mask. */
  function Count(rows: seq<Row>, p: Row -> bool): (n: nat)
    ensures n <= |rows|
  {
    if rows == [] then 0
    else Count(rows[..|rows| - 1], p) + (if p(rows[|rows| - 1]) then 1 else 0)
  }

  /** No row is counted exactly when no row satisfies p. */
  lemma {:induction false} CountZero(rows: seq<Row>, p: Row -> bool)
    ensures Count(rows, p) == 0 <==> forall i :: 0 <= i < |rows| ==> !p(rows[i])
  {
    if rows != [] {
      var init := rows[..|rows| - 1];
      CountZero(init, p);
      assert forall i :: 0 <= i < |init| ==> init[i] == rows[i];
    }
  }

  /** Two distinct rows that satisfy p are both counted. */
  lemma {:induction false} CountTwo(rows: seq<Row>, p: Row -> bool, i: nat, j: nat)
    requires i < j < |rows| && p(rows[i]) && p(rows[j])
    ensures Count(rows, p) >= 2
  {
    var init := rows[..|rows| - 1];
    if j < |rows| - 1 {
      CountTwo(init, p, i, j);
    } else {
      assert init[i] == rows[i];
      CountZero(init, p);
    }
  }

  /** When no two rows satisfy p, at most one row is counted. */
  lemma {:induction false} CountAtMostOne(rows: seq<Row>, p: Row -> bool)
    requires forall i, j :: 0 <= i < j < |rows| && p(rows[i]) ==> !p(rows[j])
    ensures Count(rows, p) <= 1
  {
    if rows != [] {
      var init := rows[..|rows| - 1];
      assert forall i :: 0 <= i < |init| ==> init[i] == rows[i];
      CountAtMostOne(init, p);
      if p(rows[|rows| - 1]) {
        CountZero(init, p);
      }
    }
  }

  /** A row whose cell in c is null. */
  function NullIn(c: Column): Row -> bool
  {
    r => Get(r, c).None?
  }

  /** `df[c].null_count()`. */
  function NullCount(rows: seq<Row>, c: Column): nat
  {
    Count(rows, NullIn(c))
  }

  /** A cell a numeric column can hold. */
  predicate Numeric(c: Cell)
  {
    c.None? || c.value.Number?
  }

  /** A non-null number outside the closed interval [lo, hi]. */
  predicate OutOfRange(c: Cell, lo: real, hi: real)
  {
    c.Some? && c.value.Number? && (c.value.x < lo || c.value.x > hi)
  }

  /** A non-null number below lo. */
  predicate BelowMinimum(c: Cell, lo: real)
  {
    c.Some? && c.value.Number? && c.value.x < lo
  }

  /** A cell that passes a closed-range check. */
  predicate Within(c: Cell, lo: real, hi: real)
  {
    c.None? || (c.value.Number? && lo <= c.value.x <= hi)
  }

  /** A cell that passes a lower-bound check. */
  predicate AtLeast(c: Cell, lo: real)
  {
    c.None? || (c.value.Number? && lo <= c.value.x)
  }

  function OutOfRangeIn(c: Column, lo: real, hi: real): Row -> bool
  {
    r => OutOfRange(Get(r, c), lo, hi)
  }

  function BelowMinimumIn(c: Column, lo: real): Row -> bool
  {
    r => BelowMinimum(Get(r, c), lo)
  }

  /** The range-checked columns hold numbers or nulls in every row: comparing
      anything else with a threshold is an error, not a failed check. */
  predicate RangeColumnsNumeric(rows: seq<Row>)
  {
    forall r :: r in rows ==>
      && Numeric(Get(r, TemperatureColumn)) && Numeric(Get(r, HumidityColumn))
      && Numeric(Get(r, PrecipitationColumn)) && Numeric(Get(r, WindSpeedColumn))
  }

  function TemperatureViolations(rows: seq<Row>, t: Thresholds): nat
  {
    Count(rows, OutOfRangeIn(TemperatureColumn, t.temperatureMin, t.temperatureMax))
  }

  function HumidityViolations(rows: seq<Row>, t: Thresholds): nat
  {
    Count(rows, OutOfRangeIn(HumidityColumn, t.humidityMin, t.humidityMax))
  }

  function PrecipitationViolations(rows: seq<Row>, t: Thresholds): nat
  {
    Count(rows, BelowMinimumIn(PrecipitationColumn, t.precipitationMin))
  }

  function WindSpeedViolations(rows: seq<Row>, t: Thresholds): nat
  {
    Count(rows, BelowMinimumIn(WindSpeedColumn, t.windSpeedMin))
  }

  function HasId(id: Cell): Row -> bool
  {
    r => IdOf(r) == id
  }

  /** How many rows have identity id (a null identity matches null ones). */
  function Occurrences(rows: seq<Row>, id: Cell): nat
  {
    Count(rows, HasId(id))
  }

  /** A row whose identity occurs more than once in rows. */
  function Repeated(rows: seq<Row>): Row -> bool
  {
    r => Occurrences(rows, IdOf(r)) > 1
  }

  /** `df["extraction_id"].is_duplicated().sum()`: every row whose identity
      occurs more than once is counted, not only the repeats. */
  function DuplicatedCount(rows: seq<Row>): nat
  {
    Count(rows, Repeated(rows))
  }

  /** The required columns absent from cols, in the order of `RequiredColumns`. */
  function Missing(cols: seq<Column>): (r: seq<Column>)
    ensures forall c :: c in r <==> c in RequiredColumns && c !in cols
  {
    var r := Without(RequiredColumns, Elems(cols));
    assert forall c :: c in r <==> c in Elems(r);
    r
  }

  /** One issue per column of cs with a null, in the order of cs. */
  function NullIssues(rows: seq<Row>, cs: seq<Column>): seq<Issue>
  {
    if cs == [] then []
    else
      var c := cs[|cs| - 1];
      var n := NullCount(rows, c);
      NullIssues(rows, cs[..|cs| - 1]) + (if n > 0 then [NullValues(c, n)] else [])
  }

  /** A check that adds issue i when its count n is positive. */
  function IfAny(n: nat, i: Issue): seq<Issue>
  {
    if n > 0 then [i] else []
  }

  /** The issues of a non-empty batch that has every required column. */
  function Findings(rows: seq<Row>, t: Thresholds): seq<Issue>
  {
    var temperature := TemperatureViolations(rows, t);
    var humidity := HumidityViolations(rows, t);
    var precipitation := PrecipitationViolations(rows, t);
    var wind := WindSpeedViolations(rows, t);
    var duplicated := DuplicatedCount(rows);
    NullIssues(rows, CriticalColumns)
    + IfAny(temperature, TemperatureOutOfRange(temperature))
    + IfAny(humidity, HumidityOutOfRange(humidity))
    + IfAny(precipitation, PrecipitationBelowMinimum(precipitation))
    + IfAny(wind, WindSpeedBelowMinimum(wind))
    + IfAny(duplicated, DuplicatedIds(duplicated))
  }

  /** Every issue the validator finds in a dataset (None is no dataset). */
  function Issues(df: Option<Frame>, t: Thresholds): seq<Issue>
  {
    if df.None? || |df.value.rows| == 0 then [EmptyDataset]
    else if Missing(df.value.columns) != [] then [MissingColumns(Missing(df.value.columns))]
    else Findings(df.value.rows, t)
  }

  /** Every issue of the null check is about nulls. */
  lemma {:induction false} NullIssuesKind(rows: seq<Row>, cs: seq<Column>)
    ensures forall i :: i in NullIssues(rows, cs) ==> i.NullValues?
  {
    if cs != [] {
      NullIssuesKind(rows, cs[..|cs| - 1]);
    }
  }

  /** The null check reports column c with count n exactly when c is checked
      and has n > 0 nulls. */
  lemma {:induction false} NullIssuesExact(rows: seq<Row>, cs: seq<Column>, c: Column, n: nat)
    ensures NullValues(c, n) in NullIssues(rows, cs) <==> c in cs && n > 0 && n == NullCount(rows, c)
  {
    if cs != [] {
      var init := cs[..|cs| - 1];
      NullIssuesExact(rows, init, c, n);
      assert cs == init + [cs[|cs| - 1]];
    }
  }

  /** Columns without nulls raise no null issue. */
  lemma {:induction false} NoNullIssues(rows: seq<Row>, cs: seq<Column>)
    requires forall c :: c in cs ==> NullCount(rows, c) == 0
    ensures NullIssues(rows, cs) == []
  {
    if cs != [] {
      NoNullIssues(rows, cs[..|cs| - 1]);
    }
  }

  /** The null issues follow the order of the checked columns: issue k is about
      column cs[pos[k]], and pos increases. */
  lemma {:induction false} NullIssuesInOrder(rows: seq<Row>, cs: seq<Column>) returns (pos: seq<nat>)
    ensures |pos| == |NullIssues(rows, cs)|
    ensures forall k :: 0 <= k < |pos| ==>
      pos[k] < |cs| && NullIssues(rows, cs)[k] == NullValues(cs[pos[k]], NullCount(rows, cs[pos[k]]))
    ensures forall k, l :: 0 <= k < l < |pos| ==> pos[k] < pos[l]
  {
    if cs == [] {
      pos := [];
    } else {
      var init := cs[..|cs| - 1];
      var c := cs[|cs| - 1];
      var before := NullIssuesInOrder(rows, init);
      var issues, prior := NullIssues(rows, cs), NullIssues(rows, init);
      assert forall k :: 0 <= k < |before| ==> init[before[k]] == cs[before[k]];
      if NullCount(rows, c) > 0 {
        pos := before + [|cs| - 1];
        assert issues == prior + [NullValues(c, NullCount(rows, c))];
        forall k | 0 <= k < |pos|
          ensures pos[k] < |cs| && issues[k] == NullValues(cs[pos[k]], NullCount(rows, cs[pos[k]]))
        {
          if k < |before| {
            assert pos[k] == before[k] && issues[k] == prior[k];
          }
        }
      } else {
        pos := before;
        assert issues == prior;
      }
    }
  }

  /** The required columns a batch lacks are named in the order of
      `RequiredColumns`: name k is RequiredColumns[pos[k]], and pos increases. */
  lemma MissingInOrder(cols: seq<Column>) returns (pos: seq<nat>)
    ensures |pos| == |Missing(cols)|
    ensures forall k :: 0 <= k < |pos| ==> pos[k] < |RequiredColumns| && Missing(cols)[k] == RequiredColumns[pos[k]]
    ensures forall k, l :: 0 <= k < l < |pos| ==> pos[k] < pos[l]
  {
    pos := WithoutInOrder(RequiredColumns, Elems(cols));
  }

  lemma {:induction false} WithoutInOrder(xs: seq<Column>, s: set<Column>) returns (pos: seq<nat>)
    ensures |pos| == |Without(xs, s)|
    ensures forall k :: 0 <= k < |pos| ==> pos[k] < |xs| && Without(xs, s)[k] == xs[pos[k]]
    ensures forall k, l :: 0 <= k < l < |pos| ==> pos[k] < pos[l]
  {
    if xs == [] {
      pos := [];
    } else {
      var init := xs[..|xs| - 1];
      var before := WithoutInOrder(init, s);
      assert forall k :: 0 <= k < |init| ==> init[k] == xs[k];
      if xs[|xs| - 1] in s {
        pos := before;
      } else {
        pos := before + [|xs| - 1];
      }
    }
  }

  /** A closed-range check on column c passes exactly when every value is null
      or inside [lo, hi]. */
  lemma RangePasses(rows: seq<Row>, c: Column, lo: real, hi: real)
    requires forall r :: r in rows ==> Numeric(Get(r, c))
    ensures Count(rows, OutOfRangeIn(c, lo, hi)) == 0 <==> forall i :: 0 <= i < |rows| ==> Within(Get(rows[i], c), lo, hi)
  {
    assert forall i :: 0 <= i < |rows| ==> rows[i] in rows;
    CountZero(rows, OutOfRangeIn(c, lo, hi));
  }

  /** A lower-bound check on column c passes exactly when every value is null
      or at least lo. */
  lemma LowerBoundPasses(rows: seq<Row>, c: Column, lo: real)
    requires forall r :: r in rows ==> Numeric(Get(r, c))
    ensures Count(rows, BelowMinimumIn(c, lo)) == 0 <==> forall i :: 0 <= i < |rows| ==> AtLeast(Get(rows[i], c), lo)
  {
    assert forall i :: 0 <= i < |rows| ==> rows[i] in rows;
    CountZero(rows, BelowMinimumIn(c, lo));
  }

  /** The temperature check reports the number k of offending rows when k > 0,
      and is silent exactly when every temperature is null or inside the closed
      interval, so a value equal to a bound passes. */
  lemma TemperatureCheck(rows: seq<Row>, t: Thresholds, k: nat)
    requires RangeColumnsNumeric(rows)
    ensures TemperatureOutOfRange(k) in Findings(rows, t) <==> k > 0 && k == TemperatureViolations(rows, t)
    ensures TemperatureViolations(rows, t) == 0 <==>
      forall i :: 0 <= i < |rows| ==> Within(Get(rows[i], TemperatureColumn), t.temperatureMin, t.temperatureMax)
  {
    NullIssuesKind(rows, CriticalColumns);
    RangePasses(rows, TemperatureColumn, t.temperatureMin, t.temperatureMax);
  }

  /** The humidity check reports the number k of offending rows when k > 0,
      and is silent exactly when every humidity is null or inside the closed
      interval. */
  lemma HumidityCheck(rows: seq<Row>, t: Thresholds, k: nat)
    requires RangeColumnsNumeric(rows)
    ensures HumidityOutOfRange(k) in Findings(rows, t) <==> k > 0 && k == HumidityViolations(rows, t)
    ensures HumidityViolations(rows, t) == 0 <==>
      forall i :: 0 <= i < |rows| ==> Within(Get(rows[i], HumidityColumn), t.humidityMin, t.humidityMax)
  {
    NullIssuesKind(rows, CriticalColumns);
    RangePasses(rows, HumidityColumn, t.humidityMin, t.humidityMax);
  }

  /** The precipitation check has only a lower bound: it is silent exactly when
      every value is null or at least the minimum. */
  lemma PrecipitationCheck(rows: seq<Row>, t: Thresholds, k: nat)
    requires RangeColumnsNumeric(rows)
    ensures PrecipitationBelowMinimum(k) in Findings(rows, t) <==> k > 0 && k == PrecipitationViolations(rows, t)
    ensures PrecipitationViolations(rows, t) == 0 <==>
      forall i :: 0 <= i < |rows| ==> AtLeast(Get(rows[i], PrecipitationColumn), t.precipitationMin)
  {
    NullIssuesKind(rows, CriticalColumns);
    LowerBoundPasses(rows, PrecipitationColumn, t.precipitationMin);
  }

  /** The wind speed check has only a lower bound: it is silent exactly when
      every value is null or at least the minimum. */
  lemma WindSpeedCheck(rows: seq<Row>, t: Thresholds, k: nat)
    requires RangeColumnsNumeric(rows)
    ensures WindSpeedBelowMinimum(k) in Findings(rows, t) <==> k > 0 && k == WindSpeedViolations(rows, t)
    ensures WindSpeedViolations(rows, t) == 0 <==>
      forall i :: 0 <= i < |rows| ==> AtLeast(Get(rows[i], WindSpeedColumn), t.windSpeedMin)
  {
    NullIssuesKind(rows, CriticalColumns);
    LowerBoundPasses(rows, WindSpeedColumn, t.windSpeedMin);
  }

  /** The null check of a batch reports column c exactly when c is critical and
      has nulls, with their number. */
  lemma NullCheck(rows: seq<Row>, t: Thresholds, c: Column, n: nat)
    ensures NullValues(c, n) in Findings(rows, t) <==> c in CriticalColumns && n > 0 && n == NullCount(rows, c)
  {
    NullIssuesExact(rows, CriticalColumns, c, n);
  }

  /** The duplicate check reports the number k of rows with a repeated
      identity when k > 0, and is silent exactly when identities are distinct. */
  lemma DuplicateCheck(rows: seq<Row>, t: Thresholds, k: nat)
    ensures DuplicatedIds(k) in Findings(rows, t) <==> k > 0 && k == DuplicatedCount(rows)
    ensures DuplicatedCount(rows) == 0 <==> DistinctIds(rows)
  {
    NullIssuesKind(rows, CriticalColumns);
    DuplicatesAbsentIffDistinct(rows);
  }

  /** A row's identity occurs more than once exactly when another row shares it. */
  lemma OccursTwice(rows: seq<Row>, i: nat)
    requires i < |rows|
    ensures Occurrences(rows, IdOf(rows[i])) > 1 <==> exists j :: 0 <= j < |rows| && j != i && IdOf(rows[j]) == IdOf(rows[i])
  {
    var p := HasId(IdOf(rows[i]));
    if j :| 0 <= j < |rows| && j != i && IdOf(rows[j]) == IdOf(rows[i]) {
      if i < j { CountTwo(rows, p, i, j); } else { CountTwo(rows, p, j, i); }
    } else {
      CountAtMostOne(rows, p);
    }
  }

  /** The duplicate check passes exactly when no two rows share an identity. */
  lemma DuplicatesAbsentIffDistinct(rows: seq<Row>)
    ensures DuplicatedCount(rows) == 0 <==> DistinctIds(rows)
  {
    CountZero(rows, Repeated(rows));
    forall i | 0 <= i < |rows| {
      OccursTwice(rows, i);
    }
  }

  /** Both rows of a repeated identity are counted, so the count is never 1. */
  lemma DuplicatesNeverOne(rows: seq<Row>)
    ensures DuplicatedCount(rows) != 1
  {
    var p := Repeated(rows);
    CountZero(rows, p);
    if DuplicatedCount(rows) != 0 {
      var i :| 0 <= i < |rows| && p(rows[i]);
      OccursTwice(rows, i);
      var j :| 0 <= j < |rows| && j != i && IdOf(rows[j]) == IdOf(rows[i]);
      OccursTwice(rows, j);
      if i < j { CountTwo(rows, p, i, j); } else { CountTwo(rows, p, j, i); }
    }
  }

  /** Two rows with the same identity give a duplicate count of 2. */
  lemma TwoEqualIdsCountTwice(a: Row, b: Row)
    requires IdOf(a) == IdOf(b)
    ensures DuplicatedCount([a, b]) == 2
  {
    var rows := [a, b];
    OccursTwice(rows, 0);
    OccursTwice(rows, 1);
    CountTwo(rows, Repeated(rows), 0, 1);
  }

  /** One row with humidity 140 against the bounds [0, 100] fails with a
      humidity message. */
  lemma HumidityAboveMaximumFails(df: Frame, t: Thresholds, shown: string)
    requires |df.rows| == 1 && Missing(df.columns) == []
    requires RangeColumnsNumeric(df.rows)
    requires Get(df.rows[0], HumidityColumn) == Some(Number(140.0, shown))
    requires t.humidityMin == 0.0 && t.humidityMax == 100.0
    ensures HumidityOutOfRange(1) in Issues(Some(df), t)
    ensures Message(HumidityOutOfRange(1)) in Messages(Issues(Some(df), t))
  {
    var p := OutOfRangeIn(HumidityColumn, t.humidityMin, t.humidityMax);
    assert p(df.rows[0]);
    assert df.rows[..0] == [];
    HumidityCheck(df.rows, t, 1);
    var issues := Issues(Some(df), t);
    var k :| 0 <= k < |issues| && issues[k] == HumidityOutOfRange(1);
    assert Messages(issues)[k] == Message(HumidityOutOfRange(1));
  }

  /** One row with every critical value present and every range check met is
      valid. */
  lemma CleanRowPasses(df: Frame, t: Thresholds)
    requires |df.rows| == 1 && Missing(df.columns) == []
    requires forall c :: c in CriticalColumns ==> Get(df.rows[0], c).Some?
    requires Within(Get(df.rows[0], TemperatureColumn), t.temperatureMin, t.temperatureMax)
    requires Within(Get(df.rows[0], HumidityColumn), t.humidityMin, t.humidityMax)
    requires AtLeast(Get(df.rows[0], PrecipitationColumn), t.precipitationMin)
    requires AtLeast(Get(df.rows[0], WindSpeedColumn), t.windSpeedMin)
    ensures Issues(Some(df), t) == []
  {
    var rows := df.rows;
    assert RangeColumnsNumeric(rows);
    RangePasses(rows, TemperatureColumn, t.temperatureMin, t.temperatureMax);
    RangePasses(rows, HumidityColumn, t.humidityMin, t.humidityMax);
    LowerBoundPasses(rows, PrecipitationColumn, t.precipitationMin);
    LowerBoundPasses(rows, WindSpeedColumn, t.windSpeedMin);
    DuplicatesAbsentIffDistinct(rows);
    forall c | c in CriticalColumns
      ensures NullCount(rows, c) == 0
    {
      CountZero(rows, NullIn(c));
    }
    NoFindings(rows, t);
  }

  /** A batch on which every count is zero has no issue. */
  lemma NoFindings(rows: seq<Row>, t: Thresholds)
    requires forall c :: c in CriticalColumns ==> NullCount(rows, c) == 0
    requires TemperatureViolations(rows, t) == 0 && HumidityViolations(rows, t) == 0
    requires PrecipitationViolations(rows, t) == 0 && WindSpeedViolations(rows, t) == 0
    requires DuplicatedCount(rows) == 0
    ensures Findings(rows, t) == []
  {
    NoNullIssues(rows, CriticalColumns);
  }

  /** The raised message contains the message of every issue. */
  lemma RaisedMessageNamesEveryIssue(df: Option<Frame>, t: Thresholds, k: nat) returns (at: nat)
    requires k < |Issues(df, t)|
    ensures var text, part := Join("; ", Messages(Issues(df, t))), Message(Issues(df, t)[k]);
      at + |part| <= |text| && text[at..at + |part|] == part
  {
    at := JoinHasPart("; ", Messages(Issues(df, t)), k);
  }

  /** `DataQualityValidator.validate`: builds the error list check by check,
      returning early on an empty batch or a missing column. */
  method Validate(df: Option<Frame>, t: Thresholds) returns (valid: bool, errors: seq<string>)
    requires df.Some? && |df.value.rows| > 0 && Missing(df.value.columns) == [] ==> RangeColumnsNumeric(df.value.rows)
    ensures errors == Messages(Issues(df, t))
    ensures valid <==> errors == []
    ensures df.None? || |df.value.rows| == 0 ==> errors == ["Processed dataset is empty"]
    ensures df.Some? && |df.value.rows| > 0 && Missing(df.value.columns) != [] ==>
      errors == ["Missing required columns: " + Join(", ", Missing(df.value.columns))]
  {
    if df.None? || |df.value.rows| == 0 {
      return false, [Message(EmptyDataset)];
    }
    var rows := df.value.rows;
    errors := [];
    var missing := Missing(df.value.columns);
    if missing != [] {
      errors := errors + [Message(MissingColumns(missing))];
      return false, errors;
    }
    for i := 0 to |CriticalColumns|
      invariant errors == Messages(NullIssues(rows, CriticalColumns[..i]))
    {
      var c := CriticalColumns[i];
      var nulls := NullCount(rows, c);
      assert CriticalColumns[..i + 1][..i] == CriticalColumns[..i];
      ghost var before := NullIssues(rows, CriticalColumns[..i]);
      if nulls > 0 {
        MessagesConcat(before, [NullValues(c, nulls)]);
        errors := errors + [Message(NullValues(c, nulls))];
      } else {
        assert before + [] == before;
      }
    }
    assert CriticalColumns[..|CriticalColumns|] == CriticalColumns;
    ghost var found := NullIssues(rows, CriticalColumns);
    var temperature := TemperatureViolations(rows, t);
    AddCheck(errors, found, temperature, TemperatureOutOfRange(temperature));
    if temperature > 0 {
      errors := errors + [Message(TemperatureOutOfRange(temperature))];
    }
    found := found + IfAny(temperature, TemperatureOutOfRange(temperature));
    var humidity := HumidityViolations(rows, t);
    AddCheck(errors, found, humidity, HumidityOutOfRange(humidity));
    if humidity > 0 {
      errors := errors + [Message(HumidityOutOfRange(humidity))];
    }
    found := found + IfAny(humidity, HumidityOutOfRange(humidity));
    var precipitation := PrecipitationViolations(rows, t);
    AddCheck(errors, found, precipitation, PrecipitationBelowMinimum(precipitation));
    if precipitation > 0 {
      errors := errors + [Message(PrecipitationBelowMinimum(precipitation))];
    }
    found := found + IfAny(precipitation, PrecipitationBelowMinimum(precipitation));
    var wind := WindSpeedViolations(rows, t);
    AddCheck(errors, found, wind, WindSpeedBelowMinimum(wind));
    if wind > 0 {
      errors := errors + [Message(WindSpeedBelowMinimum(wind))];
    }
    found := found + IfAny(wind, WindSpeedBelowMinimum(wind));
    var duplicated := DuplicatedCount(rows);
    AddCheck(errors, found, duplicated, DuplicatedIds(duplicated));
    if duplicated > 0 {
      errors := errors + [Message(DuplicatedIds(duplicated))];
    }
    found := found + IfAny(duplicated, DuplicatedIds(duplicated));
    assert found == Findings(rows, t);
    assert errors == Messages(Issues(df, t));
    if errors != [] {
      return false, errors;
    }
    return true, [];
  }

  /** `DataQualityValidator.validate_or_raise`: None when the batch is valid,
      otherwise the message of the error raised. */
  method ValidateOrRaise(df: Option<Frame>, t: Thresholds) returns (raised: Option<string>)
    requires df.Some? && |df.value.rows| > 0 && Missing(df.value.columns) == [] ==> RangeColumnsNumeric(df.value.rows)
    ensures raised.None? <==> Issues(df, t) == []
    ensures raised.Some? ==> raised.value == Join("; ", Messages(Issues(df, t)))
  {
    var valid, errors := Validate(df, t);
    if !valid {
      return Some(Join("; ", errors));
    }
    return None;
  }
}
