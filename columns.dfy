/** Start-up of the dashboard: detecting the country, year and total-emissions
    columns from lists of guesses, choosing the selectable metrics, and the
    range of the year slider. */
module ColumnResolver {
  import opened Wrappers
  import opened Seqs
  import opened Table

  /** The guesses for each logical column, tried in this order. */
  const CountryGuesses: seq<string> := ["country", "Country", "entity", "Entity", "name", "Name"]
  const YearGuesses: seq<string> := ["year", "Year", "YEAR"]
  const TotalGuesses: seq<string> :=
    ["co2", "CO2", "total_co2", "total_emissions", "emissions", "Total_CO2", "Total Emissions"]

  /** The metrics offered after the detected total column, in order of preference. */
  const PreferredExtras: seq<string> :=
    ["co2_per_capita", "share_global_co2", "coal_co2", "oil_co2", "gas_co2", "cement_co2", "flaring_co2"]

  /** How many numeric columns are offered when none of the preferred ones exists. */
  const FallbackCount: nat := 5

  /** The first candidate, in list order, that is a column name; None when no
      candidate is one. */
  function FirstColumn(names: seq<string>, candidates: seq<string>): (r: Option<string>)
    ensures r.None? <==> forall c :: c in candidates ==> c !in names
    ensures r.Some? ==> r.value in names && r.value in candidates
  {
    if candidates == [] then None
    else if candidates[0] in names then Some(candidates[0])
    else
      assert forall c :: c in candidates ==> c == candidates[0] || c in candidates[1..];
      FirstColumn(names, candidates[1..])
  }

  /** The detected column is the earliest candidate that is a column: a
      candidate that is a column, preceded only by candidates that are not, is
      the one picked. */
  lemma {:induction false} FirstColumnIsEarliest(names: seq<string>, candidates: seq<string>, k: nat)
    requires k < |candidates| && candidates[k] in names
    requires forall j :: 0 <= j < k ==> candidates[j] !in names
    ensures FirstColumn(names, candidates) == Some(candidates[k])
  {
    if k > 0 {
      FirstColumnIsEarliest(names, candidates[1..], k - 1);
    }
  }

  /** `pick_first_col`: scans the candidates and returns the first one that is
      a column of the table. */
  method PickFirstCol(t: Frame, candidates: seq<string>) returns (r: Option<string>)
    ensures r == FirstColumn(Names(t), candidates)
  {
    var names := Names(t);
    for i := 0 to |candidates|
      invariant FirstColumn(names, candidates) == FirstColumn(names, candidates[i..])
    {
      assert candidates[i..][1..] == candidates[i + 1..];
      if candidates[i] in names {
        return Some(candidates[i]);
      }
    }
    return None;
  }

  /** The first candidate that is a column is the head of the candidates
      filtered by membership. */
  lemma {:induction false} FirstColumnIsFirstKept(names: seq<string>, candidates: seq<string>)
    ensures var kept := Filter(candidates, c => c in names);
            FirstColumn(names, candidates) == if kept == [] then None else Some(kept[0])
  {
    if candidates != [] && candidates[0] !in names {
      FirstColumnIsFirstKept(names, candidates[1..]);
    }
  }

  /** The preferred metric names: the detected total column first (dropped
      when it was not detected), then the fixed extras. */
  function PreferredCandidates(total: Option<string>): (r: seq<string>)
    ensures |r| == |PreferredExtras| + (if total.Some? then 1 else 0)
    ensures total.Some? ==> r[0] == total.value
    ensures forall c :: c in r <==> Some(c) == total || c in PreferredExtras
  {
    (if total.Some? then [total.value] else []) + PreferredExtras
  }

  /** The selectable metrics: the preferred names that are numeric columns, in
      preferred order; when there are none, the first five numeric columns in
      table order. */
  function Metrics(total: Option<string>, numeric: seq<string>): (r: seq<string>)
    ensures forall m :: m in r ==> m in numeric
    ensures r == [] <==> numeric == []
    ensures (exists c :: c in PreferredCandidates(total) && c in numeric) ==>
              forall m :: m in r <==> m in PreferredCandidates(total) && m in numeric
    ensures (exists c :: c in PreferredCandidates(total) && c in numeric) ==>
              |r| == Rank(PreferredCandidates(total), c => c in numeric, |PreferredCandidates(total)|)
    ensures (forall c :: c in PreferredCandidates(total) ==> c !in numeric) ==>
              |r| == (if |numeric| < FallbackCount then |numeric| else FallbackCount) &&
              forall i :: 0 <= i < |r| ==> r[i] == numeric[i]
  {
    var cands := PreferredCandidates(total);
    var preferred := Filter(cands, c => c in numeric);
    assert cands[..|cands|] == cands;
    if preferred != [] then
      assert preferred[0] in preferred;
      preferred
    else numeric[..if |numeric| < FallbackCount then |numeric| else FallbackCount]
  }

  /** When the detected total column is numeric and none of the extras is, the
      total column is the only metric offered. */
  lemma MetricsOfTotalOnly(total: string, numeric: seq<string>)
    requires total in numeric
    requires forall c :: c in PreferredExtras ==> c !in numeric
    ensures Metrics(Some(total), numeric) == [total]
  {
    FilterKeepsOnlyHead(total, PreferredExtras, c => c in numeric);
  }

  /** The preferred metrics keep the preferred order. */
  lemma MetricsInPreferredOrder(total: Option<string>, numeric: seq<string>, i: nat, j: nat)
    requires var cands := PreferredCandidates(total);
             i < j < |cands| && cands[i] in numeric && cands[j] in numeric
    ensures var cands := PreferredCandidates(total);
            var r := Metrics(total, numeric);
            Rank(cands, c => c in numeric, i) < Rank(cands, c => c in numeric, j) < |r| &&
            r[Rank(cands, c => c in numeric, i)] == cands[i] &&
            r[Rank(cands, c => c in numeric, j)] == cands[j]
  {
    var cands := PreferredCandidates(total);
    var keep := c => c in numeric;
    FilterAt(cands, keep, i);
    FilterAt(cands, keep, j);
    FilterOrder(cands, keep, i, j);
  }

  /** The default metric (the dropdown's initial value `metrics[0]`) is the
      first preferred name that is a numeric column, or else the first numeric
      column. */
  lemma DefaultMetric(total: Option<string>, numeric: seq<string>)
    requires numeric != []
    ensures var first := FirstColumn(numeric, PreferredCandidates(total));
            Metrics(total, numeric)[0] == if first.Some? then first.value else numeric[0]
  {
    FirstColumnIsFirstKept(numeric, PreferredCandidates(total));
  }

  datatype StartupError =
    | ColumnsNotDetected  // the ValueError raised when country or year is not found
    | YearNotNumeric      // int() of the NaN minimum when no year value is numeric
    | YearOverflow        // int() of an infinite minimum or maximum year
    | NoMetrics           // metrics[0] on an empty metric list

  /** `a <= b` on non-NaN floats: the order of the reals, with `-inf` below
      and `inf` above every value (each infinity equal to itself). */
  predicate NumLe(a: Num, b: Num)
    ensures a == b ==> NumLe(a, b)
    ensures a.Finite? && b.Finite? ==> (NumLe(a, b) <==> a.x <= b.x)
    ensures a == PosInf ==> (NumLe(a, b) <==> b == PosInf)
    ensures b == NegInf ==> (NumLe(a, b) <==> a == NegInf)
  {
    match (a, b)
    case (NegInf, _) => true
    case (_, PosInf) => true
    case (Finite(x), Finite(y)) => x <= y
    case _ => false
  }

  /** The minimum of non-NaN floats. */
  function NumMin(ns: seq<Num>): (r: Num)
    requires ns != []
    ensures r in ns
    ensures forall n :: n in ns ==> NumLe(r, n)
  {
    if |ns| == 1 then ns[0]
    else
      var m := NumMin(ns[1..]);
      assert forall n :: n in ns ==> n == ns[0] || n in ns[1..];
      if NumLe(ns[0], m) then ns[0] else m
  }

  /** The maximum of non-NaN floats. */
  function NumMax(ns: seq<Num>): (r: Num)
    requires ns != []
    ensures r in ns
    ensures forall n :: n in ns ==> NumLe(n, r)
  {
    if |ns| == 1 then ns[0]
    else
      var m := NumMax(ns[1..]);
      assert forall n :: n in ns ==> n == ns[0] || n in ns[1..];
      if NumLe(m, ns[0]) then ns[0] else m
  }

  /** `int()` of a non-NaN float; an infinity raises OverflowError. */
  function IntOfNum(n: Num): (r: Result<int, StartupError>)
    ensures r.Ok? <==> n.Finite?
    ensures r.Ok? ==> r.value == Trunc(n.x)
    ensures r.Err? ==> r.error == YearOverflow
  {
    match n
    case Finite(x) => Ok(Trunc(x))
    case _ => Err(YearOverflow)
  }

  /** The year column coerced to numbers, one entry per row. */
  function YearValues(t: Frame, yearCol: string, p: Parser): (r: seq<Option<Num>>)
    ensures |r| == |t.rows|
    ensures forall i :: 0 <= i < |t.rows| ==> r[i] == ToNumeric(p, CellAt(t.rows[i], yearCol))
  {
    MapSeq(t.rows, (row: Row) => ToNumeric(p, CellAt(row, yearCol)))
  }

  /** `min_year` and `max_year`: `int()` of the minimum and maximum of the
      coerced year column, NaN skipped. The range exists exactly when some year
      is numeric and none is infinite; it then spans the truncation of every
      numeric year, and both ends are attained. */
  function YearRange(t: Frame, yearCol: string, p: Parser): (r: Result<(int, int), StartupError>)
    ensures r == Err(YearNotNumeric) <==> forall i :: 0 <= i < |t.rows| ==> YearValues(t, yearCol, p)[i].None?
    ensures r == Err(YearOverflow) <==>
              (exists i :: 0 <= i < |t.rows| && YearValues(t, yearCol, p)[i].Some? &&
                           !YearValues(t, yearCol, p)[i].value.Finite?)
    ensures r.Ok? ==> r.value.0 <= r.value.1
    ensures r.Ok? ==> forall i :: 0 <= i < |t.rows| && YearValues(t, yearCol, p)[i].Some? ==>
              YearValues(t, yearCol, p)[i].value.Finite? &&
              r.value.0 <= Trunc(YearValues(t, yearCol, p)[i].value.x) <= r.value.1
    ensures r.Ok? ==> (exists i :: 0 <= i < |t.rows| && YearValues(t, yearCol, p)[i].Some? &&
                         YearValues(t, yearCol, p)[i].value.Finite? &&
                         Trunc(YearValues(t, yearCol, p)[i].value.x) == r.value.0)
    ensures r.Ok? ==> (exists i :: 0 <= i < |t.rows| && YearValues(t, yearCol, p)[i].Some? &&
                         YearValues(t, yearCol, p)[i].value.Finite? &&
                         Trunc(YearValues(t, yearCol, p)[i].value.x) == r.value.1)
  {
    var vs := YearValues(t, yearCol, p);
    var ys := Present(vs);
    if ys == [] then
      assert forall i :: 0 <= i < |vs| ==> vs[i].None?;
      Err(YearNotNumeric)
    else
      var lo := NumMin(ys);
      var hi := NumMax(ys);
      YearRangeFacts(vs, lo, hi);
      match IntOfNum(lo)
      case Err(e) => Err(e)
      case Ok(l) =>
        match IntOfNum(hi)
        case Err(e) => Err(e)
        case Ok(h) => Ok((l, h))
  }

  /** What the extremes of the present years say about every present year. */
  lemma YearRangeFacts(vs: seq<Option<Num>>, lo: Num, hi: Num)
    requires Present(vs) != [] && lo == NumMin(Present(vs)) && hi == NumMax(Present(vs))
    ensures exists i :: 0 <= i < |vs| && vs[i] == Some(lo)
    ensures exists i :: 0 <= i < |vs| && vs[i] == Some(hi)
    ensures (lo.Finite? && hi.Finite?) <==> forall i :: 0 <= i < |vs| && vs[i].Some? ==> vs[i].value.Finite?
    ensures lo.Finite? && hi.Finite? ==> forall i :: 0 <= i < |vs| && vs[i].Some? ==>
              Trunc(lo.x) <= Trunc(vs[i].value.x) <= Trunc(hi.x)
  {
    var ys := Present(vs);
    assert Some(lo) in vs && Some(hi) in vs;
    forall i | 0 <= i < |vs| && vs[i].Some?
      ensures NumLe(lo, vs[i].value) && NumLe(vs[i].value, hi)
    {
      assert vs[i].value in ys;
    }
    if lo.Finite? && hi.Finite? {
      forall i | 0 <= i < |vs| && vs[i].Some?
        ensures vs[i].value.Finite? && Trunc(lo.x) <= Trunc(vs[i].value.x) <= Trunc(hi.x)
      {
        assert NumLe(lo, vs[i].value) && NumLe(vs[i].value, hi);
        TruncMonotone(lo.x, vs[i].value.x);
        TruncMonotone(vs[i].value.x, hi.x);
      }
    }
  }

  /** The resolved start-up configuration. */
  datatype Config = Config(
    countryCol: string,
    yearCol: string,
    totalCol: Option<string>,
    metrics: seq<string>,
    minYear: int,
    maxYear: int)

  /** Module-level start-up with the given guess lists: detect the columns
      (raising when country or year is missing), derive the metrics and the
      year range, and fail at `metrics[0]` when there is no metric. */
  function Resolve(t: Frame, p: Parser, countryGuesses: seq<string>, yearGuesses: seq<string>, totalGuesses: seq<string>)
    : (r: Result<Config, StartupError>)
    ensures r == Err(ColumnsNotDetected) <==>
              FirstColumn(Names(t), countryGuesses).None? || FirstColumn(Names(t), yearGuesses).None?
    ensures r.Ok? ==> r.value.countryCol in Names(t) && r.value.countryCol in countryGuesses
    ensures r.Ok? ==> r.value.yearCol in Names(t) && r.value.yearCol in yearGuesses
    ensures r.Ok? ==> (r.value.metrics != [] &&
                       forall m :: m in r.value.metrics ==> m in NumericNames(t.columns))
    ensures r.Ok? ==> Some(r.value.countryCol) == FirstColumn(Names(t), countryGuesses) &&
                      Some(r.value.yearCol) == FirstColumn(Names(t), yearGuesses) &&
                      r.value.totalCol == FirstColumn(Names(t), totalGuesses) &&
                      r.value.metrics == Metrics(r.value.totalCol, NumericNames(t.columns))
    ensures r.Ok? ==> r.value.minYear <= r.value.maxYear
    ensures r.Ok? ==> YearRange(t, r.value.yearCol, p) == Ok((r.value.minYear, r.value.maxYear))
    ensures (r == Err(YearNotNumeric) || r == Err(YearOverflow)) ==>
              FirstColumn(Names(t), yearGuesses).Some? &&
              YearRange(t, FirstColumn(Names(t), yearGuesses).value, p) == Err(r.error)
    ensures r == Err(NoMetrics) <==>
              FirstColumn(Names(t), countryGuesses).Some? && FirstColumn(Names(t), yearGuesses).Some? &&
              YearRange(t, FirstColumn(Names(t), yearGuesses).value, p).Ok? &&
              NumericNames(t.columns) == []
  {
    var country := FirstColumn(Names(t), countryGuesses);
    var year := FirstColumn(Names(t), yearGuesses);
    var total := FirstColumn(Names(t), totalGuesses);
    if country.None? || year.None? then Err(ColumnsNotDetected)
    else
      var metrics := Metrics(total, NumericNames(t.columns));
      match YearRange(t, year.value, p)
      case Err(e) => Err(e)
      case Ok((lo, hi)) =>
        if metrics == [] then Err(NoMetrics)
        else Ok(Config(country.value, year.value, total, metrics, lo, hi))
  }

  /** The dropdown's initial value after a successful start-up is the first
      preferred name that is a numeric column, or else the first numeric
      column in table order. */
  lemma ResolvedDefaultMetric(t: Frame, p: Parser, countryGuesses: seq<string>, yearGuesses: seq<string>, totalGuesses: seq<string>)
    requires Resolve(t, p, countryGuesses, yearGuesses, totalGuesses).Ok?
    ensures var cfg := Resolve(t, p, countryGuesses, yearGuesses, totalGuesses).value;
            var numeric := NumericNames(t.columns);
            var first := FirstColumn(numeric, PreferredCandidates(FirstColumn(Names(t), totalGuesses)));
            numeric != [] &&
            cfg.metrics[0] == if first.Some? then first.value else numeric[0]
  {
    var cfg := Resolve(t, p, countryGuesses, yearGuesses, totalGuesses).value;
    DefaultMetric(cfg.totalCol, NumericNames(t.columns));
  }

  /** Start-up with the dashboard's own guess lists. */
  function Startup(t: Frame, p: Parser): (r: Result<Config, StartupError>)
    ensures r == Err(ColumnsNotDetected) <==>
              FirstColumn(Names(t), CountryGuesses).None? || FirstColumn(Names(t), YearGuesses).None?
    ensures r.Ok? ==> Some(r.value.countryCol) == FirstColumn(Names(t), CountryGuesses) &&
                      Some(r.value.yearCol) == FirstColumn(Names(t), YearGuesses) &&
                      r.value.metrics == Metrics(FirstColumn(Names(t), TotalGuesses), NumericNames(t.columns))
  {
    Resolve(t, p, CountryGuesses, YearGuesses, TotalGuesses)
  }
}
