/** The data side of the `update` callback: the year the slider value selects,
    the rows of that year, the metric coerced and transformed, the values the
    histogram draws and the (country, value) pairs the choropleth draws. */
module ViewPipeline {
  import opened Wrappers
  import opened Seqs
  import opened Table
  import opened ColumnResolver
  import opened Transforms
  import Stats

  /** What the figures are drawn from: the histogram's values in row order,
      and the choropleth's (country, value) pairs in row order. */
  datatype View = View(distribution: seq<real>, locations: seq<(Cell, real)>)

  datatype UpdateError =
    | UnknownMetric      // KeyError from `dff[metric]`
    | ZeroSizeReduction  // ValueError from `np.nanmin` on a zero-length series

  /** `int(year)`, falling back to `max_year` whenever `int()` raises: on None,
      NaN, an infinity, or a string that is not an integer literal. */
  function SelectedYear(p: Parser, input: Cell, maxYear: int): (r: int)
    ensures input == Missing ==> r == maxYear
    ensures input.Number? && input.n.Finite? ==> r == Trunc(input.n.x)
    ensures input.Number? && !input.n.Finite? ==> r == maxYear
    ensures input.Text? ==> r == (if p.toInt(input.s).Some? then p.toInt(input.s).value else maxYear)
  {
    match input
    case Missing => maxYear
    case Number(Finite(x)) => Trunc(x)
    case Number(_) => maxYear
    case Text(s) => if p.toInt(s).Some? then p.toInt(s).value else maxYear
  }

  /** Whether a row's coerced year equals `year`; NaN and infinities equal no
      year. */
  predicate InYear(p: Parser, yearCol: string, year: int, row: Row)
    ensures InYear(p, yearCol, year, row) <==> FiniteValue(p, CellAt(row, yearCol)) == Some(year as real)
    ensures CellAt(row, yearCol) == Number(Finite(year as real)) ==> InYear(p, yearCol, year, row)
  {
    ToNumeric(p, CellAt(row, yearCol)) == Some(Finite(year as real))
  }

  /** `df[pd.to_numeric(df[year_col], errors="coerce") == year]`: the rows of
      the year, in table order. */
  function RowsForYear(t: Frame, yearCol: string, p: Parser, year: int): (r: seq<Row>)
    ensures forall row :: row in r <==> row in t.rows && InYear(p, yearCol, year, row)
  {
    Filter(t.rows, row => InYear(p, yearCol, year, row))
  }

  /** The metric column of `rows` coerced to numbers, infinities replaced by
      NaN. */
  function MetricSeries(p: Parser, rows: seq<Row>, metric: string): (r: Series)
    ensures |r| == |rows|
    ensures forall k :: 0 <= k < |rows| ==> r[k] == FiniteValue(p, CellAt(rows[k], metric))
  {
    MapSeq(rows, row => FiniteValue(p, CellAt(row, metric)))
  }

  /** Each row's (country, value) pair, None where either is missing. */
  function Paired(countries: seq<Cell>, x: Series): (r: seq<Option<(Cell, real)>>)
    requires |countries| == |x|
    ensures |r| == |x|
    ensures forall k :: 0 <= k < |x| && r[k].Some? ==> x[k].Some?
  {
    seq(|x|, k requires 0 <= k < |x| =>
      if countries[k] != Missing && x[k].Some? then Some((countries[k], x[k].value)) else None)
  }

  /** The (country, value) pairs of the rows whose country and value are both
      present, in row order (`dff[[country_col, "_metric_view_"]].dropna()`).
      These are rows: a country that appears twice gives two pairs. */
  function Located(countries: seq<Cell>, x: Series): (r: seq<(Cell, real)>)
    requires |countries| == |x|
    ensures |r| <= |Present(x)|
  {
    PresentFewer(Paired(countries, x), x);
    Present(Paired(countries, x))
  }

  /** The country cell of each row. */
  function Countries(rows: seq<Row>, countryCol: string): (r: seq<Cell>)
    ensures |r| == |rows|
    ensures forall k :: 0 <= k < |rows| ==> r[k] == CellAt(rows[k], countryCol)
  {
    MapSeq(rows, row => CellAt(row, countryCol))
  }

  /** The figures' data for a transformed view `x` of `rows`. */
  function ViewOf(rows: seq<Row>, countryCol: string, x: Series): (v: View)
    requires |x| == |rows|
    ensures |v.locations| <= |v.distribution| <= |rows|
    ensures forall y :: y in v.distribution <==> Some(y) in x
  {
    View(Present(x), Located(Countries(rows, countryCol), x))
  }

  /** The view of `metric` in `year` under transform `tr`. The histogram
      draws one value per row of the year whose metric is finite, and the map
      at most as many. */
  function ComputeView(t: Frame, cfg: Config, p: Parser, num: Numerics, metric: string, year: int, tr: Transform): (v: View)
    ensures |v.locations| <= |v.distribution| <= |RowsForYear(t, cfg.yearCol, p, year)|
  {
    ViewOf(RowsForYear(t, cfg.yearCol, p, year), cfg.countryCol, ViewSeries(t, cfg, p, num, metric, year, tr))
  }

  /** `dff["_metric_view_"]`: the transformed metric of the rows of the year. */
  function ViewSeries(t: Frame, cfg: Config, p: Parser, num: Numerics, metric: string, year: int, tr: Transform): (x: Series)
    ensures |x| == |RowsForYear(t, cfg.yearCol, p, year)|
  {
    Apply(tr, num, MetricSeries(p, RowsForYear(t, cfg.yearCol, p, year), metric))
  }

  /** The callback with the zero-length min-max case handled as intended:
      an unknown metric raises KeyError; otherwise the view of the selected
      year and transform. */
  function Update(t: Frame, cfg: Config, p: Parser, num: Numerics, metric: string, yearInput: Cell, transform: string)
    : (r: Result<View, UpdateError>)
    ensures r.Err? <==> metric !in Names(t)
    ensures r.Err? ==> r.error == UnknownMetric
    ensures r.Ok? ==>
              r.value == ComputeView(t, cfg, p, num, metric, SelectedYear(p, yearInput, cfg.maxYear), TransformNamed(transform))
  {
    if metric !in Names(t) then Err(UnknownMetric)
    else Ok(ComputeView(t, cfg, p, num, metric, SelectedYear(p, yearInput, cfg.maxYear), TransformNamed(transform)))
  }

  /** The callback as written: the min-max branch raises on a year with no
      rows. */
  function UpdateAsWritten(t: Frame, cfg: Config, p: Parser, num: Numerics, metric: string, yearInput: Cell, transform: string)
    : (r: Result<View, UpdateError>)
    ensures r == Err(ZeroSizeReduction) <==>
              metric in Names(t) && transform == "minmax" &&
              RowsForYear(t, cfg.yearCol, p, SelectedYear(p, yearInput, cfg.maxYear)) == []
    ensures r != Err(ZeroSizeReduction) ==> r == Update(t, cfg, p, num, metric, yearInput, transform)
  {
    if metric !in Names(t) then Err(UnknownMetric)
    else
      var year := SelectedYear(p, yearInput, cfg.maxYear);
      var rows := RowsForYear(t, cfg.yearCol, p, year);
      var s := MetricSeries(p, rows, metric);
      var tr := TransformNamed(transform);
      var x := if tr == MinMax then MinMaxAsWritten(s) else Some(Apply(tr, num, s));
      match x
      case None => Err(ZeroSizeReduction)
      case Some(x) => Ok(ViewOf(rows, cfg.countryCol, x))
  }

  /** The map holds a pair exactly when some row of the year has that country,
      present, and that value. */
  lemma LocatedMembers(countries: seq<Cell>, x: Series, c: Cell, v: real)
    requires |countries| == |x|
    ensures (c, v) in Located(countries, x) <==>
              exists k :: 0 <= k < |x| && countries[k] == c && c != Missing && x[k] == Some(v)
  {
    var pairs := Paired(countries, x);
    if (c, v) in Located(countries, x) {
      var k :| 0 <= k < |pairs| && pairs[k] == Some((c, v));
      assert countries[k] == c && x[k] == Some(v);
    }
    if exists k :: 0 <= k < |x| && countries[k] == c && c != Missing && x[k] == Some(v) {
      var k :| 0 <= k < |x| && countries[k] == c && c != Missing && x[k] == Some(v);
      assert pairs[k] == Some((c, v));
    }
  }

  /** Rows with a complete pair keep their order in the map. */
  lemma LocatedInRowOrder(countries: seq<Cell>, x: Series, i: nat, j: nat)
    requires |countries| == |x| && i < j < |x|
    requires countries[i] != Missing && x[i].Some? && countries[j] != Missing && x[j].Some?
    ensures var at := PresentRank(Paired(countries, x), i);
            var bt := PresentRank(Paired(countries, x), j);
            at < bt < |Located(countries, x)| &&
            Located(countries, x)[at] == (countries[i], x[i].value) &&
            Located(countries, x)[bt] == (countries[j], x[j].value)
  {
    var pairs := Paired(countries, x);
    PresentAt(pairs, i);
    PresentAt(pairs, j);
    PresentOrder(pairs, i, j);
  }

  /** When every row of the year names its country, the map shows exactly the
      histogram's values, in the same order. */
  lemma LocatedValuesArePresent(countries: seq<Cell>, x: Series)
    requires |countries| == |x|
    requires forall k :: 0 <= k < |countries| ==> countries[k] != Missing
    ensures MapSeq(Located(countries, x), (e: (Cell, real)) => e.1) == Present(x)
  {
    var second := (e: (Cell, real)) => e.1;
    var pairs := Paired(countries, x);
    PresentOfMapPresent(pairs, second);
    assert MapPresent(pairs, second) == x;
  }

  /** The transform changes the values drawn, never which rows are drawn: the
      histogram has as many values under every transform as under raw. */
  lemma DistributionSizeIndependentOfTransform(t: Frame, cfg: Config, p: Parser, num: Numerics, metric: string, year: int, tr: Transform)
    ensures |ComputeView(t, cfg, p, num, metric, year, tr).distribution|
         == |ComputeView(t, cfg, p, num, metric, year, Raw).distribution|
  {
    var s := MetricSeries(p, RowsForYear(t, cfg.yearCol, p, year), metric);
    var x := ViewSeries(t, cfg, p, num, metric, year, tr);
    assert x == Apply(tr, num, s);
    PresentFewer(x, s);
    PresentFewer(s, x);
  }

  /** Under the raw transform the histogram draws exactly the finite metric
      values of the rows of the year. */
  lemma RawDistribution(t: Frame, cfg: Config, p: Parser, num: Numerics, metric: string, year: int, v: real)
    ensures v in ComputeView(t, cfg, p, num, metric, year, Raw).distribution <==>
              exists row :: row in t.rows && InYear(p, cfg.yearCol, year, row) &&
                            ToNumeric(p, CellAt(row, metric)) == Some(Finite(v))
  {
    var rows := RowsForYear(t, cfg.yearCol, p, year);
    var s := MetricSeries(p, rows, metric);
    if v in Present(s) {
      var k :| 0 <= k < |s| && s[k] == Some(v);
      assert rows[k] in rows;
    }
    if exists row :: row in t.rows && InYear(p, cfg.yearCol, year, row) &&
                     ToNumeric(p, CellAt(row, metric)) == Some(Finite(v)) {
      var row :| row in t.rows && InYear(p, cfg.yearCol, year, row) &&
                 ToNumeric(p, CellAt(row, metric)) == Some(Finite(v));
      var k :| 0 <= k < |rows| && rows[k] == row;
      assert s[k] == Some(v);
    }
  }

  /** Under min-max scaling every value the histogram draws lies in [0, 1]. */
  lemma MinMaxDistributionInUnitInterval(t: Frame, cfg: Config, p: Parser, num: Numerics, metric: string, year: int, v: real)
    requires v in ComputeView(t, cfg, p, num, metric, year, MinMax).distribution
    ensures 0.0 <= v <= 1.0
  {
    var s := MetricSeries(p, RowsForYear(t, cfg.yearCol, p, year), metric);
    DistributionOfSeries(t, cfg, p, num, metric, year, MinMax);
    MinMaxPresentInUnitInterval(s, v);
  }

  /** The histogram holds the present values of the transformed metric of the
      rows of the year. */
  lemma DistributionOfSeries(t: Frame, cfg: Config, p: Parser, num: Numerics, metric: string, year: int, tr: Transform)
    ensures ComputeView(t, cfg, p, num, metric, year, tr).distribution ==
              Present(Apply(tr, num, MetricSeries(p, RowsForYear(t, cfg.yearCol, p, year), metric)))
  {
  }

  /** A year without rows gives an empty histogram and an empty map under every
      transform. */
  lemma AbsentYearEmptyView(t: Frame, cfg: Config, p: Parser, num: Numerics, metric: string, year: int, tr: Transform)
    requires forall row :: row in t.rows ==> !InYear(p, cfg.yearCol, year, row)
    ensures ComputeView(t, cfg, p, num, metric, year, tr) == View([], [])
  {
    FilterNone(t.rows, row => InYear(p, cfg.yearCol, year, row));
  }

  /** The first render after a successful start-up (default metric, the
      slider at `max_year`, raw values) succeeds and shows the latest year. */
  lemma InitialRender(t: Frame, p: Parser, num: Numerics)
    requires Startup(t, p).Ok?
    ensures var cfg := Startup(t, p).value;
            var maxYear := Number(Finite(cfg.maxYear as real));
            Update(t, cfg, p, num, cfg.metrics[0], maxYear, "raw")
              == Ok(ComputeView(t, cfg, p, num, cfg.metrics[0], cfg.maxYear, Raw))
  {
    var cfg := Startup(t, p).value;
    assert cfg.metrics[0] in cfg.metrics;
    NumericNamesAreNames(t, cfg.metrics[0]);
    TruncOfInt(cfg.maxYear);
  }

  /** A small table with a gap in its years: rows for 2000 and 2002. */
  function GapTable(): Frame
  {
    Frame([Column("country", false), Column("year", true), Column("co2", true)],
          [map["country" := Text("A"), "year" := Number(Finite(2000.0)), "co2" := Number(Finite(1.0))],
           map["country" := Text("A"), "year" := Number(Finite(2002.0)), "co2" := Number(Finite(2.0))]])
  }

  /** Start-up on the gap table detects `country`, `year` and `co2`, offers
      `co2` as the only metric, and spans the years 2000 to 2002. */
  lemma GapTableStartup(p: Parser)
    ensures Startup(GapTable(), p) == Ok(Config("country", "year", Some("co2"), ["co2"], 2000, 2002))
  {
    GapColumns();
    GapYears(p);
    GapMetrics();
  }

  /** The gap table's detected columns and numeric columns. */
  lemma GapColumns()
    ensures FirstColumn(Names(GapTable()), CountryGuesses) == Some("country")
    ensures FirstColumn(Names(GapTable()), YearGuesses) == Some("year")
    ensures FirstColumn(Names(GapTable()), TotalGuesses) == Some("co2")
    ensures NumericNames(GapTable().columns) == ["year", "co2"]
  {
    var names := Names(GapTable());
    assert names == ["country", "year", "co2"];
  }

  /** The gap table's years run from 2000 to 2002. */
  lemma GapYears(p: Parser)
    ensures YearRange(GapTable(), "year", p) == Ok((2000, 2002))
  {
    var vs := YearValues(GapTable(), "year", p);
    assert vs == [Some(Finite(2000.0)), Some(Finite(2002.0))];
    assert Present(vs) == [Finite(2000.0), Finite(2002.0)];
  }

  /** With `co2` detected, the only numeric preferred metric is `co2`. */
  lemma GapMetrics()
    ensures Metrics(Some("co2"), ["year", "co2"]) == ["co2"]
  {
    MetricsOfTotalOnly("co2", ["year", "co2"]);
  }

  /** Moving the slider to the missing year 2001 with min-max selected, after
      start-up on the gap table: the callback as written raises, the corrected
      one draws empty figures. */
  lemma MinMaxOnGapYear(p: Parser, num: Numerics)
    ensures Startup(GapTable(), p).Ok?
    ensures var cfg := Startup(GapTable(), p).value;
            var year := Number(Finite(2001.0));
            UpdateAsWritten(GapTable(), cfg, p, num, "co2", year, "minmax") == Err(ZeroSizeReduction) &&
            Update(GapTable(), cfg, p, num, "co2", year, "minmax") == Ok(View([], []))
  {
    GapTableStartup(p);
    GapYearViews(p, num, Startup(GapTable(), p).value);
  }

  /** The two callbacks on the gap table's configuration in the year 2001. */
  lemma GapYearViews(p: Parser, num: Numerics, cfg: Config)
    requires cfg == Config("country", "year", Some("co2"), ["co2"], 2000, 2002)
    ensures var year := Number(Finite(2001.0));
            UpdateAsWritten(GapTable(), cfg, p, num, "co2", year, "minmax") == Err(ZeroSizeReduction) &&
            Update(GapTable(), cfg, p, num, "co2", year, "minmax") == Ok(View([], []))
  {
    var t := GapTable();
    assert Names(t)[2] == "co2";
    assert SelectedYear(p, Number(Finite(2001.0)), 2002) == 2001;
    assert !InYear(p, "year", 2001, t.rows[0]) && !InYear(p, "year", 2001, t.rows[1]);
    AbsentYearEmptyView(t, cfg, p, num, "co2", 2001, MinMax);
  }

  /** A row of 2000 with the given country and co2. */
  function Row2000(country: string, co2: real): Row
  {
    map["country" := Text(country), "year" := Number(Finite(2000.0)), "co2" := Number(Finite(co2))]
  }

  /** Three rows of 2000 with co2 10, 30 and 30. */
  function ThreeCountries(): Frame
  {
    Frame([Column("country", false), Column("year", true), Column("co2", true)],
          [Row2000("A", 10.0), Row2000("B", 30.0), Row2000("C", 30.0)])
  }

  /** What the view pipeline reads from one row of 2000. */
  lemma Row2000Cells(p: Parser, country: string, co2: real)
    ensures InYear(p, "year", 2000, Row2000(country, co2))
    ensures FiniteValue(p, CellAt(Row2000(country, co2), "co2")) == Some(co2)
    ensures CellAt(Row2000(country, co2), "country") == Text(country)
  {
  }

  /** Min-max scaling of co2 in 2000 sends A to 0 and B and C to 1. */
  lemma MinMaxThreeCountries(p: Parser, num: Numerics)
    ensures var cfg := Config("country", "year", Some("co2"), ["co2"], 2000, 2000);
            ComputeView(ThreeCountries(), cfg, p, num, "co2", 2000, MinMax)
              == View([0.0, 1.0, 1.0], [(Text("A"), 0.0), (Text("B"), 1.0), (Text("C"), 1.0)])
  {
    var rows := ThreeCountries().rows;
    ThreeCountriesColumns(p);
    var s := MetricSeries(p, rows, "co2");
    MinMaxTenThirtyThirty(s);
    var x := Apply(MinMax, num, s);
    assert x == [Some(0.0), Some(1.0), Some(1.0)];
    ThreeCountriesFigures(Countries(rows, "country"), x);
    assert ViewOf(rows, "country", x) == View(Present(x), Located(Countries(rows, "country"), x));
  }

  /** The histogram values and map pairs of the scaled co2 column. */
  lemma ThreeCountriesFigures(cs: seq<Cell>, x: Series)
    requires cs == [Text("A"), Text("B"), Text("C")] && x == [Some(0.0), Some(1.0), Some(1.0)]
    ensures Present(x) == [0.0, 1.0, 1.0]
    ensures Located(cs, x) == [(Text("A"), 0.0), (Text("B"), 1.0), (Text("C"), 1.0)]
  {
    PresentAllSome(x);
    var pairs := Paired(cs, x);
    assert pairs == [Some((Text("A"), 0.0)), Some((Text("B"), 1.0)), Some((Text("C"), 1.0))];
    PresentAllSome(pairs);
  }

  /** The year-2000 rows of `ThreeCountries` are all its rows; their co2 and
      country columns. */
  lemma ThreeCountriesColumns(p: Parser)
    ensures RowsForYear(ThreeCountries(), "year", p, 2000) == ThreeCountries().rows
    ensures MetricSeries(p, ThreeCountries().rows, "co2") == [Some(10.0), Some(30.0), Some(30.0)]
    ensures Countries(ThreeCountries().rows, "country") == [Text("A"), Text("B"), Text("C")]
  {
    var rows := ThreeCountries().rows;
    Row2000Cells(p, "A", 10.0);
    Row2000Cells(p, "B", 30.0);
    Row2000Cells(p, "C", 30.0);
    FilterAll(rows, row => InYear(p, "year", 2000, row));
  }

  /** Min-max scaling of 10, 30, 30. */
  lemma MinMaxTenThirtyThirty(s: Series)
    requires s == [Some(10.0), Some(30.0), Some(30.0)]
    ensures MinMaxView(s) == [Some(0.0), Some(1.0), Some(1.0)]
  {
    TenThirtyThirtyExtremes(s);
    ScaleEndpoints(10.0, 10.0, 30.0);
    ScaleEndpoints(30.0, 10.0, 30.0);
    var r := MapPresent(s, x => Scaled(x, 10.0, 30.0));
    assert r[0] == Some(0.0) && r[1] == Some(1.0) && r[2] == Some(1.0);
  }

  /** The present values of 10, 30, 30, their minimum and their maximum. */
  lemma TenThirtyThirtyExtremes(s: Series)
    requires s == [Some(10.0), Some(30.0), Some(30.0)]
    ensures Present(s) == [10.0, 30.0, 30.0]
    ensures Stats.Min(Present(s)) == 10.0 && Stats.Max(Present(s)) == 30.0
  {
    PresentAllSome(s);
    var vals := Present(s);
    assert vals[1..] == [30.0, 30.0] && vals[1..][1..] == [30.0];
  }

  /** Z-scores of the co2 values 10, 30, 30 of `ThreeCountries`: the mean is
      70/3, the population variance 800/9 (a standard deviation of about 9.43),
      and A's z-score times that standard deviation is -40/3 (about -1.41
      standard deviations). */
  lemma ZScoreTenThirtyThirty(num: Numerics)
    requires num.sqrt(800.0 / 9.0) > 0.0
    ensures Stats.Mean([10.0, 30.0, 30.0]) == 70.0 / 3.0
    ensures Stats.Variance([10.0, 30.0, 30.0]) == 800.0 / 9.0
    ensures ZScoreView(num, [Some(10.0), Some(30.0), Some(30.0)])[0].value * num.sqrt(800.0 / 9.0) == -40.0 / 3.0
  {
    var s: Series := [Some(10.0), Some(30.0), Some(30.0)];
    TenThirtyThirtyMoments(s, Present(s));
    var sd := num.sqrt(800.0 / 9.0);
    var mu := 70.0 / 3.0;
    assert ZScoreView(num, s)[0].value == (10.0 - mu) / sd;
    Stats.MulDivCancel(10.0 - mu, sd);
  }

  /** The mean and population variance of 10, 30, 30. */
  lemma TenThirtyThirtyMoments(s: Series, vals: seq<real>)
    requires s == [Some(10.0), Some(30.0), Some(30.0)] && vals == Present(s)
    ensures vals == [10.0, 30.0, 30.0]
    ensures Stats.Mean(vals) == 70.0 / 3.0
    ensures Stats.Variance(vals) == 800.0 / 9.0
  {
    TenThirtyThirtyExtremes(s);
    assert vals[1..] == [30.0, 30.0] && vals[1..][1..] == [30.0] && |vals[1..][1..][1..]| == 0;
    var mu := 70.0 / 3.0;
    assert Stats.Sum(vals[1..][1..][1..]) == 0.0 && Stats.SumSqDev(vals[1..][1..][1..], mu) == 0.0;
    assert Stats.Sum(vals[1..][1..]) == 30.0 && Stats.SumSqDev(vals[1..][1..], mu) == 400.0 / 9.0;
    assert Stats.Sum(vals[1..]) == 60.0 && Stats.SumSqDev(vals[1..], mu) == 800.0 / 9.0;
    assert Stats.Sum(vals) == 70.0 && Stats.SumSqDev(vals, mu) == 2400.0 / 9.0;
  }
}
