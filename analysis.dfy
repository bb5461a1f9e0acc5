/** One run of the analysis on an uploaded file (analisador_vacinacao.py,
    lines 20-88): the series is prepared, annotated with its percent changes
    and months, scanned for drops and continued by the forecast, and the
    recommendation shown depends only on whether some drop was found. */
module Analysis {
  import opened Wrappers
  import opened Loader
  import opened ChangeDetector
  import opened Forecaster
  import opened Sequences

  /** The two recommendation blocks of lines 78-88: intensify campaigns,
      check stock and investigate causes after a drop; otherwise keep the
      current strategy and keep monitoring. */
  datatype Recommendation = IntensifyCampaigns | KeepStrategy

  function Recommend(drops: seq<Row>): (r: Recommendation)
    ensures r == IntensifyCampaigns <==> drops != []
    ensures r == KeepStrategy <==> drops == []
  {
    if drops != [] then IntensifyCampaigns else KeepStrategy
  }

  /** Campaigns are recommended exactly when some step of the series, from
      row i - 1 to row i, is a drop. */
  lemma RecommendationFollowsDrops(s: seq<Record>, monthOf: Day -> string)
    ensures Recommend(Drops(Annotate(s, monthOf))) == IntensifyCampaigns <==>
      exists i :: 0 < i < |s| && IsDrop(PctChange(s[i - 1].count, s[i].count))
  {
    DropsOfSeries(s, monthOf);
    var ix := Positions(Annotate(s, monthOf), DropMask());
    if Drops(Annotate(s, monthOf)) != [] {
      var i := ix[0];
      assert 0 < i < |s| && IsDrop(PctChange(s[i - 1].count, s[i].count));
    }
    if i :| 0 < i < |s| && IsDrop(PctChange(s[i - 1].count, s[i].count)) {
      assert i in ix;
    }
  }

  /** With counts that are never negative, campaigns are recommended exactly
      when some count falls below four fifths of a positive predecessor. */
  lemma RecommendationFollowsFalls(s: seq<Record>, monthOf: Day -> string)
    requires NonNegativeCounts(s)
    ensures Recommend(Drops(Annotate(s, monthOf))) == IntensifyCampaigns <==>
      exists i :: 0 < i < |s| && s[i - 1].count > 0.0 && s[i].count < 0.8 * s[i - 1].count
  {
    RecommendationFollowsDrops(s, monthOf);
    forall i | 0 < i < |s|
      ensures IsDrop(PctChange(s[i - 1].count, s[i].count)) <==>
        s[i - 1].count > 0.0 && s[i].count < 0.8 * s[i - 1].count
    {
      DropIffSharpFall(s, monthOf, i);
    }
  }

  /** What the page shows for one upload: the annotated table (which the
      CSV download also holds), the drop lines, the forecast lines and the
      recommendation. */
  datatype Report = Report(rows: seq<Row>, drops: seq<DropLine>, forecast: seq<ForecastLine>,
                           recommendation: Recommendation)

  /** Lines 22-88 for a file parsed into `data`, the municipality picked
      (None when the file has no `municipio` column) and the calendar's
      month label. Fitting a series with no rows raises, and then no report
      is shown. */
  function Analyze(data: seq<Record>, selected: Option<string>, monthOf: Day -> string)
    : (r: Result<Report, ForecastError>)
    ensures r.Failure? <==> Prepare(data, selected) == []
    ensures r.Success? ==>
      && r.value.rows == Annotate(Prepare(data, selected), monthOf)
      && r.value.drops == DropReport(r.value.rows)
      && r.value.forecast == DisplayForecast(Forecast(Prepare(data, selected)).value, monthOf)
      && |r.value.forecast| == Horizon
      && (r.value.recommendation == IntensifyCampaigns <==> r.value.drops != [])
    ensures r.Success? ==>
      (r.value.recommendation == IntensifyCampaigns <==>
         exists i :: 0 < i < |Prepare(data, selected)|
           && IsDrop(PctChange(Prepare(data, selected)[i - 1].count, Prepare(data, selected)[i].count)))
  {
    var s := Prepare(data, selected);
    var rows := Annotate(s, monthOf);
    RecommendationFollowsDrops(s, monthOf);
    match Forecast(s)
    case Failure(e) => Failure(e)
    case Success(pts) =>
      Success(Report(rows, DropReport(rows), DisplayForecast(pts, monthOf), Recommend(Drops(rows))))
  }

  /** A non-empty file gives a report whenever the municipality picked is
      one the picker offers. */
  lemma OfferedChoiceGivesReport(data: seq<Record>, selected: Option<string>, monthOf: Day -> string)
    requires data != []
    requires selected.Some? ==> selected.value in Municipalities(SortByDate(data))
    ensures Analyze(data, selected, monthOf).Success?
  {
    match selected
    case None =>
      assert |SortByDate(data)| == |data| by {
        assert |multiset(SortByDate(data))| == |multiset(data)|;
      }
    case Some(m) =>
      OfferedMunicipalityIsNonEmpty(SortByDate(data), m);
  }

  /** A non-empty file already in date order, with no municipality column,
      is reported as it stands: the report is built from the file's own rows
      and the forecast of its own series. */
  lemma OrderedFileReport(s: seq<Record>, monthOf: Day -> string)
    requires StrictlyIncreasingDates(s) && s != []
    ensures Forecast(s).Success?
    ensures Analyze(s, None, monthOf)
         == Success(Report(Annotate(s, monthOf), DropReport(Annotate(s, monthOf)),
                           DisplayForecast(Forecast(s).value, monthOf), Recommend(Drops(Annotate(s, monthOf)))))
  {
    SortKeepsOrderedSeries(s);
  }

  // A worked example: four monthly counts with one sharp fall.

  function Example(): seq<Record> {
    [Record(19723, 100.0, None), Record(19754, 100.0, None),
     Record(19783, 70.0, None), Record(19814, 90.0, None)]
  }

  /** The counts 100, 100, 70, 90 (first days of January to April 2024)
      change by 0%, -30% and +28.6%; the one drop is reported as a fall of
      30% from 100 to 70, the fitted line is 99 - 6 i, the forecasts for
      the next three 30-day steps are 75, 69 and 63, and campaigns are
      recommended. */
  lemma ExampleReport(monthOf: Day -> string)
    ensures Analyze(Example(), None, monthOf).Success?
    ensures Analyze(Example(), None, monthOf).value.drops
         == [DropLine(monthOf(19783), Finite(30.0), Some(100.0), 70.0)]
    ensures Analyze(Example(), None, monthOf).value.forecast
         == [ForecastLine(monthOf(19844), 75), ForecastLine(monthOf(19874), 69), ForecastLine(monthOf(19904), 63)]
    ensures Analyze(Example(), None, monthOf).value.recommendation == IntensifyCampaigns
  {
    assert StrictlyIncreasingDates(Example());
    ExampleForecast();
    OrderedFileReport(Example(), monthOf);
    ExampleDrops(monthOf);
    ExampleDropLines(monthOf);
    ExampleForecastLines(monthOf);
  }

  /** The only drop of the example is its third row, a change of -30%. */
  lemma ExampleDrops(monthOf: Day -> string)
    ensures Drops(Annotate(Example(), monthOf)) == [Annotate(Example(), monthOf)[2]]
    ensures Annotate(Example(), monthOf)[2].change == Finite(-30.0)
  {
    var s := Example();
    var rows := Annotate(s, monthOf);
    var m := DropMask();
    assert PctChange(s[1].count, s[2].count) == Finite(-30.0);
    assert PctChange(s[0].count, s[1].count) == Finite(0.0);
    assert PctChange(s[2].count, s[3].count) == Finite((90.0 / 70.0 - 1.0) * 100.0);
    assert !m(rows[0]) && !m(rows[1]) && m(rows[2]) && !m(rows[3]);
    assert Filter(rows[..1], m) == [] by {
      assert rows[..1][..0] == [];
    }
    assert Filter(rows[..2], m) == [] by {
      assert rows[..2][..1] == rows[..1];
    }
    assert Filter(rows[..3], m) == [rows[2]] by {
      assert rows[..3][..2] == rows[..2];
    }
    assert rows[..|rows| - 1] == rows[..3];
  }

  /** The example's one report line: a 30% fall from 100 to 70. */
  lemma ExampleDropLines(monthOf: Day -> string)
    ensures DropReport(Annotate(Example(), monthOf))
         == [DropLine(monthOf(19783), Finite(30.0), Some(100.0), 70.0)]
  {
    var s := Example();
    var rows := Annotate(s, monthOf);
    ExampleDrops(monthOf);
    AnnotateKeepsDates(s, monthOf);
    PreviousRowIsPredecessor(rows, 2);
    assert ReportLine(rows, rows[2]) == DropLine(monthOf(19783), Finite(30.0), Some(100.0), 70.0);
  }

  /** The line fitted to the example's counts is 99 - 6 i, so the forecasts
      are 75, 69 and 63. */
  lemma ExampleForecast()
    ensures Forecast(Example()).Success?
    ensures Forecast(Example()).value
         == [ForecastPoint(19844, 75.0), ForecastPoint(19874, 69.0), ForecastPoint(19904, 63.0)]
  {
    var ys := Counts(Example());
    assert ys == [100.0, 100.0, 70.0, 90.0];
    var g := Line(-6.0, 99.0);
    assert ResidualsOf(ys, g, 0) == ResidualTotals(0.0, 0.0);
    var e0 := ResidualsStep(ys, g, 1);
    var e1 := ResidualsStep(ys, g, 2);
    var e2 := ResidualsStep(ys, g, 3);
    var e3 := ResidualsStep(ys, g, 4);
    assert e0 == 1.0 && e1 == 7.0 && e2 == -17.0 && e3 == 9.0;
    ZeroResidualsIsFit(ys, g);
    ForecastAlong(Example(), -6.0, 99.0);
  }

  /** The example's forecasts as shown: truncation leaves 75, 69 and 63. */
  lemma ExampleForecastLines(monthOf: Day -> string)
    ensures DisplayForecast([ForecastPoint(19844, 75.0), ForecastPoint(19874, 69.0), ForecastPoint(19904, 63.0)], monthOf)
         == [ForecastLine(monthOf(19844), 75), ForecastLine(monthOf(19874), 69), ForecastLine(monthOf(19904), 63)]
  {
    assert TruncateTowardZero(75.0) == 75;
    assert TruncateTowardZero(69.0) == 69;
    assert TruncateTowardZero(63.0) == 63;
  }
}
