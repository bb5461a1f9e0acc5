/** Period-over-period change and drop detection (analisador_vacinacao.py,
    lines 41-45 and the drop report of lines 61-69). */
module ChangeDetector {
  import opened Wrappers
  import opened Sequences
  import opened Loader

  /** A percent change as the float column holds it: a finite value, or one
      of the non-finite outcomes of dividing by a zero predecessor. NaN also
      stands in the first row, which has no predecessor. */
  datatype Pct = NaN | PosInf | NegInf | Finite(value: real)

  /** A change strictly below this is a significant drop. */
  const DropThreshold: real := -20.0

  /** One step of `pct_change() * 100`: (cur / prev - 1) * 100, with the
      float outcomes of a zero predecessor: +inf, -inf, or NaN for 0 / 0. */
  function PctChange(prev: real, cur: real): (c: Pct)
    ensures prev != 0.0 ==> c == Finite((cur - prev) / prev * 100.0)
    ensures prev != 0.0 ==> cur == prev * (1.0 + c.value / 100.0)
    ensures prev == 0.0 ==> !c.Finite? && (c == NaN <==> cur == 0.0) && (c == NegInf <==> cur < 0.0)
  {
    if prev == 0.0 then
      if cur > 0.0 then PosInf else if cur < 0.0 then NegInf else NaN
    else
      PandasRatio(prev, cur);
      Finite((cur / prev - 1.0) * 100.0)
  }

  /** pandas computes the change as a ratio minus one; over exact numbers
      that is the difference over the predecessor, and it undoes. */
  lemma PandasRatio(prev: real, cur: real)
    requires prev != 0.0
    ensures cur / prev - 1.0 == (cur - prev) / prev
    ensures cur == prev * (1.0 + (cur / prev - 1.0) * 100.0 / 100.0)
  {
    var r, q := cur / prev, (cur - prev) / prev;
    assert r * prev == cur;
    assert q * prev == cur - prev;
    var z := r - 1.0 - q;
    assert z * prev == 0.0;
    assert z == (z * prev) / prev;
    assert (q * 100.0) / 100.0 == q;
  }

  /** `variacao_percentual < -20` under float comparison: NaN and +inf
      compare false, -inf compares true. */
  predicate IsDrop(c: Pct): (b: bool)
    ensures c == NaN || c == PosInf ==> !b
    ensures c == NegInf ==> b
    ensures c.Finite? ==> (b <==> c.value < DropThreshold)
  {
    match c
    case Finite(v) => v < DropThreshold
    case NegInf => true
    case _ => false
  }

  /** A step from a positive count is a drop exactly when the new count is
      below four fifths of the previous one; a fall of exactly 20% is not a
      drop. */
  lemma DropIsFallBelowFourFifths(prev: real, cur: real)
    requires prev > 0.0
    ensures IsDrop(PctChange(prev, cur)) <==> cur < 0.8 * prev
  {
    FallBelowFourFifths(prev, cur);
  }

  lemma FallBelowFourFifths(prev: real, cur: real)
    requires prev > 0.0
    ensures (cur - prev) / prev * 100.0 < DropThreshold <==> cur < 0.8 * prev
  {
    var q := (cur - prev) / prev;
    assert q * prev == cur - prev;
    assert q * 100.0 < DropThreshold <==> q < -0.2;
    ScaleByPositive(q, -0.2, prev);
  }

  lemma ScaleByPositive(q: real, t: real, p: real)
    requires p > 0.0
    ensures q < t <==> q * p < t * p
  {
    if q < t {
      assert (t - q) * p > 0.0;
    } else {
      assert (q - t) * p >= 0.0;
    }
  }

  /** With counts that are never negative, a zero predecessor (inf or NaN in
      the column) never yields a drop. */
  lemma ZeroPredecessorIsNoDrop(cur: real)
    requires cur >= 0.0
    ensures !IsDrop(PctChange(0.0, cur))
  {
  }

  /** A negative count after a zero gives -inf, which the source's
      comparison does count as a drop. */
  lemma NegativeAfterZeroIsDrop(cur: real)
    requires cur < 0.0
    ensures PctChange(0.0, cur) == NegInf && IsDrop(PctChange(0.0, cur))
  {
  }

  /** A row of the series with the two columns the analysis adds:
      `variacao_percentual` and `mes` (the `%Y-%m` label of the date). */
  datatype Row = Row(record: Record, change: Pct, month: string)

  /** Lines 41-42: the series with its percent-change and month columns.
      `monthOf` is the calendar's year-month label of a day. */
  function Annotate(s: seq<Record>, monthOf: Day -> string): (rows: seq<Row>)
    ensures |rows| == |s|
    ensures forall i {:trigger rows[i]} :: 0 <= i < |s| ==>
      rows[i].record == s[i] && rows[i].month == monthOf(s[i].date)
    ensures |s| > 0 ==> rows[0].change == NaN
    ensures forall i {:trigger rows[i]} :: 0 < i < |s| ==>
      rows[i].change == PctChange(s[i - 1].count, s[i].count)
  {
    seq(|s|, i requires 0 <= i < |s| =>
      Row(s[i], if i == 0 then NaN else PctChange(s[i - 1].count, s[i].count), monthOf(s[i].date)))
  }

  function DropMask(): Row -> bool {
    (r: Row) => IsDrop(r.change)
  }

  /** Line 45: `data[data['variacao_percentual'] < -20]`. */
  function Drops(rows: seq<Row>): (r: seq<Row>)
    ensures forall k :: 0 <= k < |r| ==> r[k] in rows && IsDrop(r[k].change)
    ensures forall i :: 0 <= i < |rows| && IsDrop(rows[i].change) ==> rows[i] in r
  {
    FilterMembers(rows, DropMask());
    Filter(rows, DropMask())
  }

  /** The drops of a series are its rows, in order, whose step from the
      previous row is a drop; the first row never is one. */
  lemma {:induction false} DropsOfSeries(s: seq<Record>, monthOf: Day -> string)
    ensures var rows := Annotate(s, monthOf); var ix := Positions(rows, DropMask());
      && |Drops(rows)| == |ix|
      && (forall k :: 0 <= k < |ix| ==>
            && 0 < ix[k] < |s|
            && Drops(rows)[k] == rows[ix[k]]
            && IsDrop(PctChange(s[ix[k] - 1].count, s[ix[k]].count)))
      && (forall i :: 0 < i < |s| && IsDrop(PctChange(s[i - 1].count, s[i].count)) ==> i in ix)
  {
    var rows := Annotate(s, monthOf);
    FilterIsSelection(rows, DropMask());
    var ix := Positions(rows, DropMask());
    forall k | 0 <= k < |ix| ensures 0 < ix[k] {
      assert DropMask()(rows[ix[k]]);
    }
    forall i | 0 < i < |s| && IsDrop(PctChange(s[i - 1].count, s[i].count)) ensures i in ix {
      assert DropMask()(rows[i]);
    }
  }

  /** With counts that are never negative, the drops are exactly the steps
      from a positive count to less than four fifths of it. */
  lemma DropIffSharpFall(s: seq<Record>, monthOf: Day -> string, i: nat)
    requires NonNegativeCounts(s)
    requires i < |s|
    ensures IsDrop(Annotate(s, monthOf)[i].change) <==>
      0 < i && s[i - 1].count > 0.0 && s[i].count < 0.8 * s[i - 1].count
  {
    if 0 < i {
      if s[i - 1].count > 0.0 {
        DropIsFallBelowFourFifths(s[i - 1].count, s[i].count);
      } else {
        ZeroPredecessorIsNoDrop(s[i].count);
      }
    }
  }

  function DatedBefore(d: Day): Row -> bool {
    (r: Row) => r.record.date < d
  }

  /** Line 63: the last row dated strictly before `d`, or None. */
  function PreviousRow(rows: seq<Row>, d: Day): (r: Option<Row>)
    ensures r.Some? ==> r.value in rows && r.value.record.date < d
    ensures r.None? <==> forall i :: 0 <= i < |rows| ==> rows[i].record.date >= d
  {
    FilterMembers(rows, DatedBefore(d));
    var before := Filter(rows, DatedBefore(d));
    if before == [] then None else Some(before[|before| - 1])
  }

  /** The row found is the last one dated before `d`: no later row is. */
  lemma PreviousRowIsLastEarlier(rows: seq<Row>, d: Day) returns (j: nat)
    requires PreviousRow(rows, d).Some?
    ensures j < |rows| && rows[j] == PreviousRow(rows, d).value
    ensures forall k :: j < k < |rows| ==> rows[k].record.date >= d
  {
    j := LastSelected(rows, DatedBefore(d));
  }

  ghost predicate RowsStrictlyIncreasing(rows: seq<Row>) {
    forall i, j :: 0 <= i < j < |rows| ==> rows[i].record.date < rows[j].record.date
  }

  /** When dates strictly increase, the row found for row i is row i - 1,
      the same predecessor `pct_change` used. */
  lemma PreviousRowIsPredecessor(rows: seq<Row>, i: nat)
    requires RowsStrictlyIncreasing(rows)
    requires i < |rows|
    ensures PreviousRow(rows, rows[i].record.date) == if i == 0 then None else Some(rows[i - 1])
  {
    var d := rows[i].record.date;
    if i > 0 {
      assert rows[i - 1].record.date < d;
      var j := PreviousRowIsLastEarlier(rows, d);
      assert rows[j].record.date < d;
    } else {
      assert forall k :: 0 <= k < |rows| ==> rows[k].record.date >= d;
    }
  }

  lemma AnnotateKeepsDates(s: seq<Record>, monthOf: Day -> string)
    requires StrictlyIncreasingDates(s)
    ensures RowsStrictlyIncreasing(Annotate(s, monthOf))
  {
  }

  /** Two rows sharing a date: the second is a drop from the first, yet no
      row is dated before it, so its report line shows no previous value. */
  lemma SharedDateHidesPredecessor()
    ensures var s := [Record(0, 100.0, None), Record(0, 50.0, None)];
      var rows := Annotate(s, _ => "");
      IsDrop(rows[1].change) && PreviousRow(rows, s[1].date) == None
  {
    var s := [Record(0, 100.0, None), Record(0, 50.0, None)];
    var rows := Annotate(s, _ => "");
    assert rows[1].change == Finite(-50.0);
  }

  /** The magnitude the report prints: `abs(variacao_percentual)`. */
  function Magnitude(c: Pct): (m: Pct)
    ensures c.Finite? ==> m.Finite? && m.value >= 0.0 && (m.value == c.value || m.value == -c.value)
    ensures c == NegInf || c == PosInf ==> m == PosInf
    ensures c == NaN ==> m == NaN
    ensures IsDrop(c) ==> !IsDrop(m) && m != NaN
  {
    match c
    case Finite(v) => Finite(if v < 0.0 then -v else v)
    case NegInf => PosInf
    case _ => c
  }

  /** One line of the drop list: the month label, the size of the drop, the
      previous count (None prints "dados iniciais") and the current count. */
  datatype DropLine = DropLine(month: string, fall: Pct, previous: Option<real>, current: real)

  /** The line for drop row `d`: its month, the size of its change and its
      count, and the count of a row dated before it when there is one. */
  function ReportLine(rows: seq<Row>, d: Row): (line: DropLine)
    ensures line.month == d.month && line.current == d.record.count
    ensures line.fall == Magnitude(d.change)
    ensures line.previous.None? <==> forall i :: 0 <= i < |rows| ==> rows[i].record.date >= d.record.date
    ensures line.previous.Some? ==>
      exists i :: 0 <= i < |rows| && rows[i].record.date < d.record.date && rows[i].record.count == line.previous.value
  {
    var previous := match PreviousRow(rows, d.record.date)
      case Some(p) => Some(p.record.count)
      case None => None;
    DropLine(d.month, Magnitude(d.change), previous, d.record.count)
  }

  /** Lines 61-67: one line per drop, in order. The k-th line shows the
      k-th drop's month, the size of its change and its count, and the count
      of the row `PreviousRow` finds: the last row dated strictly before it
      (`PreviousRowIsLastEarlier`), which need not be the row just before it
      when dates repeat. */
  function DropReport(rows: seq<Row>): (lines: seq<DropLine>)
    ensures |lines| == |Drops(rows)|
    ensures forall k :: 0 <= k < |lines| ==>
      && lines[k].month == Drops(rows)[k].month
      && lines[k].fall == Magnitude(Drops(rows)[k].change)
      && lines[k].current == Drops(rows)[k].record.count
      && lines[k].previous == match PreviousRow(rows, Drops(rows)[k].record.date)
           case Some(p) => Some(p.record.count)
           case None => None
  {
    seq(|Drops(rows)|, k requires 0 <= k < |Drops(rows)| => ReportLine(rows, Drops(rows)[k]))
  }

  /** For a series with strictly increasing dates and counts that are never
      negative, the k-th report line is about some row i > 0 that is the k-th
      drop: it names that row's month, its fall in percent from row i - 1,
      which exceeds 20, and the counts of rows i - 1 and i. */
  lemma DropReportDescribesFall(s: seq<Record>, monthOf: Day -> string, k: nat) returns (i: nat)
    requires StrictlyIncreasingDates(s)
    requires NonNegativeCounts(s)
    requires k < |DropReport(Annotate(s, monthOf))|
    ensures 0 < i < |s|
    ensures Drops(Annotate(s, monthOf))[k] == Annotate(s, monthOf)[i]
    ensures DropReport(Annotate(s, monthOf))[k] ==
      DropLine(monthOf(s[i].date), Finite((s[i - 1].count - s[i].count) / s[i - 1].count * 100.0),
               Some(s[i - 1].count), s[i].count)
    ensures (s[i - 1].count - s[i].count) / s[i - 1].count * 100.0 > -DropThreshold
  {
    var rows := Annotate(s, monthOf);
    AnnotateKeepsDates(s, monthOf);
    i := DropReportLine(rows, k);
    assert i != 0 by {
      assert |s| > 0 ==> rows[0].change == NaN;
    }
    var prev, cur := s[i - 1].count, s[i].count;
    assert rows[i].change == PctChange(prev, cur);
    assert rows[i - 1].record.count == prev && rows[i].record.count == cur;
    DropIffSharpFall(s, monthOf, i);
    FallMagnitude(prev, cur);
  }

  /** Over rows with strictly increasing dates, the k-th report line is
      built from the k-th drop, row i, and row i - 1 before it. */
  lemma DropReportLine(rows: seq<Row>, k: nat) returns (i: nat)
    requires RowsStrictlyIncreasing(rows)
    requires k < |DropReport(rows)|
    ensures i < |rows| && Drops(rows)[k] == rows[i] && IsDrop(rows[i].change)
    ensures DropReport(rows)[k] == DropLine(rows[i].month, Magnitude(rows[i].change),
      if i == 0 then None else Some(rows[i - 1].record.count), rows[i].record.count)
  {
    FilterIsSelection(rows, DropMask());
    i := Positions(rows, DropMask())[k];
    PreviousRowIsPredecessor(rows, i);
    assert DropReport(rows)[k] == ReportLine(rows, rows[i]);
  }

  /** The printed size of a drop is the fall relative to the predecessor,
      and it exceeds 20 percent. */
  lemma FallMagnitude(prev: real, cur: real)
    requires prev != 0.0
    requires IsDrop(PctChange(prev, cur))
    ensures Magnitude(PctChange(prev, cur)) == Finite((prev - cur) / prev * 100.0)
    ensures (prev - cur) / prev * 100.0 > -DropThreshold
  {
    var q := (cur - prev) / prev;
    assert q * prev == cur - prev;
    assert (prev - cur) / prev == -q;
  }
}
