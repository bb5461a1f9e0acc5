/** Loading and selecting the series (analisador_vacinacao.py, lines 22-29):
    the parsed rows are ordered by date and, when the file has a `municipio`
    column, restricted to the municipality the user picked. */
module Loader {
  import opened Wrappers
  import opened Sequences

  /** A calendar date as a day number (days since a fixed epoch). */
  type Day = int

  /** One parsed CSV row: `data`, `vacinas` and the optional `municipio`
      cell (None when the file has no such column or the cell is empty). */
  datatype Record = Record(date: Day, count: real, municipio: Option<string>)

  ghost predicate SortedByDate(s: seq<Record>) {
    forall i, j :: 0 <= i < j < |s| ==> s[i].date <= s[j].date
  }

  ghost predicate StrictlyIncreasingDates(s: seq<Record>) {
    forall i, j :: 0 <= i < j < |s| ==> s[i].date < s[j].date
  }

  /** Places `x` in a series already ordered by date. */
  function Insert(x: Record, s: seq<Record>): (r: seq<Record>)
    requires SortedByDate(s)
    ensures SortedByDate(r)
    ensures multiset(r) == multiset(s) + multiset{x}
    ensures s != [] ==> r[0] == x || r[0] == s[0]
  {
    if s == [] then [x]
    else if x.date <= s[0].date then
      ConsSorted(x, s);
      [x] + s
    else
      var rest := Insert(x, s[1..]);
      assert s == [s[0]] + s[1..];
      ConsSorted(s[0], rest);
      [s[0]] + rest
  }

  /** A row no later than the first row of an ordered series can go in front. */
  lemma ConsSorted(h: Record, t: seq<Record>)
    requires SortedByDate(t)
    requires t != [] ==> h.date <= t[0].date
    ensures SortedByDate([h] + t)
  {
  }

  /** `data.sort_values('data')`: the same rows, ordered by date. The order
      among rows sharing a date is not part of the contract, because the
      default pandas sort is not stable. */
  function SortByDate(s: seq<Record>): (r: seq<Record>)
    ensures SortedByDate(r)
    ensures multiset(r) == multiset(s)
  {
    if s == [] then []
    else
      assert s == [s[0]] + s[1..];
      Insert(s[0], SortByDate(s[1..]))
  }

  /** When no two rows share a date, there is only one way to order them:
      any date-ordered permutation of a strictly increasing series is that
      series itself. */
  lemma {:induction false} SortedPermutationIsUnique(a: seq<Record>, b: seq<Record>)
    requires StrictlyIncreasingDates(a)
    requires SortedByDate(b)
    requires multiset(a) == multiset(b)
    ensures a == b
  {
    if a != [] {
      HeadsAgree(a, b);
      DropHead(a);
      DropHead(b);
      SortedPermutationIsUnique(a[1..], b[1..]);
      assert a == [a[0]] + a[1..];
      assert b == [b[0]] + b[1..];
    }
  }

  /** The earliest row of a strictly increasing series is also the first row
      of any date-ordered permutation of it. */
  lemma HeadsAgree(a: seq<Record>, b: seq<Record>)
    requires a != []
    requires StrictlyIncreasingDates(a)
    requires SortedByDate(b)
    requires multiset(a) == multiset(b)
    ensures b != [] && a[0] == b[0]
  {
    assert |b| == |a| by {
      assert |multiset(a)| == |multiset(b)|;
    }
    assert a[0] in multiset(b);
    var j :| 0 <= j < |b| && b[j] == a[0];
    assert b[0] in multiset(a);
    var i :| 0 <= i < |a| && a[i] == b[0];
    assert a[0].date == b[j].date >= b[0].date == a[i].date;
  }

  lemma DropHead(s: seq<Record>)
    requires s != []
    ensures multiset(s[1..]) == multiset(s) - multiset{s[0]}
  {
    assert s == [s[0]] + s[1..];
  }

  /** Sorting a series whose dates already strictly increase leaves it as it is. */
  lemma SortKeepsOrderedSeries(s: seq<Record>)
    requires StrictlyIncreasingDates(s)
    ensures SortByDate(s) == s
  {
    SortedPermutationIsUnique(s, SortByDate(s));
  }

  /** The `vacinas` column as a sequence of values. */
  function Counts(s: seq<Record>): (v: seq<real>)
    ensures |v| == |s|
    ensures forall i :: 0 <= i < |s| ==> v[i] == s[i].count
  {
    seq(|s|, i requires 0 <= i < |s| => s[i].count)
  }

  ghost predicate NonNegativeCounts(s: seq<Record>) {
    forall i :: 0 <= i < |s| ==> s[i].count >= 0.0
  }

  /** The values the municipality picker offers: `data['municipio'].unique()`. */
  function Municipalities(s: seq<Record>): (ms: set<string>)
    ensures forall m :: m in ms <==> exists i :: 0 <= i < |s| && s[i].municipio == Some(m)
  {
    set i | 0 <= i < |s| && s[i].municipio.Some? :: s[i].municipio.value
  }

  function InMunicipality(m: string): Record -> bool {
    (r: Record) => r.municipio == Some(m)
  }

  /** `data[data['municipio'] == selected]`; `selected` is None when the file
      has no `municipio` column, and then every row is kept. */
  function SelectMunicipality(s: seq<Record>, selected: Option<string>): (r: seq<Record>)
    ensures selected.None? ==> r == s
    ensures selected.Some? ==> forall k :: 0 <= k < |r| ==> r[k] in s && r[k].municipio == selected
    ensures selected.Some? ==> forall i :: 0 <= i < |s| && s[i].municipio == selected ==> s[i] in r
  {
    match selected
    case None => s
    case Some(m) =>
      FilterMembers(s, InMunicipality(m));
      Filter(s, InMunicipality(m))
  }

  /** Picking any municipality the picker offers leaves a non-empty series. */
  lemma OfferedMunicipalityIsNonEmpty(s: seq<Record>, m: string)
    requires m in Municipalities(s)
    ensures SelectMunicipality(s, Some(m)) != []
  {
    var i :| 0 <= i < |s| && s[i].municipio == Some(m);
    assert s[i] in SelectMunicipality(s, Some(m));
  }

  /** Selection keeps the relative order of the rows it keeps. */
  lemma {:induction false} SelectKeepsOrder(s: seq<Record>, m: string)
    requires SortedByDate(s)
    ensures SortedByDate(SelectMunicipality(s, Some(m)))
  {
    var p := InMunicipality(m);
    FilterIsSelection(s, p);
    var r, ix := Filter(s, p), Positions(s, p);
    forall i, j | 0 <= i < j < |r| ensures r[i].date <= r[j].date {
      assert r[i] == s[ix[i]] && r[j] == s[ix[j]];
    }
  }

  /** Sorting neither loses nor invents a row. */
  lemma SortKeepsRows(s: seq<Record>)
    ensures forall k :: 0 <= k < |SortByDate(s)| ==> SortByDate(s)[k] in s
    ensures forall i :: 0 <= i < |s| ==> s[i] in SortByDate(s)
  {
    var sorted := SortByDate(s);
    forall k | 0 <= k < |sorted|
      ensures sorted[k] in s
    {
      assert sorted[k] in multiset(sorted);
    }
    forall i | 0 <= i < |s|
      ensures s[i] in sorted
    {
      assert s[i] in multiset(s);
    }
  }

  /** The series the analysis runs on: lines 24 and 29 in that order. */
  function Prepare(s: seq<Record>, selected: Option<string>): (r: seq<Record>)
    ensures SortedByDate(r)
    ensures forall k :: 0 <= k < |r| ==> r[k] in s && (selected.Some? ==> r[k].municipio == selected)
    ensures forall i :: 0 <= i < |s| && (selected.None? || s[i].municipio == selected) ==> s[i] in r
  {
    var sorted := SortByDate(s);
    SortKeepsRows(s);
    if selected.Some? then SelectKeepsOrder(sorted, selected.value); SelectMunicipality(sorted, selected)
    else SelectMunicipality(sorted, selected)
  }

  /** The prepared series is ordered by date and holds exactly the input rows
      of the selected municipality (all rows when there is no such column),
      each as often as in the input. */
  lemma PrepareIsSortedSelection(s: seq<Record>, selected: Option<string>)
    ensures SortedByDate(Prepare(s, selected))
    ensures selected.None? ==> multiset(Prepare(s, selected)) == multiset(s)
    ensures selected.Some? ==>
      multiset(Prepare(s, selected)) == multiset(Filter(s, InMunicipality(selected.value)))
  {
    if selected.Some? {
      SelectKeepsOrder(SortByDate(s), selected.value);
      FilterOfPermutation(SortByDate(s), s, InMunicipality(selected.value));
    }
  }
}
