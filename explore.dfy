/**
 * What the dashboard derives from the cleaned table: the Year selection and
 * filter, the per-Year crash counts and fatality sums, and the top-10 value
 * counts of Country/Region and Aircraft Manufacturer.
 */
module Explore {
  import opened Wrappers
  import opened Seqs
  import opened Crash

  /** The distinct Years of the table: the default selection. */
  function AllYears(t: seq<Row>): set<int> {
    set r | r in t :: r.year
  }

  /** `df[df['Year'].isin(years)]`: the rows whose Year is selected, in order. */
  function FilterYears(t: seq<Row>, years: set<int>): (u: seq<Row>)
    ensures |u| <= |t|
    ensures forall i :: 0 <= i < |u| ==> u[i] in t && u[i].year in years
    ensures forall i :: 0 <= i < |t| && t[i].year in years ==> t[i] in u
  {
    if t == [] then []
    else
      var rest := FilterYears(t[1..], years);
      assert forall i :: 1 <= i < |t| ==> t[i] == t[1..][i - 1];
      (if t[0].year in years then [t[0]] else []) + rest
  }

  /** Filtering keeps the original order: it distributes over concatenation. */
  lemma {:induction false} FilterAppend(t: seq<Row>, u: seq<Row>, years: set<int>)
    ensures FilterYears(t + u, years) == FilterYears(t, years) + FilterYears(u, years)
  {
    if t == [] {
      assert t + u == u;
    } else {
      assert (t + u)[0] == t[0] && (t + u)[1..] == t[1..] + u;
      FilterAppend(t[1..], u, years);
    }
  }

  /** Selecting every Year of the table keeps the whole table; more generally,
      a selection covering all the Years present keeps every row. */
  lemma {:induction false} FilterAll(t: seq<Row>, years: set<int>)
    requires AllYears(t) <= years
    ensures FilterYears(t, years) == t
  {
    if t != [] {
      assert t[0] in t;
      assert AllYears(t[1..]) <= AllYears(t) by {
        forall y | y in AllYears(t[1..]) ensures y in AllYears(t) {
          var r :| r in t[1..] && r.year == y;
          assert r in t;
        }
      }
      FilterAll(t[1..], years);
      assert t == [t[0]] + t[1..];
    }
  }

  lemma DefaultSelectionKeepsAll(t: seq<Row>)
    ensures FilterYears(t, AllYears(t)) == t
  {
    FilterAll(t, AllYears(t));
  }

  /** Filtering twice is filtering by the common Years. */
  lemma {:induction false} FilterTwice(t: seq<Row>, a: set<int>, b: set<int>)
    ensures FilterYears(FilterYears(t, a), b) == FilterYears(t, a * b)
  {
    if t != [] {
      FilterTwice(t[1..], a, b);
      var head := if t[0].year in a then [t[0]] else [];
      FilterAppend(head, FilterYears(t[1..], a), b);
    }
  }

  /** `groupby('Year')`: the rows of one Year, in table order. */
  function Group(t: seq<Row>, y: int): seq<Row> {
    FilterYears(t, {y})
  }

  ghost predicate StrictlyAscending(s: seq<int>) {
    forall i, j :: 0 <= i < j < |s| ==> s[i] < s[j]
  }

  /** Adds `y` to a strictly ascending sequence unless it is already there. */
  function InsertYear(y: int, s: seq<int>): (r: seq<int>)
    requires StrictlyAscending(s)
    ensures StrictlyAscending(r)
    ensures forall x :: x in r <==> x == y || x in s
    ensures r != [] && (r[0] == y || (s != [] && r[0] == s[0]))
  {
    if s == [] || y < s[0] then [y] + s
    else if y == s[0] then s
    else [s[0]] + InsertYear(y, s[1..])
  }

  /** The group keys of `groupby('Year')`: the distinct Years, ascending. */
  function YearsAscending(t: seq<Row>): (ys: seq<int>)
    ensures StrictlyAscending(ys)
    ensures forall y :: y in ys <==> y in AllYears(t)
  {
    if t == [] then []
    else
      var ys := InsertYear(t[0].year, YearsAscending(t[1..]));
      assert forall y :: y in AllYears(t) <==> y == t[0].year || y in AllYears(t[1..]) by {
        assert t == [t[0]] + t[1..];
      }
      ys
  }

  /** `groupby('Year').size()`: each Year with its number of rows. */
  function CrashesPerYear(t: seq<Row>): seq<(int, nat)> {
    var ys := YearsAscending(t);
    seq(|ys|, i requires 0 <= i < |ys| => (ys[i], |Group(t, ys[i])|))
  }

  /** Sum of the non-missing Fatalities (air) values (`sum` skips NaN). */
  function SumFatalities(t: seq<Row>): real {
    if t == [] then 0.0
    else t[0].fatalities.GetOr(0.0) + SumFatalities(t[1..])
  }

  /** `groupby('Year')['Fatalities (air)'].sum()`. */
  function FatalitiesPerYear(t: seq<Row>): seq<(int, real)> {
    var ys := YearsAscending(t);
    seq(|ys|, i requires 0 <= i < |ys| => (ys[i], SumFatalities(Group(t, ys[i]))))
  }

  function SumCounts(s: seq<(int, nat)>): nat {
    if s == [] then 0 else s[0].1 + SumCounts(s[1..])
  }

  function SumTotals(s: seq<(int, real)>): real {
    if s == [] then 0.0 else s[0].1 + SumTotals(s[1..])
  }

  // Adding up group sizes over distinct keys.

  function GroupSizes(t: seq<Row>, ks: seq<int>): nat {
    if ks == [] then 0 else |Group(t, ks[0])| + GroupSizes(t, ks[1..])
  }

  function GroupFatalities(t: seq<Row>, ks: seq<int>): real {
    if ks == [] then 0.0 else SumFatalities(Group(t, ks[0])) + GroupFatalities(t, ks[1..])
  }

  lemma {:induction false} GroupSizesCons(r: Row, t: seq<Row>, ks: seq<int>)
    requires NoDups(ks)
    ensures GroupSizes([r] + t, ks) == (if r.year in ks then 1 else 0) + GroupSizes(t, ks)
  {
    if ks != [] {
      assert ([r] + t)[0] == r && ([r] + t)[1..] == t;
      assert NoDups(ks[1..]);
      GroupSizesCons(r, t, ks[1..]);
    }
  }

  lemma {:induction false} GroupFatalitiesCons(r: Row, t: seq<Row>, ks: seq<int>)
    requires NoDups(ks)
    ensures GroupFatalities([r] + t, ks)
      == (if r.year in ks then r.fatalities.GetOr(0.0) else 0.0) + GroupFatalities(t, ks)
  {
    if ks != [] {
      var g := Group([r] + t, ks[0]);
      assert ([r] + t)[0] == r && ([r] + t)[1..] == t;
      if r.year == ks[0] {
        assert g == [r] + Group(t, ks[0]);
        assert g[0] == r && g[1..] == Group(t, ks[0]);
        assert r.year !in ks[1..];
      } else {
        assert g == Group(t, ks[0]);
      }
      assert NoDups(ks[1..]);
      GroupFatalitiesCons(r, t, ks[1..]);
    }
  }

  /** Over keys that cover every Year once, the group sizes add up to the
      table size and the group sums to the table's fatality sum. */
  lemma {:induction false} GroupsPartition(t: seq<Row>, ks: seq<int>)
    requires NoDups(ks) && forall i :: 0 <= i < |t| ==> t[i].year in ks
    ensures GroupSizes(t, ks) == |t|
    ensures GroupFatalities(t, ks) == SumFatalities(t)
  {
    if t == [] {
      GroupsEmpty(ks);
    } else {
      assert t == [t[0]] + t[1..];
      GroupsPartition(t[1..], ks);
      GroupSizesCons(t[0], t[1..], ks);
      GroupFatalitiesCons(t[0], t[1..], ks);
    }
  }

  lemma {:induction false} GroupsEmpty(ks: seq<int>)
    ensures GroupSizes([], ks) == 0 && GroupFatalities([], ks) == 0.0
  {
    if ks != [] { GroupsEmpty(ks[1..]); }
  }

  lemma {:induction false} SumCountsIs(t: seq<Row>, ks: seq<int>)
    ensures SumCounts(seq(|ks|, i requires 0 <= i < |ks| => (ks[i], |Group(t, ks[i])|)))
      == GroupSizes(t, ks)
  {
    if ks != [] {
      var s := seq(|ks|, i requires 0 <= i < |ks| => (ks[i], |Group(t, ks[i])|));
      assert s[1..] == seq(|ks[1..]|, i requires 0 <= i < |ks[1..]| => (ks[1..][i], |Group(t, ks[1..][i])|));
      SumCountsIs(t, ks[1..]);
    }
  }

  lemma {:induction false} SumTotalsIs(t: seq<Row>, ks: seq<int>)
    ensures SumTotals(seq(|ks|, i requires 0 <= i < |ks| => (ks[i], SumFatalities(Group(t, ks[i])))))
      == GroupFatalities(t, ks)
  {
    if ks != [] {
      var s := seq(|ks|, i requires 0 <= i < |ks| => (ks[i], SumFatalities(Group(t, ks[i]))));
      assert s[1..] == seq(|ks[1..]|, i requires 0 <= i < |ks[1..]| => (ks[1..][i], SumFatalities(Group(t, ks[1..][i]))));
      SumTotalsIs(t, ks[1..]);
    }
  }

  /**
   * Crashes per Year: keyed by strictly ascending Year, exactly the Years of
   * the table, each with the (positive) number of its rows; the counts add up
   * to the number of rows.
   */
  lemma CrashesPerYearSpec(t: seq<Row>)
    ensures var c := CrashesPerYear(t);
      && (forall i, j :: 0 <= i < j < |c| ==> c[i].0 < c[j].0)
      && (forall y :: y in AllYears(t) <==> exists i :: 0 <= i < |c| && c[i].0 == y)
      && (forall i :: 0 <= i < |c| ==> c[i].1 == |Group(t, c[i].0)| && c[i].1 > 0)
      && SumCounts(c) == |t|
  {
    var ys := YearsAscending(t);
    var c := CrashesPerYear(t);
    forall y | y in AllYears(t) ensures exists i :: 0 <= i < |c| && c[i].0 == y {
      var i :| 0 <= i < |ys| && ys[i] == y;
      assert c[i].0 == y;
    }
    CountsPositive(t);
    CountsAddUp(t);
  }

  lemma CountsPositive(t: seq<Row>)
    ensures forall i :: 0 <= i < |CrashesPerYear(t)| ==> CrashesPerYear(t)[i].1 > 0
  {
    var ys := YearsAscending(t);
    var c := CrashesPerYear(t);
    forall i | 0 <= i < |c| ensures c[i].1 > 0 {
      assert ys[i] in AllYears(t);
      var r :| r in t && r.year == ys[i];
      var k :| 0 <= k < |t| && t[k] == r;
      assert r in Group(t, ys[i]);
    }
  }

  lemma CountsAddUp(t: seq<Row>)
    ensures SumCounts(CrashesPerYear(t)) == |t|
  {
    var ys := YearsAscending(t);
    assert NoDups(ys);
    GroupsPartition(t, ys);
    SumCountsIs(t, ys);
  }

  /** Fatalities per Year: the same keys, and the per-Year sums add up to the
      table's total of non-missing Fatalities (air). */
  lemma FatalitiesPerYearSpec(t: seq<Row>)
    ensures var f := FatalitiesPerYear(t);
      && |f| == |CrashesPerYear(t)|
      && (forall i :: 0 <= i < |f| ==> f[i].0 == CrashesPerYear(t)[i].0)
      && (forall i :: 0 <= i < |f| ==> f[i].1 == SumFatalities(Group(t, f[i].0)))
      && SumTotals(f) == SumFatalities(t)
  {
    var ys := YearsAscending(t);
    assert NoDups(ys);
    GroupsPartition(t, ys);
    SumTotalsIs(t, ys);
  }

  /** Selecting a single Year: every kept row has that Year, and the crashes
      per Year have exactly one entry, that Year with the number of its rows. */
  lemma SingleYearSelection(t: seq<Row>, y: int)
    requires y in AllYears(t)
    ensures forall i :: 0 <= i < |FilterYears(t, {y})| ==> FilterYears(t, {y})[i].year == y
    ensures CrashesPerYear(FilterYears(t, {y})) == [(y, |Group(t, y)|)]
  {
    var u := FilterYears(t, {y});
    OnlySelectedYears(t, {y});
    assert y in AllYears(u) by {
      var r :| r in t && r.year == y;
      var k :| 0 <= k < |t| && t[k] == r;
      assert r in u;
    }
    FilterAll(u, {y});
    OneKey(u, y);
    var c := CrashesPerYear(u);
    assert |c| == 1 && c[0] == (y, |Group(u, y)|);
  }

  lemma OnlySelectedYears(t: seq<Row>, years: set<int>)
    ensures AllYears(FilterYears(t, years)) <= years
  {
    var u := FilterYears(t, years);
    forall x | x in AllYears(u) ensures x in years {
      var q :| q in u && q.year == x;
      var j :| 0 <= j < |u| && u[j] == q;
    }
  }

  lemma OneKey(u: seq<Row>, y: int)
    requires y in AllYears(u) && AllYears(u) <= {y}
    ensures YearsAscending(u) == [y]
  {
    var ys := YearsAscending(u);
    assert y in ys;
    if |ys| > 1 {
      FirstTwo(ys);
      assert false;
    }
  }

  lemma FirstTwo(s: seq<int>)
    requires |s| > 1
    ensures s[0] in s && s[1] in s
  {
  }

  // value_counts().head(10)

  /** How many entries a top-N chart shows (`head(10)`). */
  const TopN: nat := 10

  /** The non-missing cells of a text column, in order (`value_counts`
      drops NaN), each as often as the column holds it. */
  function Present(vs: seq<Option<string>>): (ps: seq<string>)
    ensures forall i :: 0 <= i < |vs| && vs[i].Some? ==> vs[i].value in ps
    ensures forall i :: 0 <= i < |ps| ==> Some(ps[i]) in vs
  {
    if vs == [] then []
    else
      var rest := Present(vs[1..]);
      assert forall i :: 1 <= i < |vs| ==> vs[i] == vs[1..][i - 1];
      match vs[0]
      case Some(v) => [v] + rest
      case None => rest
  }

  /** Each value occurs among the present cells as often as the column holds it. */
  lemma {:induction false} PresentCounts(vs: seq<Option<string>>, v: string)
    ensures Occurrences(Present(vs), v) == Occurrences(vs, Some(v))
  {
    if vs != [] {
      PresentCounts(vs[1..], v);
    }
  }

  /** Sort key putting larger counts first. */
  function ByCountDescending(p: (string, nat)): real {
    -(p.1 as real)
  }

  /** Each distinct value with its number of occurrences, in first-seen order. */
  function Tally(ps: seq<string>): (pairs: seq<(string, nat)>)
    ensures forall i :: 0 <= i < |pairs| ==> pairs[i].1 == Occurrences(ps, pairs[i].0)
    ensures forall v :: v in ps ==> (v, Occurrences(ps, v)) in pairs
    ensures forall i :: 0 <= i < |pairs| ==> pairs[i].0 in ps
    ensures NoDups(pairs)
  {
    var ds := Dedup(ps);
    var pairs := seq(|ds|, i requires 0 <= i < |ds| => (ds[i], Occurrences(ps, ds[i])));
    assert forall v :: v in ps ==> (v, Occurrences(ps, v)) in pairs by {
      forall v | v in ps ensures (v, Occurrences(ps, v)) in pairs {
        var k :| 0 <= k < |ps| && ps[k] == v;
        var j :| 0 <= j < |ds| && ds[j] == v;
        assert pairs[j] == (v, Occurrences(ps, v));
      }
    }
    pairs
  }

  /** `value_counts()`: every distinct value with its count, larger counts first. */
  function Ranked(ps: seq<string>): seq<(string, nat)> {
    SortBy(Tally(ps), ByCountDescending)
  }

  /** `value_counts().head(n)`: the values by descending count, at most `n`. */
  function TopCounts(vs: seq<Option<string>>, n: nat): seq<(string, nat)> {
    var ranked := Ranked(Present(vs));
    ranked[..if |ranked| < n then |ranked| else n]
  }

  lemma RankedSpec(ps: seq<string>)
    ensures var s := Ranked(ps);
      && (forall k :: 0 <= k < |s| ==> s[k].1 == Occurrences(ps, s[k].0) && s[k].1 > 0)
      && (forall i, j :: 0 <= i < j < |s| ==> s[i].0 != s[j].0 && s[i].1 >= s[j].1)
      && (forall v :: v in ps ==> exists m :: 0 <= m < |s| && s[m].0 == v)
  {
    var pairs := Tally(ps);
    var s := Ranked(ps);
    PermutationNoDups(pairs, s);
    forall k | 0 <= k < |s|
      ensures s[k].1 == Occurrences(ps, s[k].0) && s[k].1 > 0
    {
      assert s[k] in multiset(pairs);
    }
    forall i, j | 0 <= i < j < |s| ensures s[i].0 != s[j].0 && s[i].1 >= s[j].1 {
      assert s[i] != s[j];
      assert ByCountDescending(s[i]) <= ByCountDescending(s[j]);
    }
    forall v | v in ps ensures exists m :: 0 <= m < |s| && s[m].0 == v {
      assert (v, Occurrences(ps, v)) in multiset(s);
      var m :| 0 <= m < |s| && s[m] == (v, Occurrences(ps, v));
    }
  }

  /**
   * At most `n` entries, each a distinct non-missing value with its exact
   * (positive) count, in descending order of count; a value left out only
   * when `n` entries are shown, none with a smaller count than it.
   */
  lemma TopCountsSpec(vs: seq<Option<string>>, n: nat)
    ensures var r, ps := TopCounts(vs, n), Present(vs);
      && |r| <= n
      && (forall i :: 0 <= i < |r| ==> r[i].1 == Occurrences(ps, r[i].0) && r[i].1 > 0)
      && (forall i, j :: 0 <= i < j < |r| ==> r[i].0 != r[j].0 && r[i].1 >= r[j].1)
      && (forall v :: v in ps && (forall i :: 0 <= i < |r| ==> r[i].0 != v) ==>
            |r| == n && (n > 0 ==> Occurrences(ps, v) <= r[n - 1].1))
  {
    var ps := Present(vs);
    var s := Ranked(ps);
    var r := TopCounts(vs, n);
    RankedSpec(ps);
    assert forall i :: 0 <= i < |r| ==> r[i] == s[i];
    forall v | v in ps && (forall i :: 0 <= i < |r| ==> r[i].0 != v)
      ensures |r| == n && (n > 0 ==> Occurrences(ps, v) <= r[n - 1].1)
    {
      var m :| 0 <= m < |s| && s[m].0 == v;
      assert m >= |r|;
      if n > 0 {
        assert s[n - 1].1 >= s[m].1;
      }
    }
  }

  /** Each count shown is the number of rows of the column holding that value. */
  lemma TopCountsCountRows(vs: seq<Option<string>>, n: nat)
    ensures var r := TopCounts(vs, n);
      forall i :: 0 <= i < |r| ==> r[i].1 == Occurrences(vs, Some(r[i].0))
  {
    var ps := Present(vs);
    var s := Ranked(ps);
    var r := TopCounts(vs, n);
    RankedSpec(ps);
    forall i | 0 <= i < |r| ensures r[i].1 == Occurrences(vs, Some(r[i].0)) {
      assert r[i] == s[i];
      PresentCounts(vs, r[i].0);
    }
  }

  /**
   * The counts of a column, stated against the column itself: at most `n`
   * distinct values, each with the number of cells holding it, in descending
   * order; a value the column holds is left out only when `n` entries are
   * shown, none with a smaller count than it.
   */
  lemma TopCountsOfColumn(vs: seq<Option<string>>, n: nat)
    ensures var r := TopCounts(vs, n);
      && |r| <= n
      && (forall i :: 0 <= i < |r| ==> r[i].1 == Occurrences(vs, Some(r[i].0)) && r[i].1 > 0)
      && (forall i, j :: 0 <= i < j < |r| ==> r[i].0 != r[j].0 && r[i].1 >= r[j].1)
      && (forall v :: Some(v) in vs && (forall i :: 0 <= i < |r| ==> r[i].0 != v) ==>
            |r| == n && (n > 0 ==> Occurrences(vs, Some(v)) <= r[n - 1].1))
  {
    var r, ps := TopCounts(vs, n), Present(vs);
    TopCountsSpec(vs, n);
    TopCountsCountRows(vs, n);
    forall v | Some(v) in vs && (forall i :: 0 <= i < |r| ==> r[i].0 != v)
      ensures |r| == n && (n > 0 ==> Occurrences(vs, Some(v)) <= r[n - 1].1)
    {
      var k :| 0 <= k < |vs| && vs[k] == Some(v);
      assert v in ps;
      PresentCounts(vs, v);
    }
  }

  /** The Country/Region cells, one per row. */
  function Regions(t: seq<Row>): seq<Option<string>> {
    seq(|t|, i requires 0 <= i < |t| => t[i].country)
  }

  /** The Aircraft Manufacturer cells, one per row. */
  function Manufacturers(t: seq<Row>): seq<Option<string>> {
    seq(|t|, i requires 0 <= i < |t| => t[i].manufacturer)
  }

  /** Top 10 regions by number of crashes. */
  function TopRegions(t: seq<Row>): seq<(string, nat)> {
    TopCounts(Regions(t), TopN)
  }

  /** Top 10 aircraft manufacturers by number of crashes. */
  function TopManufacturers(t: seq<Row>): seq<(string, nat)> {
    TopCounts(Manufacturers(t), TopN)
  }

  /** The region chart: at most 10 regions, each with its number of rows,
      most frequent first; no region left out has more rows than the last. */
  lemma TopRegionsSpec(t: seq<Row>)
    ensures var r := TopRegions(t);
      && |r| <= TopN
      && (forall i :: 0 <= i < |r| ==> r[i].1 == Occurrences(Regions(t), Some(r[i].0)) && r[i].1 > 0)
      && (forall i, j :: 0 <= i < j < |r| ==> r[i].0 != r[j].0 && r[i].1 >= r[j].1)
      && (forall k ::
            0 <= k < |t| && t[k].country.Some? &&
            (forall i :: 0 <= i < |r| ==> r[i].0 != t[k].country.value)
            ==>
            |r| == TopN && Occurrences(Regions(t), t[k].country) <= r[TopN - 1].1)
  {
    TopCountsOfColumn(Regions(t), TopN);
    forall k | 0 <= k < |t| && t[k].country.Some? ensures t[k].country in Regions(t) {
      assert Regions(t)[k] == t[k].country;
    }
  }

  /** The manufacturer chart: at most 10 manufacturers, each with its number
      of rows, most frequent first; none left out has more rows than the last. */
  lemma TopManufacturersSpec(t: seq<Row>)
    ensures var r := TopManufacturers(t);
      && |r| <= TopN
      && (forall i :: 0 <= i < |r| ==> r[i].1 == Occurrences(Manufacturers(t), Some(r[i].0)) && r[i].1 > 0)
      && (forall i, j :: 0 <= i < j < |r| ==> r[i].0 != r[j].0 && r[i].1 >= r[j].1)
      && (forall k ::
            0 <= k < |t| && t[k].manufacturer.Some? &&
            (forall i :: 0 <= i < |r| ==> r[i].0 != t[k].manufacturer.value)
            ==>
            |r| == TopN && Occurrences(Manufacturers(t), t[k].manufacturer) <= r[TopN - 1].1)
  {
    TopCountsOfColumn(Manufacturers(t), TopN);
    forall k | 0 <= k < |t| && t[k].manufacturer.Some? ensures t[k].manufacturer in Manufacturers(t) {
      assert Manufacturers(t)[k] == t[k].manufacturer;
    }
  }
}
