/**
 * `load_data`: the fixed, ordered cleaning pipeline over the parsed crash
 * table. Each step is a column reassignment (a function applied to every
 * row); outlier clipping and deduplication are loops.
 */
module Cleaning {
  import opened Wrappers
  import opened Seqs
  import opened Text
  import opened Crash
  import opened Stats

  const Unknown: string := "Unknown"

  const Quarters: seq<string> := ["Qtr 1", "Qtr 2", "Qtr 3", "Qtr 4"]

  const Months: seq<string> := [
    "January", "February", "March", "April", "May", "June",
    "July", "August", "September", "October", "November", "December"]

  /** `replace('-', pd.NA)`: only the exact one-character string "-". */
  function ReplaceDash(v: Option<string>): Option<string> {
    if v == Some("-") then None else v
  }

  /** `fillna('Unknown')`. */
  function FillUnknown(v: Option<string>): Option<string> {
    Some(v.GetOr(Unknown))
  }

  /** A `.str` accessor method: applied to strings, missing stays missing. */
  function MapText(v: Option<string>, f: string -> string): Option<string> {
    match v
    case Some(s) => Some(f(s))
    case None => None
  }

  /** `pd.Categorical(..., categories=cs)`: a value outside `cs` becomes missing. */
  function ToCategory(v: Option<string>, cs: seq<string>): Option<string> {
    if v.Some? && v.value in cs then v else None
  }

  // The row-wise effect of each column reassignment of load_data.

  function SentinelStep(r: Row): Row {
    r.(country := ReplaceDash(r.country))
  }

  function FillStep(r: Row): Row {
    r.(country := FillUnknown(r.country), operator := FillUnknown(r.operator))
  }

  function TextStep(r: Row): Row {
    r.(country := MapText(r.country, StripTitle),
       manufacturer := MapText(r.manufacturer, StripTitle),
       aircraft := MapText(r.aircraft, Strip),
       location := MapText(r.location, Strip),
       operator := MapText(r.operator, Strip))
  }

  function CategoryStep(r: Row): Row {
    r.(quarter := ToCategory(r.quarter, Quarters),
       month := ToCategory(r.month, Months))
  }

  // Steps 1-4 column by column.

  function CleanCountry(v: Option<string>): Option<string> {
    MapText(FillUnknown(ReplaceDash(v)), StripTitle)
  }

  function CleanOperator(v: Option<string>): Option<string> {
    MapText(FillUnknown(v), Strip)
  }

  /** Steps 1-4, which only look at one row at a time. */
  function NormaliseRow(r: Row): Row {
    r.(quarter := ToCategory(r.quarter, Quarters),
       month := ToCategory(r.month, Months),
       country := CleanCountry(r.country),
       manufacturer := MapText(r.manufacturer, StripTitle),
       aircraft := MapText(r.aircraft, Strip),
       location := MapText(r.location, Strip),
       operator := CleanOperator(r.operator))
  }

  /** The four column reassignments, in source order, amount to NormaliseRow. */
  lemma StepsCompose(r: Row)
    ensures CategoryStep(TextStep(FillStep(SentinelStep(r)))) == NormaliseRow(r)
  {
  }

  function ClipRow(r: Row, c: NumColumn, f: Option<Fence>): Row {
    Set(r, c, ClipValue(Get(r, c), f))
  }

  /** A column assignment `df[col] = expr`: `f` applied to every row. */
  function MapRows(t: seq<Row>, f: Row -> Row): (u: seq<Row>)
    ensures |u| == |t| && forall i :: 0 <= i < |t| ==> u[i] == f(t[i])
  {
    seq(|t|, i requires 0 <= i < |t| => f(t[i]))
  }

  // The pipeline as one specification.

  function Normalise(raw: seq<Row>): seq<Row> {
    MapRows(raw, NormaliseRow)
  }

  /** The fence of column `c`, from the quartiles of the raw (pre-clip) column. */
  function FenceFor(raw: seq<Row>, c: NumColumn): Option<Fence> {
    FenceOf(Values(raw, c))
  }

  /** Steps 1-6 applied to one row, with the fences of the whole raw table. */
  function CleanRow(raw: seq<Row>, r: Row): Row {
    ClipRow(ClipRow(NormaliseRow(r), Ground, FenceFor(raw, Ground)),
            Fatalities, FenceFor(raw, Fatalities))
  }

  function Clipped(raw: seq<Row>): seq<Row> {
    MapRows(raw, r => CleanRow(raw, r))
  }

  /** The cleaned table: the clipped rows, duplicates removed. */
  function Clean(raw: seq<Row>): seq<Row> {
    Dedup(Clipped(raw))
  }

  /** Every non-missing value of column `c` lies inside the fence `f`. */
  ghost predicate InFence(t: seq<Row>, c: NumColumn, f: Option<Fence>) {
    forall i :: 0 <= i < |t| && f.Some? && Get(t[i], c).Some? ==>
      f.value.Lower() <= Get(t[i], c).value <= f.value.Upper()
  }

  /** The row-level invariants of a cleaned table. */
  ghost predicate RowCleaned(r: Row) {
    && r.country.Some? && r.operator.Some?
    && (r.quarter.None? || r.quarter.value in Quarters)
    && (r.month.None? || r.month.value in Months)
  }

  /**
   * `Series.clip` on column `c`: every row keeps its other cells, and each
   * non-missing value of `c` is moved into the fence; missing stays missing.
   */
  method ClipColumn(t: seq<Row>, c: NumColumn, f: Option<Fence>) returns (u: seq<Row>)
    ensures |u| == |t|
    ensures forall i :: 0 <= i < |t| ==> u[i] == ClipRow(t[i], c, f)
    ensures forall i :: 0 <= i < |t| ==> (Get(u[i], c).None? <==> Get(t[i], c).None?)
    ensures f.Some? && f.value.Lower() <= f.value.Upper() ==> InFence(u, c, f)
  {
    u := [];
    for i := 0 to |t|
      invariant |u| == i
      invariant forall k :: 0 <= k < i ==> u[k] == ClipRow(t[k], c, f)
    {
      u := u + [ClipRow(t[i], c, f)];
    }
    if f.Some? && f.value.Lower() <= f.value.Upper() {
      forall i | 0 <= i < |t| ensures Get(u[i], c).Some? ==>
        f.value.Lower() <= Get(u[i], c).value <= f.value.Upper()
      {
        ClipValueSpec(Get(t[i], c), f.value);
      }
    }
  }

  /**
   * `drop_duplicates()`: scan the rows in order and keep a row only when no
   * equal row was kept before.
   */
  method DropDuplicates(t: seq<Row>) returns (u: seq<Row>)
    ensures u == Dedup(t)
    ensures NoDups(u) && |u| <= |t|
    ensures forall i :: 0 <= i < |t| ==> t[i] in u
    ensures forall i :: 0 <= i < |u| ==> u[i] in t
  {
    u := [];
    for i := 0 to |t|
      invariant u == Dedup(t[..i])
    {
      assert t[..i + 1][..i] == t[..i];
      if t[i] !in u {
        u := u + [t[i]];
      }
    }
    assert t[..|t|] == t;
  }

  lemma UnknownIsNormal()
    ensures Strip(Unknown) == Unknown && StripTitle(Unknown) == Unknown
  {
    StripTrimmed(Unknown);
    assert IsTitled(Unknown);
    TitledFixed(Unknown);
  }

  /**
   * Country/Region: an exact "-" or a missing value becomes "Unknown", any
   * other value is stripped and title-cased; the result is never missing and
   * normalising it again changes nothing.
   */
  lemma CountryOutcome(v: Option<string>)
    ensures v.None? || v == Some("-") ==> CleanCountry(v) == Some(Unknown)
    ensures v.Some? && v != Some("-") ==> CleanCountry(v) == Some(StripTitle(v.value))
    ensures CleanCountry(v).Some?
    ensures StripTitle(CleanCountry(v).value) == CleanCountry(v).value
  {
    UnknownIsNormal();
    if v.Some? { StripTitleIdempotent(v.value); }
  }

  /** Operator: missing becomes "Unknown", a present value is only stripped
      (an infix of the original, so its case is kept); never missing. */
  lemma OperatorOutcome(v: Option<string>)
    ensures v.None? ==> CleanOperator(v) == Some(Unknown)
    ensures v.Some? ==> CleanOperator(v) == Some(Strip(v.value))
    ensures CleanOperator(v).Some?
    ensures Strip(CleanOperator(v).value) == CleanOperator(v).value
  {
    UnknownIsNormal();
    if v.Some? { StripIdempotent(v.value); }
  }

  /** Aircraft Manufacturer is stripped and title-cased, Aircraft and Location
      only stripped; missing stays missing; each result is already normal. */
  lemma TextOutcome(r: Row)
    ensures NormaliseRow(r).manufacturer.Some? <==> r.manufacturer.Some?
    ensures r.manufacturer.Some? ==>
      NormaliseRow(r).manufacturer.value == StripTitle(r.manufacturer.value)
      && StripTitle(NormaliseRow(r).manufacturer.value) == NormaliseRow(r).manufacturer.value
    ensures NormaliseRow(r).aircraft.Some? <==> r.aircraft.Some?
    ensures r.aircraft.Some? ==>
      NormaliseRow(r).aircraft.value == Strip(r.aircraft.value)
      && Strip(NormaliseRow(r).aircraft.value) == NormaliseRow(r).aircraft.value
    ensures NormaliseRow(r).location.Some? <==> r.location.Some?
    ensures r.location.Some? ==>
      NormaliseRow(r).location.value == Strip(r.location.value)
      && Strip(NormaliseRow(r).location.value) == NormaliseRow(r).location.value
  {
    if r.manufacturer.Some? { StripTitleIdempotent(r.manufacturer.value); }
    if r.aircraft.Some? { StripIdempotent(r.aircraft.value); }
    if r.location.Some? { StripIdempotent(r.location.value); }
  }

  /** Quarter and Month: a value of the closed set is kept, anything else
      (including a missing value) comes out missing. */
  lemma CategoryOutcome(r: Row)
    ensures NormaliseRow(r).quarter.Some? <==> r.quarter.Some? && r.quarter.value in Quarters
    ensures NormaliseRow(r).quarter.Some? ==> NormaliseRow(r).quarter == r.quarter
    ensures NormaliseRow(r).month.Some? <==> r.month.Some? && r.month.value in Months
    ensures NormaliseRow(r).month.Some? ==> NormaliseRow(r).month == r.month
  {
  }

  /** The sentinel test runs before stripping: a padded " - " is not the
      sentinel, so it comes out as "-" rather than "Unknown". */
  lemma PaddedDashSurvives()
    ensures CleanCountry(Some(" - ")) == Some("-")
    ensures CleanCountry(CleanCountry(Some(" - "))) == Some(Unknown)
  {
    assert StartIndex(" - ", 0) == 1;
    assert EndIndex(" - ", 1, 3) == 2;
    assert Title("-") == "-";
    UnknownIsNormal();
  }

  /** A whitespace-only Country/Region or Operator is present, so it is not
      filled, and stripping then leaves it empty. */
  lemma BlankNamesBecomeEmpty()
    ensures CleanCountry(Some("  ")) == Some("")
    ensures CleanOperator(Some("  ")) == Some("")
  {
    assert StartIndex("  ", 0) == 2;
    assert Title("") == "";
  }

  /** Normalising twice is normalising once, unless the first pass produced
      the sentinel "-" (see PaddedDashSurvives). */
  lemma NormaliseRowIdempotent(r: Row)
    requires CleanCountry(r.country) != Some("-")
    ensures NormaliseRow(NormaliseRow(r)) == NormaliseRow(r)
  {
    var n := NormaliseRow(r);
    var m := NormaliseRow(n);
    assert m.country == n.country by { CountryOutcome(r.country); }
    assert m.operator == n.operator by { OperatorOutcome(r.operator); }
    assert m.manufacturer == n.manufacturer by {
      if r.manufacturer.Some? { StripTitleIdempotent(r.manufacturer.value); }
    }
    assert m.aircraft == n.aircraft by {
      if r.aircraft.Some? { StripIdempotent(r.aircraft.value); }
    }
    assert m.location == n.location by {
      if r.location.Some? { StripIdempotent(r.location.value); }
    }
    assert m.quarter == n.quarter && m.month == n.month;
  }

  /** The columns no step touches are unchanged by normalisation. */
  lemma NormaliseKeeps(r: Row)
    ensures NormaliseRow(r).year == r.year && NormaliseRow(r).aboard == r.aboard
    ensures NormaliseRow(r).rest == r.rest
    ensures forall c :: Get(NormaliseRow(r), c) == Get(r, c)
  {
  }

  /** Columns equal cell by cell have the same non-missing values. */
  lemma {:induction false} ValuesAgree(t: seq<Row>, u: seq<Row>, c: NumColumn)
    requires |t| == |u|
    requires forall i :: 0 <= i < |t| ==> Get(t[i], c) == Get(u[i], c)
    ensures Values(t, c) == Values(u, c)
  {
    if t != [] {
      ValuesAgree(t[1..], u[1..], c);
    }
  }

  /**
   * `load_data` (app.py:6-52), stage by stage on a local table. The result
   * is the cleaned table, and it keeps the invariants of a cleaned table.
   */
  method LoadData(raw: seq<Row>) returns (df: seq<Row>)
    ensures df == Clean(raw)
    ensures forall i :: 0 <= i < |df| ==> RowCleaned(df[i])
    ensures InFence(df, Ground, FenceFor(raw, Ground))
    ensures InFence(df, Fatalities, FenceFor(raw, Fatalities))
    ensures NoDups(df)
  {
    df := MapRows(raw, SentinelStep);
    df := MapRows(df, FillStep);
    df := MapRows(df, TextStep);
    df := MapRows(df, CategoryStep);
    forall r { StepsCompose(r); }
    assert df == Normalise(raw);
    forall c { ValuesAgree(raw, df, c); }
    var groundFence := FenceOf(Values(df, Ground));
    var fatalitiesFence := FenceOf(Values(df, Fatalities));
    df := ClipColumn(df, Ground, groundFence);
    df := ClipColumn(df, Fatalities, fatalitiesFence);
    assert df == Clipped(raw);
    df := DropDuplicates(df);
    CleanInvariants(raw);
    CleanInFence(raw, Ground);
    CleanInFence(raw, Fatalities);
  }

  /** A cleaned row keeps the row-level invariants. */
  lemma CleanRowCleaned(raw: seq<Row>, r: Row)
    ensures RowCleaned(CleanRow(raw, r))
  {
    var n := NormaliseRow(r);
    assert RowCleaned(n) by {
      CountryOutcome(r.country);
      OperatorOutcome(r.operator);
    }
    var m := ClipRow(n, Ground, FenceFor(raw, Ground));
    assert RowCleaned(m);
  }

  /** A cleaned row lies inside the fence of column `c` of the raw table. */
  lemma CleanRowInFence(raw: seq<Row>, r: Row, c: NumColumn)
    ensures FenceFor(raw, c).Some? && Get(CleanRow(raw, r), c).Some? ==>
      FenceFor(raw, c).value.Lower() <= Get(CleanRow(raw, r), c).value <= FenceFor(raw, c).value.Upper()
  {
    var n := NormaliseRow(r);
    var g, f := FenceFor(raw, Ground), FenceFor(raw, Fatalities);
    var m := ClipRow(n, Ground, g);
    var x := ClipRow(m, Fatalities, f);
    assert x == CleanRow(raw, r);
    if FenceFor(raw, c).Some? {
      FenceOrdered(Values(raw, c));
      if c == Ground {
        assert Get(x, Ground) == Get(m, Ground);
        ClipValueSpec(Get(n, Ground), g.value);
      } else {
        ClipValueSpec(Get(m, Fatalities), f.value);
      }
    }
  }

  /** Every row of the cleaned table has Country/Region and Operator,
      and Quarter and Month inside their closed sets. */
  lemma CleanInvariants(raw: seq<Row>)
    ensures forall i :: 0 <= i < |Clean(raw)| ==> RowCleaned(Clean(raw)[i])
  {
    forall i | 0 <= i < |Clean(raw)| ensures RowCleaned(Clean(raw)[i]) {
      CleanSound(raw, Clean(raw)[i]);
      var j :| 0 <= j < |raw| && Clean(raw)[i] == CleanRow(raw, raw[j]);
      CleanRowCleaned(raw, raw[j]);
    }
  }

  /** Every non-missing value of column `c` of the cleaned table lies
      inside the fence computed from the raw (pre-clip) column. */
  lemma CleanInFence(raw: seq<Row>, c: NumColumn)
    ensures InFence(Clean(raw), c, FenceFor(raw, c))
  {
    forall i | 0 <= i < |Clean(raw)|
      ensures FenceFor(raw, c).Some? && Get(Clean(raw)[i], c).Some? ==>
        FenceFor(raw, c).value.Lower() <= Get(Clean(raw)[i], c).value <= FenceFor(raw, c).value.Upper()
    {
      CleanSound(raw, Clean(raw)[i]);
      var j :| 0 <= j < |raw| && Clean(raw)[i] == CleanRow(raw, raw[j]);
      CleanRowInFence(raw, raw[j], c);
    }
  }

  /** Every raw row has its cleaned version in the cleaned table. */
  lemma CleanComplete(raw: seq<Row>, i: nat)
    requires i < |raw|
    ensures CleanRow(raw, raw[i]) in Clean(raw)
  {
    var t := Clipped(raw);
    assert t[i] == CleanRow(raw, raw[i]);
  }

  /** Every row of the cleaned table is the cleaned version of a raw row. */
  lemma CleanSound(raw: seq<Row>, x: Row)
    ensures x in Clean(raw) ==> exists i :: 0 <= i < |raw| && x == CleanRow(raw, raw[i])
  {
    if x in Clean(raw) {
      var t := Clipped(raw);
      assert x in t;
      var j :| 0 <= j < |t| && t[j] == x;
      assert x == CleanRow(raw, raw[j]);
    }
  }


  /** A row with only a Year and a Ground value, before and after cleaning. */
  function GroundOnly(year: int, g: real): Row {
    Row(year, None, None, None, None, None, None, None, None, None, Some(g), [])
  }

  function GroundOnlyCleaned(year: int, g: real): Row {
    Row(year, None, None, Some(Unknown), None, None, None, Some(Unknown), None, None, Some(g), [])
  }

  lemma GroundOnlyNormalised(year: int, g: real)
    ensures NormaliseRow(GroundOnly(year, g)) == GroundOnlyCleaned(year, g)
  {
    UnknownIsNormal();
  }

  /** Four rows whose Ground values are 0, 0, 0, g and which have no
      Fatalities value. */
  ghost predicate SkewedGround(t: seq<Row>, g: real) {
    && |t| == 4
    && t[0].ground == Some(0.0) && t[1].ground == Some(0.0)
    && t[2].ground == Some(0.0) && t[3].ground == Some(g)
    && t[0].fatalities.None? && t[1].fatalities.None?
    && t[2].fatalities.None? && t[3].fatalities.None?
  }

  /** The sample: four consecutive years, Ground 0, 0, 0 and 100, nothing
      else filled in. */
  ghost predicate SkewedRaw(raw: seq<Row>, y: int) {
    && |raw| == 4
    && raw[0] == GroundOnly(y, 0.0) && raw[1] == GroundOnly(y + 1, 0.0)
    && raw[2] == GroundOnly(y + 2, 0.0) && raw[3] == GroundOnly(y + 3, 100.0)
  }

  lemma {:induction false} SkewedColumns(t: seq<Row>, g: real)
    requires SkewedGround(t, g)
    ensures Values(t, Ground) == [0.0, 0.0, 0.0, g]
    ensures Values(t, Fatalities) == []
  {
    assert Values(t[3..], Ground) == [g];
    assert Values(t[2..], Ground) == [0.0, g];
    assert Values(t[1..], Ground) == [0.0, 0.0, g];
    assert Values(t[3..], Fatalities) == [];
    assert Values(t[2..], Fatalities) == [];
    assert Values(t[1..], Fatalities) == [];
  }

  lemma GroundOnlyCleanRow(raw: seq<Row>, year: int, g: real, h: real)
    requires FenceFor(raw, Ground) == Some(Fence(0.0, 25.0))
    requires FenceFor(raw, Fatalities) == None
    requires ClipValue(Some(g), Some(Fence(0.0, 25.0))) == Some(h)
    ensures CleanRow(raw, GroundOnly(year, g)) == GroundOnlyCleaned(year, h)
  {
    GroundOnlyNormalised(year, g);
  }

  lemma SkewedFences(raw: seq<Row>, y: int)
    requires SkewedRaw(raw, y)
    ensures FenceFor(raw, Ground) == Some(Fence(0.0, 25.0))
    ensures FenceFor(raw, Fatalities) == None
  {
    SkewedColumns(raw, 100.0);
    SkewedFence(Values(raw, Ground));
  }

  lemma SkewedClipped(raw: seq<Row>, y: int)
    requires SkewedRaw(raw, y)
    ensures |Clipped(raw)| == 4
    ensures Clipped(raw)[0] == GroundOnlyCleaned(y, 0.0)
    ensures Clipped(raw)[1] == GroundOnlyCleaned(y + 1, 0.0)
    ensures Clipped(raw)[2] == GroundOnlyCleaned(y + 2, 0.0)
    ensures Clipped(raw)[3] == GroundOnlyCleaned(y + 3, 62.5)
  {
    SkewedFences(raw, y);
    ReclipMovesValue();
    GroundOnlyCleanRow(raw, y, 0.0, 0.0);
    GroundOnlyCleanRow(raw, y + 1, 0.0, 0.0);
    GroundOnlyCleanRow(raw, y + 2, 0.0, 0.0);
    GroundOnlyCleanRow(raw, y + 3, 100.0, 62.5);
  }

  lemma ConsecutiveYearsDistinct(t: seq<Row>, y: int)
    requires |t| == 4
    requires t[0].year == y && t[1].year == y + 1 && t[2].year == y + 2 && t[3].year == y + 3
    ensures NoDups(t)
  {
    forall i, j | 0 <= i < j < |t| ensures t[i] != t[j] {
      assert t[i].year == y + i && t[j].year == y + j;
    }
  }

  lemma SkewedClean(raw: seq<Row>, y: int)
    requires SkewedRaw(raw, y)
    ensures Clean(raw) == Clipped(raw) && SkewedGround(Clean(raw), 62.5)
    ensures Clean(raw)[3] == GroundOnlyCleaned(y + 3, 62.5)
  {
    SkewedFences(raw, y);
    SkewedClipped(raw, y);
    var t := Clipped(raw);
    ConsecutiveYearsDistinct(t, y);
    DedupOfDistinct(t);
  }

  /**
   * Cleaning is not idempotent: re-cleaning the cleaned table recomputes the
   * fences on clipped values. Four rows with Ground 0, 0, 0, 100 clean to
   * Ground 0, 0, 0, 62.5, and cleaning that again moves 62.5 to 39.0625.
   */
  lemma CleanNotIdempotent(raw: seq<Row>, y: int)
    requires SkewedRaw(raw, y)
    ensures Clean(Clean(raw)) != Clean(raw)
  {
    SkewedClean(raw, y);
    var t := Clean(raw);
    SkewedColumns(t, 62.5);
    SkewedFenceAfterClip(Values(t, Ground));
    ReclipMovesValue();
    CleanInFence(t, Ground);
    assert t[3] !in Clean(t);
  }
}
