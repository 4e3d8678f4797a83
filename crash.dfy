/** One crash record: a row of the table after CSV parsing. */
module Crash {
  import opened Wrappers
  import opened Seqs

  /**
   * The columns the dashboard uses. Missing cells are None. `rest` holds the
   * cells of any other column of the file, which no step touches; they still
   * take part in full-row equality.
   */
  datatype Row = Row(
    year: int,
    quarter: Option<string>,
    month: Option<string>,
    country: Option<string>,        // Country/Region
    manufacturer: Option<string>,   // Aircraft Manufacturer
    aircraft: Option<string>,
    location: Option<string>,
    operator: Option<string>,
    aboard: Option<real>,
    fatalities: Option<real>,       // Fatalities (air)
    ground: Option<real>,
    rest: seq<Option<string>>)

  /** The two numeric columns whose outliers are clipped. */
  datatype NumColumn = Ground | Fatalities

  function Get(r: Row, c: NumColumn): Option<real> {
    match c
    case Ground => r.ground
    case Fatalities => r.fatalities
  }

  /** `r` with the cell of column `c` replaced by `v`, every other cell kept. */
  function Set(r: Row, c: NumColumn, v: Option<real>): (r': Row)
    ensures Get(r', c) == v
    ensures forall d :: d != c ==> Get(r', d) == Get(r, d)
    ensures r'.(ground := r.ground, fatalities := r.fatalities) == r
  {
    match c
    case Ground => r.(ground := v)
    case Fatalities => r.(fatalities := v)
  }

  /** The cells of column `c`, one per row, missing ones included. */
  function Cells(t: seq<Row>, c: NumColumn): seq<Option<real>> {
    seq(|t|, i requires 0 <= i < |t| => Get(t[i], c))
  }

  /**
   * The non-missing values of column `c`, in row order (NaNs skipped): each
   * value occurs as often as rows hold it, which is what the quartiles see.
   */
  function Values(t: seq<Row>, c: NumColumn): (vs: seq<real>)
    ensures |vs| <= |t|
    ensures forall i :: 0 <= i < |t| && Get(t[i], c).Some? ==> Get(t[i], c).value in vs
    ensures forall v :: v in vs ==> exists i :: 0 <= i < |t| && Get(t[i], c) == Some(v)
    ensures forall v :: Occurrences(vs, v) == Occurrences(Cells(t, c), Some(v))
  {
    if t == [] then []
    else
      var tail := Values(t[1..], c);
      assert forall i :: 1 <= i < |t| ==> t[i] == t[1..][i - 1];
      assert Cells(t, c)[1..] == Cells(t[1..], c);
      match Get(t[0], c)
      case Some(v) => [v] + tail
      case None => tail
  }
}
