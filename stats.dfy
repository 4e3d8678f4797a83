/**
 * Quantiles with linear interpolation (pandas' default for
 * `Series.quantile`), Tukey fences and clipping, over exact reals.
 */
module Stats {
  import opened Wrappers
  import opened Seqs

  function Id(x: real): real { x }

  ghost predicate Ascending(s: seq<real>) {
    forall i, j :: 0 <= i < j < |s| ==> s[i] <= s[j]
  }

  /** The values in ascending order (a permutation of `vs`). */
  function Sorted(vs: seq<real>): (s: seq<real>)
    ensures Ascending(s) && multiset(s) == multiset(vs) && |s| == |vs|
  {
    SortBy(vs, Id)
  }

  lemma MulMono(a: real, b: real, c: real)
    requires a <= b && 0.0 <= c
    ensures c * a <= c * b
  {
  }

  /** c * a lies in [0, c] when a lies in [0, 1] and c is not negative. */
  lemma MulFraction(a: real, c: real)
    requires 0.0 <= a <= 1.0 && 0.0 <= c
    ensures 0.0 <= c * a <= c
  {
    MulMono(a, 1.0, c);
    MulMono(0.0, a, c);
  }

  /** x + d * f: the point a fraction `f` of the way from x to x + d. */
  function Interpolate(x: real, d: real, f: real): (v: real)
    requires 0.0 <= d && 0.0 <= f <= 1.0
    ensures x <= v <= x + d
  {
    assert 0.0 <= d * f <= d by { MulFraction(f, d); }
    x + d * f
  }

  /** Interpolating further along never gives a smaller value. */
  lemma InterpolateMonotone(x: real, d: real, f: real, g: real)
    requires 0.0 <= d && 0.0 <= f <= g <= 1.0
    ensures Interpolate(x, d, f) <= Interpolate(x, d, g)
  {
    var a, b := d * f, d * g;
    MulMono(f, g, d);
    assert a <= b;
    assert Interpolate(x, d, f) == x + a && Interpolate(x, d, g) == x + b;
  }

  /**
   * Linear-interpolation quantile of an ascending sequence: at position
   * h = (n - 1) * q, the value s[lo] + (h - lo) * (s[lo + 1] - s[lo]) with
   * lo = floor(h); the last value when lo is the last position. It lies
   * between the two neighbours it interpolates.
   */
  function Quantile(s: seq<real>, q: real): (v: real)
    requires |s| > 0 && Ascending(s) && 0.0 <= q <= 1.0
    ensures s[Position(|s|, q)] <= v
    ensures Position(|s|, q) + 1 < |s| ==> v <= s[Position(|s|, q) + 1]
    ensures Position(|s|, q) + 1 == |s| ==> v == s[|s| - 1]
  {
    var lo := Position(|s|, q);
    if lo + 1 < |s| then Interpolate(s[lo], s[lo + 1] - s[lo], Scale(|s|, q) - lo as real)
    else s[lo]
  }

  /** (n - 1) * q, the interpolation point; it lies in [0, n - 1]. */
  function Scale(n: nat, q: real): (h: real)
    requires n > 0 && 0.0 <= q <= 1.0
    ensures 0.0 <= h <= (n - 1) as real
  {
    var m := (n - 1) as real;
    assert 0.0 <= m * q <= m by { MulFraction(q, m); }
    m * q
  }

  lemma ScaleMonotone(n: nat, p: real, q: real)
    requires n > 0 && 0.0 <= p <= q <= 1.0
    ensures Scale(n, p) <= Scale(n, q)
  {
    var m := (n - 1) as real;
    var a, b := m * p, m * q;
    MulMono(p, q, m);
    assert a <= b;
    assert Scale(n, p) == a && Scale(n, q) == b;
  }

  /** floor((n - 1) * q), the index below the interpolation point. */
  function Position(n: nat, q: real): (lo: nat)
    requires n > 0 && 0.0 <= q <= 1.0
    ensures lo < n
    ensures lo as real <= Scale(n, q) < lo as real + 1.0
  {
    Scale(n, q).Floor
  }

  /** A higher quantile is never below a lower one. */
  lemma QuantileMonotone(s: seq<real>, p: real, q: real)
    requires |s| > 0 && Ascending(s) && 0.0 <= p <= q <= 1.0
    ensures Quantile(s, p) <= Quantile(s, q)
  {
    var n := |s|;
    ScaleMonotone(n, p, q);
    var a, b := Position(n, p), Position(n, q);
    if a < b {
      assert Quantile(s, p) <= s[a + 1] <= s[b] <= Quantile(s, q);
    } else if a + 1 < n {
      assert a == b;
      InterpolateMonotone(s[a], s[a + 1] - s[a], Scale(n, p) - a as real, Scale(n, q) - a as real);
    }
  }

  /** The first and third quartiles of a column. */
  datatype Fence = Fence(q1: real, q3: real) {
    function Iqr(): real { q3 - q1 }
    function Lower(): real { q1 - 1.5 * Iqr() }
    function Upper(): real { q3 + 1.5 * Iqr() }
  }

  /**
   * The Tukey fence of a column's non-missing values; None when there are
   * none (pandas then yields NaN quartiles, and `clip` ignores NaN bounds).
   */
  function FenceOf(vs: seq<real>): (f: Option<Fence>)
    ensures f.Some? <==> vs != []
  {
    if vs == [] then None
    else
      var s := Sorted(vs);
      Some(Fence(Quantile(s, 0.25), Quantile(s, 0.75)))
  }

  /**
   * A fence is well formed: Q1 <= Q3, so the IQR is non-negative and the
   * lower bound lies below the upper one; both quartiles lie between the
   * smallest and largest value.
   */
  lemma FenceWellFormed(vs: seq<real>)
    requires vs != []
    ensures var f := FenceOf(vs).value;
      f.q1 <= f.q3 && f.Iqr() >= 0.0 && f.Lower() <= f.q1 && f.q3 <= f.Upper()
      && f.Lower() <= f.Upper()
    ensures var f := FenceOf(vs).value;
      (exists v :: v in vs && v <= f.q1) && (exists v :: v in vs && f.q3 <= v)
  {
    var s := Sorted(vs);
    QuantileMonotone(s, 0.25, 0.75);
    var a, b := Position(|s|, 0.25), Position(|s|, 0.75);
    assert s[a] in multiset(vs);
    assert s[a] in vs && s[a] <= Quantile(s, 0.25);
    if b + 1 < |s| {
      assert s[b + 1] in multiset(vs);
      assert s[b + 1] in vs && Quantile(s, 0.75) <= s[b + 1];
    } else {
      assert s[|s| - 1] in multiset(vs);
      assert s[|s| - 1] in vs && Quantile(s, 0.75) <= s[|s| - 1];
    }
  }

  lemma FenceOrdered(vs: seq<real>)
    ensures FenceOf(vs).Some? ==> FenceOf(vs).value.Lower() <= FenceOf(vs).value.Upper()
  {
    if vs != [] { FenceWellFormed(vs); }
  }

  /** `Series.clip`: a missing value stays missing; a value below the lower
      bound becomes it, one above the upper bound becomes it. */
  function ClipValue(v: Option<real>, f: Option<Fence>): (w: Option<real>)
  {
    match (v, f)
    case (Some(x), Some(b)) =>
      Some(if x < b.Lower() then b.Lower() else if x > b.Upper() then b.Upper() else x)
    case _ => v
  }

  /** Clipping into a well-formed fence: missing stays missing, the result is
      inside the bounds, a value already inside is unchanged, and clipping
      again changes nothing. */
  lemma ClipValueSpec(v: Option<real>, f: Fence)
    requires f.Lower() <= f.Upper()
    ensures ClipValue(v, Some(f)).None? <==> v.None?
    ensures v.Some? ==> f.Lower() <= ClipValue(v, Some(f)).value <= f.Upper()
    ensures v.Some? && f.Lower() <= v.value <= f.Upper() ==> ClipValue(v, Some(f)) == v
    ensures ClipValue(ClipValue(v, Some(f)), Some(f)) == ClipValue(v, Some(f))
  {
  }

  /** The fence of values already in ascending order reads the quartiles
      straight off them. */
  lemma FenceOfAscending(vs: seq<real>)
    requires vs != [] && Ascending(vs)
    ensures FenceOf(vs) == Some(Fence(Quantile(vs, 0.25), Quantile(vs, 0.75)))
  {
    AscendingSortedIsSelf(vs);
  }

  /** The worked example: Ground values 0, 0, 1, 2, 3, 3, 100 have Q1 = 0.5
      and Q3 = 3 ... */
  lemma FenceExample(vs: seq<real>)
    requires vs == [0.0, 0.0, 1.0, 2.0, 3.0, 3.0, 100.0]
    ensures FenceOf(vs) == Some(Fence(0.5, 3.0))
  {
    assert Ascending(vs);
    assert Position(7, 0.25) == 1;
    assert Position(7, 0.75) == 4;
    assert Quantile(vs, 0.25) == 0.5 && Quantile(vs, 0.75) == 3.0;
    FenceOfAscending(vs);
  }

  /** ... so IQR = 2.5, the upper bound is 6.75 and 100 clips to 6.75. */
  lemma ClipExample()
    ensures Fence(0.5, 3.0).Iqr() == 2.5 && Fence(0.5, 3.0).Upper() == 6.75
    ensures ClipValue(Some(100.0), Some(Fence(0.5, 3.0))) == Some(6.75)
  {
  }

  /** Ground values 0, 0, 0, 100: Q1 = 0 and Q3 = 25, so the upper bound is
      62.5 and 100 clips to 62.5. */
  lemma SkewedFence(vs: seq<real>)
    requires vs == [0.0, 0.0, 0.0, 100.0]
    ensures FenceOf(vs) == Some(Fence(0.0, 25.0))
  {
    assert Ascending(vs);
    assert Position(4, 0.25) == 0;
    assert Position(4, 0.75) == 2;
    assert Quantile(vs, 0.25) == 0.0 && Quantile(vs, 0.75) == 25.0;
    FenceOfAscending(vs);
  }

  /** After that clip the column is 0, 0, 0, 62.5, whose fence is narrower:
      Q3 = 15.625 and the upper bound 39.0625. */
  lemma SkewedFenceAfterClip(ws: seq<real>)
    requires ws == [0.0, 0.0, 0.0, 62.5]
    ensures FenceOf(ws) == Some(Fence(0.0, 15.625))
  {
    assert Ascending(ws);
    assert Position(4, 0.25) == 0;
    assert Position(4, 0.75) == 2;
    assert Quantile(ws, 0.25) == 0.0 && Quantile(ws, 0.75) == 15.625;
    FenceOfAscending(ws);
  }

  /** So clipping with re-computed fences is not idempotent: the clipped 62.5
      is clipped again, to 39.0625. */
  lemma ReclipMovesValue()
    ensures Fence(0.0, 25.0).Upper() == 62.5
    ensures ClipValue(Some(100.0), Some(Fence(0.0, 25.0))) == Some(62.5)
    ensures Fence(0.0, 15.625).Upper() == 39.0625
    ensures ClipValue(Some(62.5), Some(Fence(0.0, 15.625))) == Some(39.0625)
  {
  }

  /** Sorting values that are already ascending returns them unchanged. */
  lemma {:induction false} AscendingSortedIsSelf(vs: seq<real>)
    requires Ascending(vs)
    ensures Sorted(vs) == vs
  {
    if vs != [] {
      AscendingSortedIsSelf(vs[1..]);
      assert SortBy(vs, Id) == InsertBy(vs[0], SortBy(vs[1..], Id), Id);
    }
  }
}
