/** Samples and single-channel planes: the values every filter consumes and produces. */
module Planes {

  /** One 8-bit unsigned sample (numpy's uint8). */
  type Sample = v: int | 0 <= v <= 255

  /** A plane of `height` rows and `width` columns, row-major.  The dimensions are kept
      beside the rows so that a plane with no rows still has a width, as an array of
      shape (0, w) does. */
  datatype Plane = Plane(height: nat, width: nat, rows: seq<seq<Sample>>) {
    predicate Valid() {
      |rows| == height && forall i :: 0 <= i < |rows| ==> |rows[i]| == width
    }
  }

  /** `x` forced into the range [lo, hi] (numpy's clip). */
  function Clamp(x: int, lo: int, hi: int): (r: int)
    requires lo <= hi
    ensures lo <= r <= hi
    ensures lo <= x <= hi ==> r == x
    ensures x < lo ==> r == lo
    ensures x > hi ==> r == hi
  {
    if x < lo then lo else if x > hi then hi else x
  }

  /** Every sample of `p` is `v`. */
  predicate Uniform(p: Plane, v: Sample)
    requires p.Valid()
  {
    forall i, j :: 0 <= i < p.height && 0 <= j < p.width ==> p.rows[i][j] == v
  }

  /** The photographic negative `255 - p`, used to state the duality of erosion and dilation. */
  function Inverted(p: Plane): (r: Plane)
    requires p.Valid()
    ensures r.Valid() && r.height == p.height && r.width == p.width
    ensures forall i, j :: 0 <= i < p.height && 0 <= j < p.width ==> r.rows[i][j] as int == 255 - p.rows[i][j] as int
  {
    Plane(p.height, p.width,
          seq(p.height, i requires 0 <= i < p.height =>
            seq(p.width, j requires 0 <= j < p.width => 255 - p.rows[i][j])))
  }

  /** The value held by a two-dimensional array, read row by row. */
  function PlaneOf(a: array2<Sample>): (p: Plane)
    reads a
    ensures p.Valid() && p.height == a.Length0 && p.width == a.Length1
    ensures forall i, j :: 0 <= i < a.Length0 && 0 <= j < a.Length1 ==> p.rows[i][j] == a[i, j]
  {
    Plane(a.Length0, a.Length1,
          seq(a.Length0, i requires 0 <= i < a.Length0 reads a =>
            seq(a.Length1, j requires 0 <= j < a.Length1 reads a => a[i, j])))
  }

  /** Two valid planes of the same shape that agree on every sample are equal. */
  lemma PlanesEqual(p: Plane, q: Plane)
    requires p.Valid() && q.Valid() && p.height == q.height && p.width == q.width
    requires forall i, j :: 0 <= i < p.height && 0 <= j < p.width ==> p.rows[i][j] == q.rows[i][j]
    ensures p == q
  {
    forall i | 0 <= i < p.height
      ensures p.rows[i] == q.rows[i]
    {
      assert forall j :: 0 <= j < p.width ==> p.rows[i][j] == q.rows[i][j];
    }
    assert p.rows == q.rows;
  }
}
