/** Edge-replication padding and the windows read from a padded plane. */
module Padding {
  import opened Errors
  import opened Planes

  /** The sample edge replication shows at any integer coordinates (r, c): the sample of
      `p` nearest to them, found by clamping the row and the column into the plane. */
  function EdgeRead(p: Plane, r: int, c: int): (v: Sample)
    requires p.Valid() && p.height > 0 && p.width > 0
    ensures 0 <= r < p.height && 0 <= c < p.width ==> v == p.rows[r][c]
    ensures exists r', c' :: 0 <= r' < p.height && 0 <= c' < p.width && v == p.rows[r'][c']
  {
    p.rows[Clamp(r, 0, p.height - 1)][Clamp(c, 0, p.width - 1)]
  }

  /** Inside the plane edge replication reads the plane itself; outside it repeats the
      nearest row and the nearest column of the border. */
  lemma EdgeReadNearest(p: Plane, r: int, c: int)
    requires p.Valid() && p.height > 0 && p.width > 0
    ensures 0 <= r < p.height && 0 <= c < p.width ==> EdgeRead(p, r, c) == p.rows[r][c]
    ensures r < 0 ==> EdgeRead(p, r, c) == EdgeRead(p, 0, c)
    ensures r >= p.height ==> EdgeRead(p, r, c) == EdgeRead(p, p.height - 1, c)
    ensures c < 0 ==> EdgeRead(p, r, c) == EdgeRead(p, r, 0)
    ensures c >= p.width ==> EdgeRead(p, r, c) == EdgeRead(p, r, p.width - 1)
  {
  }

  /** Edge-mode padding refuses to extend an axis that has no samples. */
  predicate PadFails(height: nat, width: nat, ph: nat, pw: nat) {
    (height == 0 && ph > 0) || (width == 0 && pw > 0)
  }

  /** Edge-replication padding by `ph` rows above and below and `pw` columns left and
      right.  The padded plane holds the original at offset (ph, pw); every other cell
      holds the nearest border sample. */
  function Pad(p: Plane, ph: nat, pw: nat): (r: Result<Plane>)
    requires p.Valid()
    ensures r.Err? <==> PadFails(p.height, p.width, ph, pw)
    ensures r.Err? ==> r.error == CannotExtendEmptyAxis
    ensures r.Ok? ==> r.value.Valid()
    ensures r.Ok? ==> r.value.height == p.height + 2 * ph && r.value.width == p.width + 2 * pw
    ensures r.Ok? && p.height > 0 && p.width > 0 ==>
              forall x, y :: 0 <= x < r.value.height && 0 <= y < r.value.width ==>
                r.value.rows[x][y] == EdgeRead(p, x - ph, y - pw)
  {
    if PadFails(p.height, p.width, ph, pw) then
      Err(CannotExtendEmptyAxis)
    else if p.height == 0 || p.width == 0 then
      // No error here means every padded axis is non-empty, so the result holds no samples.
      var zero: Sample := 0;
      Ok(Plane(p.height + 2 * ph, p.width + 2 * pw,
               seq(p.height + 2 * ph, x => seq(p.width + 2 * pw, y => zero))))
    else
      var rows := seq(p.height + 2 * ph, x => PaddedRow(p, ph, pw, x));
      Ok(Plane(p.height + 2 * ph, p.width + 2 * pw, rows))
  }

  /** Row `x` of `p` padded by (ph, pw). */
  function PaddedRow(p: Plane, ph: nat, pw: nat, x: int): (row: seq<Sample>)
    requires p.Valid() && p.height > 0 && p.width > 0
    ensures |row| == p.width + 2 * pw
    ensures forall y :: 0 <= y < |row| ==> row[y] == EdgeRead(p, x - ph, y - pw)
  {
    seq<Sample>(p.width + 2 * pw, y => EdgeRead(p, x - ph, y - pw))
  }

  /** The padded plane holds the original at offset (ph, pw). */
  lemma PadKeepsInterior(p: Plane, ph: nat, pw: nat)
    requires p.Valid()
    ensures Pad(p, ph, pw).Ok? <==> !PadFails(p.height, p.width, ph, pw)
    ensures Pad(p, ph, pw).Ok? ==>
              forall i, j :: 0 <= i < p.height && 0 <= j < p.width ==> Pad(p, ph, pw).value.rows[i + ph][j + pw] == p.rows[i][j]
  {
    if Pad(p, ph, pw).Ok? && p.height > 0 && p.width > 0 {
      var q := Pad(p, ph, pw).value;
      forall i, j | 0 <= i < p.height && 0 <= j < p.width
        ensures q.rows[i + ph][j + pw] == p.rows[i][j]
      {
        assert q.rows[i + ph][j + pw] == EdgeRead(p, i, j);
      }
    }
  }

  /** The border of the padded plane replicates its edges: each of the `ph` rows above
      the original copies the first original row, each row below copies the last, and
      likewise for the `pw` columns on either side. */
  lemma PadReplicatesEdges(p: Plane, ph: nat, pw: nat)
    requires p.Valid() && p.height > 0 && p.width > 0
    ensures Pad(p, ph, pw).Ok?
    ensures var q := Pad(p, ph, pw).value;
            && (forall x, y :: 0 <= x < ph && 0 <= y < q.width ==> q.rows[x][y] == q.rows[ph][y])
            && (forall x, y :: ph + p.height <= x < q.height && 0 <= y < q.width ==>
                  q.rows[x][y] == q.rows[ph + p.height - 1][y])
            && (forall x, y :: 0 <= x < q.height && 0 <= y < pw ==> q.rows[x][y] == q.rows[x][pw])
            && (forall x, y :: 0 <= x < q.height && pw + p.width <= y < q.width ==>
                  q.rows[x][y] == q.rows[x][pw + p.width - 1])
  {
  }

  /** The `kh` by `kw` window of `q` whose top-left corner is (i, j), flattened row by row
      (the order in which a reduction over the window sees it). */
  function Window(q: Plane, i: nat, j: nat, kh: nat, kw: nat): (s: seq<Sample>)
    requires q.Valid() && i + kh <= q.height && j + kw <= q.width
    ensures kh > 0 && kw > 0 ==> |s| > 0
    decreases kh
  {
    if kh == 0 then [] else Window(q, i, j, kh - 1, kw) + q.rows[i + kh - 1][j .. j + kw]
  }

  /** A window holds kh * kw samples. */
  lemma {:induction false} WindowSize(q: Plane, i: nat, j: nat, kh: nat, kw: nat)
    requires q.Valid() && i + kh <= q.height && j + kw <= q.width
    ensures |Window(q, i, j, kh, kw)| == kh * kw
    decreases kh
  {
    if kh > 0 {
      WindowSize(q, i, j, kh - 1, kw);
      assert |Window(q, i, j, kh, kw)| == (kh - 1) * kw + kw;
    }
  }

  /** The window holds exactly the samples of rows i .. i + kh - 1 and columns
      j .. j + kw - 1 of `q`. */
  lemma {:induction false} WindowMembers(q: Plane, i: nat, j: nat, kh: nat, kw: nat)
    requires q.Valid() && i + kh <= q.height && j + kw <= q.width
    ensures forall r, c :: i <= r < i + kh && j <= c < j + kw ==> q.rows[r][c] in Window(q, i, j, kh, kw)
    ensures forall x :: x in Window(q, i, j, kh, kw) ==>
              exists r, c :: i <= r < i + kh && j <= c < j + kw && q.rows[r][c] == x
    decreases kh
  {
    if kh > 0 {
      WindowMembers(q, i, j, kh - 1, kw);
      var row := q.rows[i + kh - 1][j .. j + kw];
      assert Window(q, i, j, kh, kw) == Window(q, i, j, kh - 1, kw) + row;
      forall r, c | i <= r < i + kh && j <= c < j + kw
        ensures q.rows[r][c] in Window(q, i, j, kh, kw)
      {
        if r == i + kh - 1 {
          assert q.rows[r][c] == row[c - j];
        }
      }
      forall x | x in Window(q, i, j, kh, kw)
        ensures exists r, c :: i <= r < i + kh && j <= c < j + kw && q.rows[r][c] == x
      {
        if x !in Window(q, i, j, kh - 1, kw) {
          var k :| 0 <= k < kw && row[k] == x;
          assert q.rows[i + kh - 1][j + k] == x;
        }
      }
    }
  }
}
