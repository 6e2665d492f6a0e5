/** The order-statistic filters: erosion (window minimum), dilation (window maximum) and
    the median filter.  Each pads the plane by half the kernel on every side with edge
    replication, then reduces the kernel-sized window at every pixel.  Only the kernel's
    shape matters; its weights are never read. */
module WindowFilters {
  import opened Errors
  import opened Planes
  import opened Padding
  import opened OrderStatistics

  datatype Reduction = MinOf | MaxOf | MedianOf

  function Reduce(red: Reduction, s: seq<Sample>): (v: Sample)
    requires |s| > 0
    ensures SeqMin(s) <= v <= SeqMax(s)
  {
    match red
    case MinOf => SeqMin(s)
    case MaxOf => SeqMax(s)
    case MedianOf => MedianBounds(s); SeqMedian(s)
  }

  /** Output row `i` of a window filter over the padded plane `q`. */
  function FilteredRow(q: Plane, i: nat, w: nat, kh: nat, kw: nat, red: Reduction): (row: seq<Sample>)
    requires q.Valid() && kh >= 1 && kw >= 1 && i + kh <= q.height && w + kw <= q.width + 1
    ensures |row| == w
    ensures forall j :: 0 <= j < w ==> row[j] == Reduce(red, Window(q, i, j, kh, kw))
  {
    seq(w, j requires 0 <= j < w => Reduce(red, Window(q, i, j, kh, kw)))
  }

  /** The result of filtering `p` with a `kh` by `kw` kernel: an error exactly when edge
      padding fails, otherwise a plane of the same shape whose pixel (i, j) reduces the
      window of the padded plane with top-left corner (i, j). */
  function Filtered(p: Plane, kh: nat, kw: nat, red: Reduction): (r: Result<Plane>)
    requires p.Valid() && kh >= 1 && kw >= 1
    ensures r.Err? <==> PadFails(p.height, p.width, kh / 2, kw / 2)
    ensures r.Err? ==> r.error == CannotExtendEmptyAxis
    ensures r.Ok? ==> r.value.Valid() && r.value.height == p.height && r.value.width == p.width
  {
    match Pad(p, kh / 2, kw / 2)
    case Err(e) => Err(e)
    case Ok(q) =>
      Ok(Plane(p.height, p.width,
               seq(p.height, i requires 0 <= i < p.height => FilteredRow(q, i, p.width, kh, kw, red))))
  }

  /** Pixel (i, j) of the filtered plane; a plane with a pixel always pads successfully. */
  function FilteredAt(p: Plane, kh: nat, kw: nat, red: Reduction, i: nat, j: nat): Sample
    requires p.Valid() && kh >= 1 && kw >= 1 && i < p.height && j < p.width
  {
    Filtered(p, kh, kw, red).value.rows[i][j]
  }

  /** (r, c) lies in the kernel-sized neighbourhood of pixel (i, j) in the coordinates of
      the original plane: `kh / 2` rows above it and `kw / 2` columns left of it, which is
      centred for odd kernel sizes. */
  predicate InNeighbourhood(i: int, j: int, kh: nat, kw: nat, r: int, c: int) {
    i - kh / 2 <= r < i - kh / 2 + kh && j - kw / 2 <= c < j - kw / 2 + kw
  }

  /** The window read for pixel (i, j) holds exactly the edge-replicated samples of the
      neighbourhood of (i, j), so it lies inside the padded plane and no read falls off
      the original. */
  lemma WindowIsNeighbourhood(p: Plane, kh: nat, kw: nat, i: nat, j: nat)
    requires p.Valid() && kh >= 1 && kw >= 1 && i < p.height && j < p.width
    ensures Pad(p, kh / 2, kw / 2).Ok?
    ensures var q := Pad(p, kh / 2, kw / 2).value;
            && i + kh <= q.height && j + kw <= q.width
            && (forall r, c :: InNeighbourhood(i, j, kh, kw, r, c) ==> EdgeRead(p, r, c) in Window(q, i, j, kh, kw))
            && (forall x :: x in Window(q, i, j, kh, kw) ==>
                  exists r, c :: InNeighbourhood(i, j, kh, kw, r, c) && EdgeRead(p, r, c) == x)
  {
    var ph, pw := kh / 2, kw / 2;
    var q := Pad(p, ph, pw).value;
    NeighbourhoodInWindow(p, q, ph, pw, kh, kw, i, j);
  }

  /** The same fact for a padded plane `q` given by its cells. */
  lemma NeighbourhoodInWindow(p: Plane, q: Plane, ph: nat, pw: nat, kh: nat, kw: nat, i: nat, j: nat)
    requires p.Valid() && p.height > 0 && p.width > 0 && q.Valid()
    requires ph == kh / 2 && pw == kw / 2 && i < p.height && j < p.width
    requires q.height == p.height + 2 * ph && q.width == p.width + 2 * pw
    requires forall x, y :: 0 <= x < q.height && 0 <= y < q.width ==> q.rows[x][y] == EdgeRead(p, x - ph, y - pw)
    ensures i + kh <= q.height && j + kw <= q.width
    ensures forall r, c :: InNeighbourhood(i, j, kh, kw, r, c) ==> EdgeRead(p, r, c) in Window(q, i, j, kh, kw)
    ensures forall x :: x in Window(q, i, j, kh, kw) ==>
              exists r, c :: InNeighbourhood(i, j, kh, kw, r, c) && EdgeRead(p, r, c) == x
  {
    var s := Window(q, i, j, kh, kw);
    WindowMembers(q, i, j, kh, kw);
    forall r, c | InNeighbourhood(i, j, kh, kw, r, c)
      ensures EdgeRead(p, r, c) in s
    {
      var x, y := r + ph, c + pw;
      assert i <= x < i + kh && j <= y < j + kw;
      assert q.rows[x][y] == EdgeRead(p, x - ph, y - pw);
    }
    forall v | v in s
      ensures exists r, c :: InNeighbourhood(i, j, kh, kw, r, c) && EdgeRead(p, r, c) == v
    {
      var x, y :| i <= x < i + kh && j <= y < j + kw && q.rows[x][y] == v;
      assert InNeighbourhood(i, j, kh, kw, x - ph, y - pw);
      assert EdgeRead(p, x - ph, y - pw) == v;
    }
  }

  /** Eroded pixel (i, j) is the minimum of the edge-replicated neighbourhood of (i, j):
      no neighbour is smaller and some neighbour equals it. */
  lemma ErodeIsNeighbourhoodMin(p: Plane, kh: nat, kw: nat, i: nat, j: nat)
    requires p.Valid() && kh >= 1 && kw >= 1 && i < p.height && j < p.width
    ensures forall r, c :: InNeighbourhood(i, j, kh, kw, r, c) ==> FilteredAt(p, kh, kw, MinOf, i, j) <= EdgeRead(p, r, c)
    ensures exists r, c :: InNeighbourhood(i, j, kh, kw, r, c) && FilteredAt(p, kh, kw, MinOf, i, j) == EdgeRead(p, r, c)
  {
    WindowIsNeighbourhood(p, kh, kw, i, j);
    var s := Window(Pad(p, kh / 2, kw / 2).value, i, j, kh, kw);
    assert FilteredAt(p, kh, kw, MinOf, i, j) == SeqMin(s) && SeqMin(s) in s;
  }

  /** Dilated pixel (i, j) is the maximum of the edge-replicated neighbourhood of (i, j). */
  lemma DilateIsNeighbourhoodMax(p: Plane, kh: nat, kw: nat, i: nat, j: nat)
    requires p.Valid() && kh >= 1 && kw >= 1 && i < p.height && j < p.width
    ensures forall r, c :: InNeighbourhood(i, j, kh, kw, r, c) ==> EdgeRead(p, r, c) <= FilteredAt(p, kh, kw, MaxOf, i, j)
    ensures exists r, c :: InNeighbourhood(i, j, kh, kw, r, c) && FilteredAt(p, kh, kw, MaxOf, i, j) == EdgeRead(p, r, c)
  {
    WindowIsNeighbourhood(p, kh, kw, i, j);
    var s := Window(Pad(p, kh / 2, kw / 2).value, i, j, kh, kw);
    assert FilteredAt(p, kh, kw, MaxOf, i, j) == SeqMax(s) && SeqMax(s) in s;
  }

  /** Every eroded sample is at most the input sample at that pixel, because the
      neighbourhood of a pixel contains the pixel itself. */
  lemma ErodeBelowInput(p: Plane, kh: nat, kw: nat, i: nat, j: nat)
    requires p.Valid() && kh >= 1 && kw >= 1 && i < p.height && j < p.width
    ensures FilteredAt(p, kh, kw, MinOf, i, j) <= p.rows[i][j]
  {
    ErodeIsNeighbourhoodMin(p, kh, kw, i, j);
    assert InNeighbourhood(i, j, kh, kw, i, j);
    EdgeReadNearest(p, i, j);
  }

  /** Every dilated sample is at least the input sample at that pixel. */
  lemma DilateAboveInput(p: Plane, kh: nat, kw: nat, i: nat, j: nat)
    requires p.Valid() && kh >= 1 && kw >= 1 && i < p.height && j < p.width
    ensures p.rows[i][j] <= FilteredAt(p, kh, kw, MaxOf, i, j)
  {
    DilateIsNeighbourhoodMax(p, kh, kw, i, j);
    assert InNeighbourhood(i, j, kh, kw, i, j);
    EdgeReadNearest(p, i, j);
  }

  /** Edge replication commutes with inversion. */
  lemma EdgeReadInverted(p: Plane, r: int, c: int)
    requires p.Valid() && p.height > 0 && p.width > 0
    ensures EdgeRead(Inverted(p), r, c) == 255 - EdgeRead(p, r, c)
  {
  }

  /** Dilation is erosion of the negative, negated: at every pixel
      dilate(p) == 255 - erode(255 - p) for the same kernel shape. */
  lemma ErodeDilateDuality(p: Plane, kh: nat, kw: nat, i: nat, j: nat)
    requires p.Valid() && kh >= 1 && kw >= 1 && i < p.height && j < p.width
    ensures FilteredAt(p, kh, kw, MaxOf, i, j) == 255 - FilteredAt(Inverted(p), kh, kw, MinOf, i, j)
  {
    var n := Inverted(p);
    var hi := FilteredAt(p, kh, kw, MaxOf, i, j);
    var lo := FilteredAt(n, kh, kw, MinOf, i, j);
    DilateIsNeighbourhoodMax(p, kh, kw, i, j);
    ErodeIsNeighbourhoodMin(n, kh, kw, i, j);
    var r1, c1 :| InNeighbourhood(i, j, kh, kw, r1, c1) && hi == EdgeRead(p, r1, c1);
    var r2, c2 :| InNeighbourhood(i, j, kh, kw, r2, c2) && lo == EdgeRead(n, r2, c2);
    EdgeReadInverted(p, r1, c1);
    EdgeReadInverted(p, r2, c2);
    assert lo <= EdgeRead(n, r1, c1);
    assert EdgeRead(p, r2, c2) <= hi;
  }

  /** The duality for whole planes: dilating `p` gives the negative of eroding the
      negative of `p`, and the two fail together. */
  lemma DilateIsInvertedErode(p: Plane, kh: nat, kw: nat)
    requires p.Valid() && kh >= 1 && kw >= 1
    ensures Filtered(p, kh, kw, MaxOf).Ok? <==> Filtered(Inverted(p), kh, kw, MinOf).Ok?
    ensures Filtered(p, kh, kw, MaxOf).Ok? ==>
              Filtered(p, kh, kw, MaxOf).value == Inverted(Filtered(Inverted(p), kh, kw, MinOf).value)
  {
    if Filtered(p, kh, kw, MaxOf).Ok? {
      var d := Filtered(p, kh, kw, MaxOf).value;
      var e := Inverted(Filtered(Inverted(p), kh, kw, MinOf).value);
      forall i, j | 0 <= i < p.height && 0 <= j < p.width
        ensures d.rows[i][j] == e.rows[i][j]
      {
        ErodeDilateDuality(p, kh, kw, i, j);
      }
      PlanesEqual(d, e);
    }
  }

  /** At every pixel the median lies between the erosion and the dilation with the same
      square kernel. */
  lemma MedianBetweenErodeAndDilate(p: Plane, k: nat, i: nat, j: nat)
    requires p.Valid() && k >= 1 && i < p.height && j < p.width
    ensures FilteredAt(p, k, k, MinOf, i, j) <= FilteredAt(p, k, k, MedianOf, i, j) <= FilteredAt(p, k, k, MaxOf, i, j)
  {
  }

  /** For an odd kernel size the window holds an odd number k * k of samples and the
      median is one of them: a sample of the neighbourhood of the pixel. */
  lemma MedianIsNeighbourhoodSample(p: Plane, k: nat, i: nat, j: nat)
    requires p.Valid() && k >= 1 && k % 2 == 1 && i < p.height && j < p.width
    ensures exists r, c :: InNeighbourhood(i, j, k, k, r, c) && FilteredAt(p, k, k, MedianOf, i, j) == EdgeRead(p, r, c)
  {
    WindowIsNeighbourhood(p, k, k, i, j);
    var s := Window(Pad(p, k / 2, k / 2).value, i, j, k, k);
    OddSquare(k);
    WindowSize(Pad(p, k / 2, k / 2).value, i, j, k, k);
    assert |s| % 2 == 1;
    MedianBounds(s);
    assert FilteredAt(p, k, k, MedianOf, i, j) == SeqMedian(s) && SeqMedian(s) in s;
  }

  lemma OddSquare(k: nat)
    requires k % 2 == 1
    ensures (k * k) % 2 == 1
  {
    var m := k / 2;
    assert k == 2 * m + 1;
    calc {
      k * k;
      (2 * m + 1) * (2 * m + 1);
      2 * (2 * m * m + 2 * m) + 1;
    }
  }

  /** A uniform non-empty plane is a fixed point of erosion, dilation and the median. */
  lemma UniformIsFixedPoint(p: Plane, v: Sample, kh: nat, kw: nat, red: Reduction)
    requires p.Valid() && p.height > 0 && p.width > 0 && Uniform(p, v) && kh >= 1 && kw >= 1
    ensures Filtered(p, kh, kw, red) == Ok(p)
  {
    var f := Filtered(p, kh, kw, red).value;
    var q := Pad(p, kh / 2, kw / 2).value;
    forall i, j | 0 <= i < p.height && 0 <= j < p.width
      ensures f.rows[i][j] == p.rows[i][j]
    {
      WindowIsNeighbourhood(p, kh, kw, i, j);
      var s := Window(q, i, j, kh, kw);
      forall x | x in s
        ensures x == v
      {
        var r, c :| InNeighbourhood(i, j, kh, kw, r, c) && EdgeRead(p, r, c) == x;
      }
      ConstantWindow(s, v);
      assert f.rows[i][j] == Reduce(red, s);
    }
    PlanesEqual(f, p);
  }

  /** Growing the kernel never raises an eroded sample: the larger neighbourhood contains
      the smaller one. */
  lemma ErodeShrinksAsKernelGrows(p: Plane, kh: nat, kw: nat, kh2: nat, kw2: nat, i: nat, j: nat)
    requires p.Valid() && 1 <= kh <= kh2 && 1 <= kw <= kw2 && i < p.height && j < p.width
    ensures FilteredAt(p, kh2, kw2, MinOf, i, j) <= FilteredAt(p, kh, kw, MinOf, i, j)
  {
    ErodeIsNeighbourhoodMin(p, kh, kw, i, j);
    ErodeIsNeighbourhoodMin(p, kh2, kw2, i, j);
    var r, c :| InNeighbourhood(i, j, kh, kw, r, c) && FilteredAt(p, kh, kw, MinOf, i, j) == EdgeRead(p, r, c);
    assert InNeighbourhood(i, j, kh2, kw2, r, c);
  }

  /** Growing the kernel never lowers a dilated sample. */
  lemma DilateGrowsAsKernelGrows(p: Plane, kh: nat, kw: nat, kh2: nat, kw2: nat, i: nat, j: nat)
    requires p.Valid() && 1 <= kh <= kh2 && 1 <= kw <= kw2 && i < p.height && j < p.width
    ensures FilteredAt(p, kh, kw, MaxOf, i, j) <= FilteredAt(p, kh2, kw2, MaxOf, i, j)
  {
    DilateIsNeighbourhoodMax(p, kh, kw, i, j);
    DilateIsNeighbourhoodMax(p, kh2, kw2, i, j);
    var r, c :| InNeighbourhood(i, j, kh, kw, r, c) && FilteredAt(p, kh, kw, MaxOf, i, j) == EdgeRead(p, r, c);
    assert InNeighbourhood(i, j, kh2, kw2, r, c);
  }

  /** A plane of the input's shape whose pixel (i, j) reduces the window of the padded
      input with top-left corner (i, j) is the filtered plane. */
  lemma FilledIsFiltered(p: Plane, kh: nat, kw: nat, red: Reduction, q: Plane, out: Plane)
    requires p.Valid() && kh >= 1 && kw >= 1 && Pad(p, kh / 2, kw / 2) == Ok(q)
    requires q.height >= p.height + kh - 1 && q.width >= p.width + kw - 1
    requires out.Valid() && out.height == p.height && out.width == p.width
    requires forall i, j :: 0 <= i < p.height && 0 <= j < p.width ==>
      out.rows[i][j] == Reduce(red, Window(q, i, j, kh, kw))
    ensures Filtered(p, kh, kw, red) == Ok(out)
  {
    PlanesEqual(out, Filtered(p, kh, kw, red).value);
  }

  /** Erosion: every output pixel is the minimum of its window.  Allocates a zero plane, pads the input and fills
      the output pixel by pixel with the minimum of each window. */
  method Erode(img: Plane, kh: nat, kw: nat) returns (r: Result<Plane>)
    requires img.Valid() && kh >= 1 && kw >= 1
    ensures r == Filtered(img, kh, kw, MinOf)
  {
    var h, w := img.height, img.width;
    var out := new Sample[h, w]((_, _) => 0);
    var padded :- Pad(img, kh / 2, kw / 2);
    assert h + kh <= padded.height + 1 && w + kw <= padded.width + 1;
    for i := 0 to h
      invariant forall i', j' {:trigger out[i', j']} :: 0 <= i' < i && 0 <= j' < w ==> out[i', j'] == SeqMin(Window(padded, i', j', kh, kw))
    {
      label RowStart:
      for j := 0 to w
        invariant forall i', j' {:trigger out[i', j']} :: 0 <= i' < i && 0 <= j' < w ==> out[i', j'] == old@RowStart(out[i', j'])
        invariant forall j' {:trigger out[i, j']} :: 0 <= j' < j ==> out[i, j'] == SeqMin(Window(padded, i, j', kh, kw))
      {
        out[i, j] := SeqMin(Window(padded, i, j, kh, kw));
      }
      assert forall i', j' :: 0 <= i' <= i && 0 <= j' < w ==> out[i', j'] == SeqMin(Window(padded, i', j', kh, kw)) by {
        forall i', j' | 0 <= i' <= i && 0 <= j' < w
          ensures out[i', j'] == SeqMin(Window(padded, i', j', kh, kw))
        {
          if i' == i { assert out[i, j'] == SeqMin(Window(padded, i, j', kh, kw)); }
        }
      }
    }
    r := Ok(PlaneOf(out));
    FilledIsFiltered(img, kh, kw, MinOf, padded, r.value);
  }

  /** Dilation: every output pixel is the maximum of its window.  Allocates a zero plane, pads the input and fills
      the output pixel by pixel with the maximum of each window. */
  method Dilate(img: Plane, kh: nat, kw: nat) returns (r: Result<Plane>)
    requires img.Valid() && kh >= 1 && kw >= 1
    ensures r == Filtered(img, kh, kw, MaxOf)
  {
    var h, w := img.height, img.width;
    var out := new Sample[h, w]((_, _) => 0);
    var padded :- Pad(img, kh / 2, kw / 2);
    assert h + kh <= padded.height + 1 && w + kw <= padded.width + 1;
    for i := 0 to h
      invariant forall i', j' {:trigger out[i', j']} :: 0 <= i' < i && 0 <= j' < w ==> out[i', j'] == SeqMax(Window(padded, i', j', kh, kw))
    {
      label RowStart:
      for j := 0 to w
        invariant forall i', j' {:trigger out[i', j']} :: 0 <= i' < i && 0 <= j' < w ==> out[i', j'] == old@RowStart(out[i', j'])
        invariant forall j' {:trigger out[i, j']} :: 0 <= j' < j ==> out[i, j'] == SeqMax(Window(padded, i, j', kh, kw))
      {
        out[i, j] := SeqMax(Window(padded, i, j, kh, kw));
      }
      assert forall i', j' :: 0 <= i' <= i && 0 <= j' < w ==> out[i', j'] == SeqMax(Window(padded, i', j', kh, kw)) by {
        forall i', j' | 0 <= i' <= i && 0 <= j' < w
          ensures out[i', j'] == SeqMax(Window(padded, i', j', kh, kw))
        {
          if i' == i { assert out[i, j'] == SeqMax(Window(padded, i, j', kh, kw)); }
        }
      }
    }
    r := Ok(PlaneOf(out));
    FilledIsFiltered(img, kh, kw, MaxOf, padded, r.value);
  }

  /** Median filter with a square `k` by `k` window (only the kernel's first dimension is used).  Allocates a zero
      plane, pads the input and fills the output pixel by pixel with the median of each window. */
  method Median(img: Plane, k: nat) returns (r: Result<Plane>)
    requires img.Valid() && k >= 1
    ensures r == Filtered(img, k, k, MedianOf)
  {
    var h, w := img.height, img.width;
    var out := new Sample[h, w]((_, _) => 0);
    var padded :- Pad(img, k / 2, k / 2);
    assert h + k <= padded.height + 1 && w + k <= padded.width + 1;
    for i := 0 to h
      invariant forall i', j' {:trigger out[i', j']} :: 0 <= i' < i && 0 <= j' < w ==> out[i', j'] == SeqMedian(Window(padded, i', j', k, k))
    {
      label RowStart:
      for j := 0 to w
        invariant forall i', j' {:trigger out[i', j']} :: 0 <= i' < i && 0 <= j' < w ==> out[i', j'] == old@RowStart(out[i', j'])
        invariant forall j' {:trigger out[i, j']} :: 0 <= j' < j ==> out[i, j'] == SeqMedian(Window(padded, i, j', k, k))
      {
        out[i, j] := SeqMedian(Window(padded, i, j, k, k));
      }
      assert forall i', j' :: 0 <= i' <= i && 0 <= j' < w ==> out[i', j'] == SeqMedian(Window(padded, i', j', k, k)) by {
        forall i', j' | 0 <= i' <= i && 0 <= j' < w
          ensures out[i', j'] == SeqMedian(Window(padded, i', j', k, k))
        {
          if i' == i { assert out[i, j'] == SeqMedian(Window(padded, i, j', k, k)); }
        }
      }
    }
    r := Ok(PlaneOf(out));
    FilledIsFiltered(img, k, k, MedianOf, padded, r.value);
  }
}
