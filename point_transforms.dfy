/** The point transforms: each output sample depends on the input sample at the same
    place only. */
module PointTransforms {
  import opened Planes

  /** The threshold binarization applies when none is given. */
  const DefaultThreshold: int := 128

  /** The brightness factor lighting correction applies when none is given. */
  const DefaultBrightness: int := 2

  /** One sample binarized: white from the threshold up, black below it. */
  function Binarize(v: Sample, threshold: int): Sample {
    if v >= threshold then 255 else 0
  }

  /** Binarization of a plane at `threshold`: every sample becomes 0 or 255, and it is
      255 exactly when the input sample is at least the threshold. */
  function Binarization(p: Plane, threshold: int): (r: Plane)
    requires p.Valid()
    ensures r.Valid() && r.height == p.height && r.width == p.width
    ensures forall i, j :: 0 <= i < p.height && 0 <= j < p.width ==>
      (r.rows[i][j] == 0 || r.rows[i][j] == 255) && (r.rows[i][j] == 255 <==> p.rows[i][j] >= threshold)
  {
    Plane(p.height, p.width,
          seq(p.height, i requires 0 <= i < p.height =>
            seq(p.width, j requires 0 <= j < p.width => Binarize(p.rows[i][j], threshold))))
  }

  /** Binarizing a binary plane again at the same threshold changes nothing, whatever the
      threshold: below 1 everything is already white, above 255 everything already black,
      and in between 255 stays above and 0 stays below the threshold. */
  lemma BinarizationIdempotent(p: Plane, threshold: int)
    requires p.Valid()
    ensures Binarization(Binarization(p, threshold), threshold) == Binarization(p, threshold)
  {
    var once := Binarization(p, threshold);
    var twice := Binarization(once, threshold);
    forall i, j | 0 <= i < p.height && 0 <= j < p.width
      ensures twice.rows[i][j] == once.rows[i][j]
    {
      if p.rows[i][j] >= threshold {
        assert once.rows[i][j] == 255;
      } else {
        assert once.rows[i][j] == 0;
      }
    }
    PlanesEqual(twice, once);
  }

  /** A higher threshold whitens no more samples than a lower one. */
  lemma BinarizationAntitone(p: Plane, lo: int, hi: int)
    requires p.Valid() && lo <= hi
    ensures forall i, j :: 0 <= i < p.height && 0 <= j < p.width ==>
      Binarization(p, hi).rows[i][j] <= Binarization(p, lo).rows[i][j]
  {
    var a, b := Binarization(p, hi), Binarization(p, lo);
    forall i, j | 0 <= i < p.height && 0 <= j < p.width
      ensures a.rows[i][j] <= b.rows[i][j]
    {
      if a.rows[i][j] == 255 {
        assert b.rows[i][j] == 255;
      }
    }
  }

  /** At the default threshold 128 the plane [[0, 127], [128, 255]] becomes
      [[0, 0], [255, 255]]. */
  lemma BinarizationExample()
    ensures Binarization(Plane(2, 2, [[0, 127], [128, 255]]), DefaultThreshold)
            == Plane(2, 2, [[0, 0], [255, 255]])
  {
    var r := Binarization(Plane(2, 2, [[0, 127], [128, 255]]), DefaultThreshold);
    assert r.rows[0][1] == 0 && r.rows[1][0] == 255;
    PlanesEqual(r, Plane(2, 2, [[0, 0], [255, 255]]));
  }

  /** One sample scaled by `brightness` and clipped back into the sample range. */
  function Lighten(v: Sample, brightness: int): Sample {
    Clamp(v * brightness, 0, 255)
  }

  /** Lighting correction: every sample is multiplied by `brightness` and the product is
      clipped into [0, 255]. */
  function LightingCorrection(p: Plane, brightness: int): (r: Plane)
    requires p.Valid()
    ensures r.Valid() && r.height == p.height && r.width == p.width
    ensures forall i, j :: 0 <= i < p.height && 0 <= j < p.width ==>
      r.rows[i][j] == Clamp(p.rows[i][j] * brightness, 0, 255)
  {
    Plane(p.height, p.width,
          seq(p.height, i requires 0 <= i < p.height =>
            seq(p.width, j requires 0 <= j < p.width => Lighten(p.rows[i][j], brightness))))
  }

  /** Brightness 1 leaves a plane unchanged. */
  lemma LightingIdentity(p: Plane)
    requires p.Valid()
    ensures LightingCorrection(p, 1) == p
  {
    PlanesEqual(LightingCorrection(p, 1), p);
  }

  /** With a non-negative brightness a sample becomes the product capped at 255; the
      correction keeps the order of samples, never darkens a sample for a factor of at
      least 1, and saturates exactly when the product reaches 255. */
  lemma LightenProperties(v: Sample, w: Sample, brightness: int)
    requires brightness >= 0
    ensures Lighten(v, brightness) == if v * brightness <= 255 then v * brightness else 255
    ensures v <= w ==> Lighten(v, brightness) <= Lighten(w, brightness)
    ensures brightness >= 1 ==> v <= Lighten(v, brightness)
    ensures v * brightness >= 255 <==> Lighten(v, brightness) == 255
  {
    if v <= w {
      assert v * brightness <= w * brightness by { ScaleMonotone(v, w, brightness); }
    }
    if brightness >= 1 {
      ScaleMonotone(1, brightness, v);
    }
  }

  lemma ScaleMonotone(a: int, b: int, c: int)
    requires a <= b && c >= 0
    ensures a * c <= b * c
  {
  }

  /** Two corrections with non-negative factors make one with the product of the factors:
      a product clipped to 255 stays at 255 under a further factor of at least 1. */
  lemma LightingComposes(p: Plane, a: int, b: int)
    requires p.Valid() && a >= 0 && b >= 0
    ensures LightingCorrection(LightingCorrection(p, a), b) == LightingCorrection(p, a * b)
  {
    var twice := LightingCorrection(LightingCorrection(p, a), b);
    var once := LightingCorrection(p, a * b);
    forall i, j | 0 <= i < p.height && 0 <= j < p.width
      ensures twice.rows[i][j] == once.rows[i][j]
    {
      LightenComposes(p.rows[i][j], a, b);
    }
    PlanesEqual(twice, once);
  }

  lemma LightenComposes(v: Sample, a: int, b: int)
    requires a >= 0 && b >= 0
    ensures Lighten(Lighten(v, a), b) == Lighten(v, a * b)
  {
    assert v * (a * b) == (v * a) * b;
    if v * a > 255 && b >= 1 {
      ScaleMonotone(255, v * a, b);
      ScaleMonotone(1, b, 255);
    }
  }

  /** At the default brightness 2 a sample of 200 saturates to 255 and a sample of 100
      doubles to 200. */
  lemma LightingExample()
    ensures LightingCorrection(Plane(1, 2, [[200, 100]]), DefaultBrightness)
            == Plane(1, 2, [[255, 200]])
  {
    var r := LightingCorrection(Plane(1, 2, [[200, 100]]), DefaultBrightness);
    assert r.rows[0][0] == 255 && r.rows[0][1] == 200;
    PlanesEqual(r, Plane(1, 2, [[255, 200]]));
  }
}
