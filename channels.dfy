/** Colour images as height x width x channels arrays, the planes of their channels, and
    stacking three planes back into a colour image. */
module Channels {
  import opened Errors
  import opened Planes

  /** An image with `channels` samples per pixel; `pixels[i][j]` is the pixel in row `i`
      and column `j`. */
  datatype Image = Image(height: nat, width: nat, channels: nat, pixels: seq<seq<seq<Sample>>>) {
    predicate Valid() {
      |pixels| == height &&
      (forall i :: 0 <= i < height ==> |pixels[i]| == width) &&
      (forall i, j :: 0 <= i < height && 0 <= j < width ==> |pixels[i][j]| == channels)
    }
  }

  function ChannelRow(img: Image, c: nat, i: nat): (row: seq<Sample>)
    requires img.Valid() && c < img.channels && i < img.height
    ensures |row| == img.width
    ensures forall j :: 0 <= j < img.width ==> row[j] == img.pixels[i][j][c]
  {
    seq(img.width, j requires 0 <= j < img.width => img.pixels[i][j][c])
  }

  /** Channel `c` of a colour image as a plane of the image's height and width, sample
      (i, j) being component `c` of pixel (i, j). */
  function Channel(img: Image, c: nat): (p: Plane)
    requires img.Valid() && c < img.channels
    ensures p.Valid() && p.height == img.height && p.width == img.width
    ensures forall i, j :: 0 <= i < img.height && 0 <= j < img.width ==> p.rows[i][j] == img.pixels[i][j][c]
  {
    Plane(img.height, img.width, seq(img.height, i requires 0 <= i < img.height => ChannelRow(img, c, i)))
  }

  /** Two planes of the same height and width. */
  predicate SameShape(p: Plane, q: Plane) {
    p.height == q.height && p.width == q.width
  }

  function MergedRow(r: Plane, g: Plane, b: Plane, i: nat): (row: seq<seq<Sample>>)
    requires r.Valid() && g.Valid() && b.Valid() && SameShape(r, g) && SameShape(r, b) && i < r.height
    ensures |row| == r.width
    ensures forall j :: 0 <= j < r.width ==> row[j] == [r.rows[i][j], g.rows[i][j], b.rows[i][j]]
  {
    seq(r.width, j requires 0 <= j < r.width => [r.rows[i][j], g.rows[i][j], b.rows[i][j]])
  }

  /** Stacks three planes along a new last axis.  Planes of different shapes cannot be
      stacked; otherwise the result is a three-channel image of their shape whose pixel
      (i, j) holds the three samples at (i, j) in the order r, g, b. */
  function MergeChannels(r: Plane, g: Plane, b: Plane): (m: Result<Image>)
    requires r.Valid() && g.Valid() && b.Valid()
    ensures m.Err? <==> !(SameShape(r, g) && SameShape(r, b))
    ensures m.Err? ==> m.error == ShapeMismatch
    ensures m.Ok? ==> m.value.Valid() && m.value.height == r.height && m.value.width == r.width && m.value.channels == 3
    ensures m.Ok? ==> forall i, j :: 0 <= i < r.height && 0 <= j < r.width ==>
      m.value.pixels[i][j] == [r.rows[i][j], g.rows[i][j], b.rows[i][j]]
  {
    if !(SameShape(r, g) && SameShape(r, b)) then Err(ShapeMismatch)
    else Ok(Image(r.height, r.width, 3, seq(r.height, i requires 0 <= i < r.height => MergedRow(r, g, b, i))))
  }

  /** Splitting a merged image gives back the three planes it was merged from. */
  lemma SplitAfterMerge(r: Plane, g: Plane, b: Plane)
    requires r.Valid() && g.Valid() && b.Valid() && SameShape(r, g) && SameShape(r, b)
    ensures MergeChannels(r, g, b).Ok?
    ensures var m := MergeChannels(r, g, b).value;
      Channel(m, 0) == r && Channel(m, 1) == g && Channel(m, 2) == b
  {
    var m := MergeChannels(r, g, b).value;
    PlanesEqual(Channel(m, 0), r);
    PlanesEqual(Channel(m, 1), g);
    PlanesEqual(Channel(m, 2), b);
  }

  /** Merging the three channels of a three-channel image gives back the image. */
  lemma MergeAfterSplit(img: Image)
    requires img.Valid() && img.channels == 3
    ensures MergeChannels(Channel(img, 0), Channel(img, 1), Channel(img, 2)) == Ok(img)
  {
    var m := MergeChannels(Channel(img, 0), Channel(img, 1), Channel(img, 2)).value;
    forall i | 0 <= i < img.height
      ensures m.pixels[i] == img.pixels[i]
    {
      forall j | 0 <= j < img.width
        ensures m.pixels[i][j] == img.pixels[i][j]
      {
        var px := img.pixels[i][j];
        assert m.pixels[i][j] == [px[0], px[1], px[2]];
      }
    }
    assert m.pixels == img.pixels;
  }
}
