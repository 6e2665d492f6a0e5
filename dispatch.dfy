/** Applying one named filter to the red, green and blue channels of a colour image and
    stacking the three results into the filtered image. */
module Dispatch {
  import opened Errors
  import opened Planes
  import opened Padding
  import opened Channels
  import WindowFilters
  import PointTransforms

  /** The filters a name can select. */
  datatype FilterKind = Erode | Dilate | Median | Gaussian | LightingCorrection | GammaCorrection | Binarization

  /** The name that selects each filter. */
  function FilterName(f: FilterKind): string {
    match f
    case Erode => "erode"
    case Dilate => "dilate"
    case Median => "median"
    case Gaussian => "gaussian"
    case LightingCorrection => "lighting_correction"
    case GammaCorrection => "gamma_correction"
    case Binarization => "binarization"
  }

  /** The filter a name selects, if any: the names are compared as exact strings. */
  function ParseFilter(name: string): (r: Option<FilterKind>)
    ensures r.Some? ==> FilterName(r.value) == name
    ensures r.None? ==> forall f: FilterKind :: FilterName(f) != name
  {
    if name == "erode" then Some(Erode)
    else if name == "dilate" then Some(Dilate)
    else if name == "median" then Some(Median)
    else if name == "gaussian" then Some(Gaussian)
    else if name == "lighting_correction" then Some(LightingCorrection)
    else if name == "gamma_correction" then Some(GammaCorrection)
    else if name == "binarization" then Some(Binarization)
    else None
  }

  /** Every filter is selected by its own name and by no other: parsing inverts naming. */
  lemma ParseFilterInvertsName(f: FilterKind, name: string)
    ensures ParseFilter(FilterName(f)) == Some(f)
    ensures ParseFilter(name) == Some(f) ==> name == FilterName(f)
  {
  }

  /** One filter applied to one plane with a `kh` by `kw` kernel, at its default parameters.
      The median reads the kernel's height only; the floating-point filters are outside
      the model. */
  function ApplyFilter(f: FilterKind, p: Plane, kh: nat, kw: nat): (r: Result<Plane>)
    requires p.Valid() && kh >= 1 && kw >= 1
    ensures r.Ok? ==> r.value.Valid() && r.value.height == p.height && r.value.width == p.width
    ensures r.Err? <==>
      f.Gaussian? || f.GammaCorrection? ||
      ((f.Erode? || f.Dilate?) && PadFails(p.height, p.width, kh / 2, kw / 2)) ||
      (f.Median? && PadFails(p.height, p.width, kh / 2, kh / 2))
    ensures r.Err? && (f.Gaussian? || f.GammaCorrection?) ==> r.error == NotModelled(FilterName(f))
  {
    match f
    case Erode => WindowFilters.Filtered(p, kh, kw, WindowFilters.MinOf)
    case Dilate => WindowFilters.Filtered(p, kh, kw, WindowFilters.MaxOf)
    case Median => WindowFilters.Filtered(p, kh, kh, WindowFilters.MedianOf)
    case LightingCorrection => Ok(PointTransforms.LightingCorrection(p, PointTransforms.DefaultBrightness))
    case Binarization => Ok(PointTransforms.Binarization(p, PointTransforms.DefaultThreshold))
    case Gaussian => Err(NotModelled(FilterName(f)))
    case GammaCorrection => Err(NotModelled(FilterName(f)))
  }

  /** Whether a filter succeeds on a plane, and which error it reports, depends on the
      plane's shape only, never on its samples. */
  lemma ApplyFilterOutcomeDependsOnShape(f: FilterKind, p: Plane, q: Plane, kh: nat, kw: nat)
    requires p.Valid() && q.Valid() && kh >= 1 && kw >= 1 && p.height == q.height && p.width == q.width
    ensures ApplyFilter(f, p, kh, kw).Ok? <==> ApplyFilter(f, q, kh, kw).Ok?
    ensures ApplyFilter(f, p, kh, kw).Err? ==> ApplyFilter(f, p, kh, kw).error == ApplyFilter(f, q, kh, kw).error
  {
  }

  /** The three filtered channels stacked into a colour image; the filter runs on the red
      channel first, then green, then blue, and the first failure is the result. */
  function Stacked(red: Result<Plane>, green: Result<Plane>, blue: Result<Plane>): Result<Image>
    requires red.Ok? ==> red.value.Valid()
    requires green.Ok? ==> green.value.Valid()
    requires blue.Ok? ==> blue.value.Valid()
  {
    if red.Err? then Err(red.error)
    else if green.Err? then Err(green.error)
    else if blue.Err? then Err(blue.error)
    else MergeChannels(red.value, green.value, blue.value)
  }

  /** The filtered colour image: the first three channels are filtered separately by the
      filter `name` selects and stacked again.  An image with fewer than three channels
      fails before the name is looked at; a name that selects no filter fails next. */
  function Dispatched(img: Image, name: string, kh: nat, kw: nat): (r: Result<Image>)
    requires img.Valid() && kh >= 1 && kw >= 1
    ensures img.channels < 3 ==> r == Err(MissingChannel)
    ensures img.channels >= 3 && ParseFilter(name).None? ==> r == Err(UnknownFilter(name))
    ensures r.Ok? ==> r.value.Valid() && r.value.height == img.height && r.value.width == img.width && r.value.channels == 3
  {
    if img.channels < 3 then Err(MissingChannel)
    else match ParseFilter(name)
    case None => Err(UnknownFilter(name))
    case Some(f) =>
      Stacked(ApplyFilter(f, Channel(img, 0), kh, kw),
              ApplyFilter(f, Channel(img, 1), kh, kw),
              ApplyFilter(f, Channel(img, 2), kh, kw))
  }

  /** The outcome of filtering a colour image with a recognised filter: it fails exactly
      when the filter fails on the shape of one channel.  The channels always have one
      shape, so stacking never fails. */
  lemma DispatchedOutcome(img: Image, name: string, kh: nat, kw: nat)
    requires img.Valid() && kh >= 1 && kw >= 1
    ensures img.channels >= 3 && ParseFilter(name).Some? ==>
      (Dispatched(img, name, kh, kw).Ok? <==> ApplyFilter(ParseFilter(name).value, Channel(img, 0), kh, kw).Ok?)
    ensures Dispatched(img, name, kh, kw).Err? ==> Dispatched(img, name, kh, kw).error != ShapeMismatch
  {
    if img.channels >= 3 && ParseFilter(name).Some? {
      var f := ParseFilter(name).value;
      ApplyFilterOutcomeDependsOnShape(f, Channel(img, 0), Channel(img, 1), kh, kw);
      ApplyFilterOutcomeDependsOnShape(f, Channel(img, 0), Channel(img, 2), kh, kw);
    }
  }

  /** A filtered colour image has the input's height and width and three channels, and
      each of its channels is the selected filter applied to the same channel of the
      input: the same filter, with the same kernel, on every channel. */
  lemma DispatchedFiltersEveryChannel(img: Image, name: string, kh: nat, kw: nat)
    requires img.Valid() && kh >= 1 && kw >= 1 && Dispatched(img, name, kh, kw).Ok?
    ensures img.channels >= 3 && ParseFilter(name).Some?
    ensures var out := Dispatched(img, name, kh, kw).value;
      out.Valid() && out.height == img.height && out.width == img.width && out.channels == 3 &&
      forall c :: 0 <= c < 3 ==>
        ApplyFilter(ParseFilter(name).value, Channel(img, c), kh, kw) == Ok(Channel(out, c))
  {
    var f := ParseFilter(name).value;
    var red := ApplyFilter(f, Channel(img, 0), kh, kw).value;
    var green := ApplyFilter(f, Channel(img, 1), kh, kw).value;
    var blue := ApplyFilter(f, Channel(img, 2), kh, kw).value;
    SplitAfterMerge(red, green, blue);
  }

  /** Filters the red, green and blue channels of `img` with the filter named `name` and
      stacks the results: one branch per name, each calling the filter once per channel. */
  method FilterImage(img: Image, name: string, kh: nat, kw: nat) returns (r: Result<Image>)
    requires img.Valid() && kh >= 1 && kw >= 1
    ensures r == Dispatched(img, name, kh, kw)
  {
    if img.channels < 3 {
      return Err(MissingChannel);
    }
    var red, green, blue := Channel(img, 0), Channel(img, 1), Channel(img, 2);
    var redOut: Result<Plane>, greenOut: Result<Plane>, blueOut: Result<Plane>;
    if name == "erode" {
      redOut := WindowFilters.Erode(red, kh, kw);
      greenOut := WindowFilters.Erode(green, kh, kw);
      blueOut := WindowFilters.Erode(blue, kh, kw);
    } else if name == "dilate" {
      redOut := WindowFilters.Dilate(red, kh, kw);
      greenOut := WindowFilters.Dilate(green, kh, kw);
      blueOut := WindowFilters.Dilate(blue, kh, kw);
    } else if name == "median" {
      redOut := WindowFilters.Median(red, kh);
      greenOut := WindowFilters.Median(green, kh);
      blueOut := WindowFilters.Median(blue, kh);
    } else if name == "gaussian" {
      return Err(NotModelled(name));
    } else if name == "lighting_correction" {
      redOut := Ok(PointTransforms.LightingCorrection(red, PointTransforms.DefaultBrightness));
      greenOut := Ok(PointTransforms.LightingCorrection(green, PointTransforms.DefaultBrightness));
      blueOut := Ok(PointTransforms.LightingCorrection(blue, PointTransforms.DefaultBrightness));
    } else if name == "gamma_correction" {
      return Err(NotModelled(name));
    } else if name == "binarization" {
      redOut := Ok(PointTransforms.Binarization(red, PointTransforms.DefaultThreshold));
      greenOut := Ok(PointTransforms.Binarization(green, PointTransforms.DefaultThreshold));
      blueOut := Ok(PointTransforms.Binarization(blue, PointTransforms.DefaultThreshold));
    } else {
      return Err(UnknownFilter(name));
    }
    r := Stacked(redOut, greenOut, blueOut);
  }
}
