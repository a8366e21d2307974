/** The per-image record and the body of the analysis worker of
    src/model/image_data.rs: the label size table, the pore filter (with and
    without a selected region) and the density. The greyscale conversion,
    the thresholding and the connected-component labelling are library
    calls; their results, the mask and the label map, are inputs here. */
module ImageDataModel {
  import opened Wrappers
  import opened Pixels

  const I32_MIN: int := -0x8000_0000
  const I32_MAX: int := 0x7FFF_FFFF
  const U32_MAX: int := 0xFFFF_FFFF

  newtype byte = x: int | 0 <= x < 256

  /** A pixel of the thresholded mask, as far as the analysis tests it
      (`== Luma::black()` or not). */
  datatype Shade = Black | White

  /** An RGBA pixel. */
  datatype Rgba = Rgba(r: byte, g: byte, b: byte, a: byte)

  /** `egui_plot::PlotPoint`; its `f64` components are reals here. Plot
      coordinates measure y upwards from the bottom of the image. */
  datatype PlotPoint = PlotPoint(x: real, y: real)

  /** A decoded image: its size and its pixels as RGBA, row-major. */
  datatype Raster = Raster(width: nat, height: nat, pixels: seq<Rgba>)
  {
    predicate Valid()
    {
      |pixels| == width * height
    }
  }

  /** `ImageData`, with the two fields that app.rs and detection_app.rs
      use beside the ones image_data.rs declares (`green_pixels`,
      `included_min_feature_size`). The `f32` pore bounds are reals. */
  datatype ImageData = ImageData(
    path: Option<string>,
    image: Option<Raster>,
    density: Option<real>,
    blackPixels: Option<seq<Coord>>,
    greenPixels: Option<seq<Coord>>,
    regionStart: Option<PlotPoint>,
    regionEnd: Option<PlotPoint>,
    threshold: int,
    minimalPoreSizeLow: real,
    minimalPoreSizeHigh: real,
    includedMinFeatureSize: real)

  /** Rust's saturating `as i32` on a float: truncation toward zero, clamped
      to the `i32` range. */
  function AsI32(v: real): (n: int)
    ensures I32_MIN <= n <= I32_MAX
    ensures 0.0 <= v ==> 0 <= n && n as real <= v && (n < I32_MAX ==> v < n as real + 1.0)
    ensures v <= 0.0 ==> n <= 0 && v <= n as real && (I32_MIN < n ==> n as real - 1.0 < v)
  {
    if v >= I32_MAX as real then I32_MAX
    else if v <= I32_MIN as real then I32_MIN
    else if v >= 0.0 then v.Floor
    else -((-v).Floor)
  }

  /** Rust's saturating `as u32` on a float: negatives become 0, the rest is
      truncated and clamped to the `u32` range. */
  function AsU32(v: real): (n: nat)
    ensures n <= U32_MAX
    ensures v <= 0.0 ==> n == 0
    ensures 0.0 <= v ==> n as real <= v && (n < U32_MAX ==> v < n as real + 1.0)
  {
    if v <= 0.0 then 0
    else if v >= U32_MAX as real then U32_MAX
    else v.Floor
  }

  /** `ImageData::default()`: no image, no region, threshold 0, pore bounds
      0..1000. */
  function Default(): (d: ImageData)
    ensures d.path.None? && d.image.None? && d.density.None?
    ensures d.regionStart.None? && d.regionEnd.None? && d.threshold == 0
    ensures AsI32(d.minimalPoreSizeLow) == 0 && AsI32(d.minimalPoreSizeHigh) == 1000
  {
    ImageData(None, None, None, None, None, None, None, 0, 0.0, 1000.0, 0.0)
  }

  // ---------------------------------------------------------------------
  // What the worker captures and what it is given
  // ---------------------------------------------------------------------

  /** The rectangle between the two region corners. */
  datatype Region = Region(start: PlotPoint, end: PlotPoint)

  /** The values the worker copies out of the record before it starts:
      threshold, the two pore bounds and the region, which counts only when
      both of its corners are set. */
  datatype Snapshot = Snapshot(threshold: int, low: real, high: real, region: Option<Region>)

  function SnapshotOf(d: ImageData): (s: Snapshot)
    ensures s.threshold == d.threshold
    ensures s.low == d.minimalPoreSizeLow && s.high == d.minimalPoreSizeHigh
    ensures s.region.Some? <==> d.regionStart.Some? && d.regionEnd.Some?
    ensures s.region.Some? ==> s.region.value == Region(d.regionStart.value, d.regionEnd.value)
  {
    var region :=
      if d.regionStart.Some? && d.regionEnd.Some?
      then Some(Region(d.regionStart.value, d.regionEnd.value))
      else None;
    Snapshot(d.threshold, d.minimalPoreSizeLow, d.minimalPoreSizeHigh, region)
  }

  /** The thresholded mask and the label map, both row-major and of the
      image's size. */
  datatype Frame = Frame(width: nat, height: nat, mask: seq<Shade>, labels: seq<nat>)
  {
    predicate Valid()
    {
      |mask| == width * height && |labels| == width * height
    }
  }

  // ---------------------------------------------------------------------
  // Specification of the classification
  // ---------------------------------------------------------------------

  /** The number of pixels whose label is `l`. */
  function LabelSize(labels: seq<nat>, l: nat): nat
  {
    multiset(labels)[l]
  }

  /** The strict size test of the filter, with both bounds cast `as i32`.
      A size that passes lies strictly between the uncast bounds (unless a
      bound saturates the cast), and with whole bounds inside the `i32`
      range the test is exactly `low < size < high`. */
  predicate SizeInBounds(size: int, s: Snapshot): (b: bool)
    ensures b && s.low < I32_MAX as real ==> s.low < size as real
    ensures b && I32_MIN as real < s.high ==> (size as real) < s.high
    ensures && s.low.Floor as real == s.low && I32_MIN as real <= s.low <= I32_MAX as real
            && s.high.Floor as real == s.high && I32_MIN as real <= s.high <= I32_MAX as real
            ==> (b <==> s.low < size as real < s.high)
  {
    AsI32Near(s.low);
    AsI32Near(s.high);
    AsI32(s.low) < size < AsI32(s.high)
  }

  /** The cast moves a value by less than one, and not at all for a whole
      number inside the `i32` range. */
  lemma AsI32Near(v: real)
    ensures v < I32_MAX as real ==> v < AsI32(v) as real + 1.0
    ensures I32_MIN as real < v ==> AsI32(v) as real - 1.0 < v
    ensures v.Floor as real == v && I32_MIN as real <= v <= I32_MAX as real ==> AsI32(v) as real == v
  {
    if v < 0.0 && I32_MIN as real < v {
      assert (-v).Floor == -(v.Floor) || (-v).Floor == -(v.Floor) - 1;
    }
  }

  /** The region test: the x bounds as they are, the y bounds flipped from
      plot coordinates (measured from the bottom) into rows. A row `y` is
      at plot height `height - y`, and the test holds exactly when that
      height lies between the floored corner heights, end below start. A
      column that passes overlaps the corners' x range. */
  predicate InRegion(c: Coord, r: Region, height: nat): (b: bool)
    ensures c.y <= height ==>
              (b <==> && AsU32(r.start.x) <= c.x <= AsU32(r.end.x)
                      && AsU32(r.end.y) <= height - c.y <= AsU32(r.start.y))
    ensures b && r.start.x < U32_MAX as real ==> r.start.x < c.x as real + 1.0
    ensures b && 0.0 <= r.end.x ==> c.x as real <= r.end.x
  {
    && AsU32(r.start.x) <= c.x <= AsU32(r.end.x)
    && height - AsU32(r.start.y) <= c.y <= height - AsU32(r.end.y)
  }

  /** Pixel `i` is pushed: black, its label's size strictly inside the
      bounds, and inside the region when there is one. */
  predicate Qualifies(f: Frame, s: Snapshot, i: nat): (b: bool)
    requires f.Valid() && i < |f.labels|
    ensures b ==> f.mask[i] == Black && SizeInBounds(LabelSize(f.labels, f.labels[i]), s)
    ensures b && s.region.Some? ==> i / f.width < f.height && InRegion(CoordOf(i, f.width), s.region.value, f.height)
  {
    PositiveWidth(i, f.width, f.height);
    f.mask[i] == Black
    && SizeInBounds(LabelSize(f.labels, f.labels[i]), s)
    && (s.region.Some? ==> InRegion(CoordOf(i, f.width), s.region.value, f.height))
  }

  /** The coordinates of the qualifying pixels among the first `k`, in scan
      order. */
  function PoreScan(f: Frame, s: Snapshot, k: nat): (r: seq<Coord>)
    requires f.Valid() && k <= |f.labels|
    ensures |r| <= k
    decreases k
  {
    if k == 0 then []
    else
      PositiveWidth(k - 1, f.width, f.height);
      PoreScan(f, s, k - 1) + (if Qualifies(f, s, k - 1) then [CoordOf(k - 1, f.width)] else [])
  }

  /** Scanning one more pixel appends it exactly when it qualifies. */
  lemma PoreScanStep(f: Frame, s: Snapshot, i: nat)
    requires f.Valid() && i < |f.labels|
    ensures 0 < f.width
    ensures PoreScan(f, s, i + 1) == PoreScan(f, s, i) + (if Qualifies(f, s, i) then [CoordOf(i, f.width)] else [])
  {
    PositiveWidth(i, f.width, f.height);
  }

  /** Every pushed coordinate lies inside the image, comes from one of the
      first `k` pixels, and that pixel qualifies. */
  lemma {:induction false} PoreScanSound(f: Frame, s: Snapshot, k: nat)
    requires f.Valid() && k <= |f.labels|
    ensures forall c :: c in PoreScan(f, s, k) ==>
              c.x < f.width && c.y < f.height && Index(c, f.width) < k && Qualifies(f, s, Index(c, f.width))
  {
    if k > 0 {
      PositiveWidth(k - 1, f.width, f.height);
      IndexCoordOf(k - 1, f.width);
      PoreScanSound(f, s, k - 1);
    }
  }

  /** Every qualifying pixel is pushed. */
  lemma {:induction false} PoreScanComplete(f: Frame, s: Snapshot, k: nat)
    requires f.Valid() && k <= |f.labels| && 0 < f.width
    ensures forall i :: 0 <= i < k && Qualifies(f, s, i) ==> CoordOf(i, f.width) in PoreScan(f, s, k)
  {
    if k > 0 {
      PoreScanComplete(f, s, k - 1);
    }
  }

  /** The pushed coordinates are in strict scan order, so none repeats. */
  lemma {:induction false} PoreScanOrdered(f: Frame, s: Snapshot, k: nat)
    requires f.Valid() && k <= |f.labels|
    ensures forall a, b :: 0 <= a < b < |PoreScan(f, s, k)| ==>
              ScanBefore(PoreScan(f, s, k)[a], PoreScan(f, s, k)[b]) && PoreScan(f, s, k)[a] != PoreScan(f, s, k)[b]
  {
    if k > 0 {
      PositiveWidth(k - 1, f.width, f.height);
      PoreScanOrdered(f, s, k - 1);
      PoreScanSound(f, s, k - 1);
      var prev := PoreScan(f, s, k - 1);
      forall j | 0 <= j < |prev|
        ensures ScanBefore(prev[j], CoordOf(k - 1, f.width))
      {
        assert prev[j] in prev;
        CoordOfIndex(prev[j], f.width);
        CoordOfOrdered(Index(prev[j], f.width), k - 1, f.width);
      }
    }
  }

  /** The coordinates of `cs` that lie in the region, in their order. */
  function InRegionOnly(cs: seq<Coord>, r: Region, height: nat): (o: seq<Coord>)
    ensures |o| <= |cs|
  {
    if cs == [] then []
    else
      var last := cs[|cs| - 1];
      InRegionOnly(cs[..|cs| - 1], r, height) + (if InRegion(last, r, height) then [last] else [])
  }

  /** With a region, the result is the region-free result restricted to the
      region: a subsequence of it. */
  lemma {:induction false} RegionScanIsRestriction(f: Frame, s: Snapshot, k: nat)
    requires f.Valid() && k <= |f.labels| && s.region.Some?
    ensures PoreScan(f, s, k) == InRegionOnly(PoreScan(f, s.(region := None), k), s.region.value, f.height)
  {
    if k > 0 {
      var i := k - 1;
      PoreScanStep(f, s, i);
      PoreScanStep(f, s.(region := None), i);
      RegionScanIsRestriction(f, s, i);
      QualifiesInRegion(f, s, i);
      var prev := PoreScan(f, s.(region := None), i);
      if Qualifies(f, s.(region := None), i) {
        InRegionOnlyAppend(prev, CoordOf(i, f.width), s.region.value, f.height);
      } else {
        assert prev + [] == prev;
      }
    }
  }

  /** The region test is the region-free test plus the region check. */
  lemma QualifiesInRegion(f: Frame, s: Snapshot, i: nat)
    requires f.Valid() && i < |f.labels| && s.region.Some?
    ensures 0 < f.width
    ensures Qualifies(f, s, i) <==>
              Qualifies(f, s.(region := None), i) && InRegion(CoordOf(i, f.width), s.region.value, f.height)
  {
    PositiveWidth(i, f.width, f.height);
  }

  lemma InRegionOnlyAppend(cs: seq<Coord>, c: Coord, r: Region, height: nat)
    ensures InRegionOnly(cs + [c], r, height) == InRegionOnly(cs, r, height) + (if InRegion(c, r, height) then [c] else [])
  {
    assert (cs + [c])[..|cs|] == cs;
  }

  // ---------------------------------------------------------------------
  // Density
  // ---------------------------------------------------------------------

  function Abs(v: real): real
  {
    if v < 0.0 then -v else v
  }

  /** The denominator of the density: the whole pixel count, or the real
      area between the region corners. */
  function Denominator(width: nat, height: nat, region: Option<Region>): (den: real)
    ensures 0.0 <= den
  {
    match region
    case Some(r) => Abs(r.end.x - r.start.x) * Abs(r.end.y - r.start.y)
    case None => (width * height) as real
  }

  /** The density for `n` pushed pixels; `None` where the source divides by
      zero (its float result is then NaN or negative infinity). */
  function Density(n: nat, width: nat, height: nat, region: Option<Region>): (r: Option<real>)
    ensures r.None? <==> Denominator(width, height, region) == 0.0
  {
    var den := Denominator(width, height, region);
    if den == 0.0 then None else Some((1.0 - n as real / den) * 100.0)
  }

  /** Without a region the density is a percentage: 100 when nothing is
      pushed, 0 when every pixel is. */
  lemma WholeImageDensityInRange(n: nat, width: nat, height: nat)
    requires n <= width * height && 0 < width * height
    ensures Density(n, width, height, None).Some?
    ensures 0.0 <= Density(n, width, height, None).value <= 100.0
    ensures Density(n, width, height, None).value == 100.0 <==> n == 0
    ensures Density(n, width, height, None).value == 0.0 <==> n == width * height
  {
    ShareBounds(n as real, (width * height) as real);
  }

  /** A part of a positive whole is a share in [0, 1]. */
  lemma ShareBounds(part: real, whole: real)
    requires 0.0 <= part <= whole && 0.0 < whole
    ensures 0.0 <= part / whole <= 1.0
    ensures part / whole == 1.0 <==> part == whole
    ensures part / whole == 0.0 <==> part == 0.0
  {
    var share := part / whole;
    assert share * whole == part;
    assert (1.0 - share) * whole == whole - part;
  }

  /** More pushed pixels never raise the density. */
  lemma DensityAntitone(n1: nat, n2: nat, width: nat, height: nat, region: Option<Region>)
    requires n1 <= n2 && Denominator(width, height, region) != 0.0
    ensures Density(n1, width, height, region).value >= Density(n2, width, height, region).value
  {
    var den := Denominator(width, height, region);
    assert n1 as real / den <= n2 as real / den;
  }

  /** With a region the pixel test takes the floored corners inclusive at
      both ends while the denominator is the real area between the corners,
      so the pixel count overshoots the area for ordinary regions (a region
      from (0.5, 3.5) to (2.5, 1.5) on an all-black 4 x 4 image takes 9
      pixels against an area of 4, density -125), and the density leaves
      [0, 100]. The smallest instance: a 2 x 2 all-black image with the
      region from (0, 2) to (1, 1) pushes all four pixels against an area
      of 1 and yields -300. */
  lemma RegionDensityCanBeNegative()
    ensures var f := Frame(2, 2, [Black, Black, Black, Black], [0, 0, 0, 0]);
            var s := Snapshot(0, 0.0, 1000.0, Some(Region(PlotPoint(0.0, 2.0), PlotPoint(1.0, 1.0))));
            f.Valid() && |PoreScan(f, s, 4)| == 4 && Density(4, 2, 2, s.region) == Some(-300.0)
  {
    var f := Frame(2, 2, [Black, Black, Black, Black], [0, 0, 0, 0]);
    var s := Snapshot(0, 0.0, 1000.0, Some(Region(PlotPoint(0.0, 2.0), PlotPoint(1.0, 1.0))));
    assert LabelSize(f.labels, 0) == 4;
    assert CoordOf(0, 2) == Coord(0, 0) && CoordOf(1, 2) == Coord(1, 0);
    assert CoordOf(2, 2) == Coord(0, 1) && CoordOf(3, 2) == Coord(1, 1);
    assert Qualifies(f, s, 0) && Qualifies(f, s, 1) && Qualifies(f, s, 2) && Qualifies(f, s, 3);
  }

  // ---------------------------------------------------------------------
  // The worker
  // ---------------------------------------------------------------------

  /** The total of a size table's counts. */
  ghost function MapSum(m: map<nat, int>): int
    decreases |m|
  {
    if m == map[] then 0
    else
      var k :| k in m;
      assert (m - {k}).Keys == m.Keys - {k};
      m[k] + MapSum(m - {k})
  }

  lemma {:induction false} MapSumRemove(m: map<nat, int>, k: nat)
    requires k in m
    ensures MapSum(m) == m[k] + MapSum(m - {k})
    decreases |m|
  {
    var j :| j in m && MapSum(m) == m[j] + MapSum(m - {j});
    if j != k {
      assert (m - {j}).Keys == m.Keys - {j};
      assert (m - {k}).Keys == m.Keys - {k};
      MapSumRemove(m - {j}, k);
      MapSumRemove(m - {k}, j);
      assert m - {j} - {k} == m - {k} - {j};
    }
  }

  /** Counting one more pixel of label `l` adds one to the total. */
  lemma MapSumBump(m: map<nat, int>, l: nat)
    ensures MapSum(m[l := (if l in m then m[l] else 0) + 1]) == MapSum(m) + 1
  {
    var m' := m[l := (if l in m then m[l] else 0) + 1];
    MapSumRemove(m', l);
    assert m' - {l} == m - {l};
    if l in m {
      MapSumRemove(m, l);
    } else {
      assert m - {l} == m;
    }
  }

  /** The size table of image_data.rs:61-65: every label of the map is a key,
      its count is the number of pixels carrying it, and the counts add up
      to the number of pixels. */
  method CountLabelSizes(labels: array<nat>) returns (sizes: map<nat, int>)
    ensures forall l :: l in sizes <==> l in multiset(labels[..])
    ensures forall l :: l in sizes ==> sizes[l] == LabelSize(labels[..], l)
    ensures MapSum(sizes) == labels.Length
  {
    sizes := map[];
    for i := 0 to labels.Length
      invariant forall l :: l in sizes <==> l in multiset(labels[..i])
      invariant forall l :: l in sizes ==> sizes[l] == multiset(labels[..i])[l]
      invariant MapSum(sizes) == i
    {
      var l := labels[i];
      var count := if l in sizes then sizes[l] else 0;
      MapSumBump(sizes, l);
      sizes := sizes[l := count + 1];
      assert labels[..i + 1] == labels[..i] + [labels[i]];
    }
    assert labels[..] == labels[..labels.Length];
  }

  /** The u32 subtractions `height - region_start.y as u32` and
      `height - region_end.y as u32` do not underflow. */
  predicate RegionRowsFit(r: Region, height: nat): (b: bool)
    ensures height < U32_MAX ==>
              (b <==> r.start.y < height as real + 1.0 && r.end.y < height as real + 1.0)
  {
    AsU32(r.start.y) <= height && AsU32(r.end.y) <= height
  }

  /** The pixel test without a region, as the loop of image_data.rs:86-93
      spells it. */
  lemma QualifiesWithoutRegion(f: Frame, s: Snapshot, i: nat)
    requires f.Valid() && i < |f.labels| && s.region.None?
    ensures Qualifies(f, s, i) <==>
              f.mask[i] == Black && AsI32(s.low) < LabelSize(f.labels, f.labels[i]) < AsI32(s.high)
  {
  }

  /** The region branch of the filter (image_data.rs:69-84): scan the
      pixels in order and push the coordinate of each qualifying one. */
  method PushRegionPores(s: Snapshot, width: nat, height: nat, mask: array<Shade>, labels: array<nat>,
                         labelsToSize: map<nat, int>)
    returns (blackPixels: seq<Coord>)
    requires mask.Length == width * height && labels.Length == width * height
    requires forall l :: l in multiset(labels[..]) ==> l in labelsToSize && labelsToSize[l] == LabelSize(labels[..], l)
    requires s.region.Some? && (0 < labels.Length ==> RegionRowsFit(s.region.value, height))
    ensures blackPixels == PoreScan(Frame(width, height, mask[..], labels[..]), s, labels.Length)
  {
    ghost var f := Frame(width, height, mask[..], labels[..]);
    var regionStart, regionEnd := s.region.value.start, s.region.value.end;
    blackPixels := [];
    for i := 0 to labels.Length
      invariant blackPixels == PoreScan(f, s, i)
    {
      PositiveWidth(i, width, height);
      var x, y := i % width, i / width;
      var yStart: nat := height - AsU32(regionStart.y);
      var yEnd: nat := height - AsU32(regionEnd.y);
      assert labels[..][i] == labels[i];
      var size := labelsToSize[labels[i]];
      if && mask[i] == Black
         && size > AsI32(s.low)
         && size < AsI32(s.high)
         && x >= AsU32(regionStart.x)
         && x <= AsU32(regionEnd.x)
         && y >= yStart
         && y <= yEnd
      {
        blackPixels := blackPixels + [Coord(x, y)];
      }
    }
  }

  /** The region-free branch of the filter (image_data.rs:85-93). */
  method PushAllPores(s: Snapshot, width: nat, height: nat, mask: array<Shade>, labels: array<nat>,
                      labelsToSize: map<nat, int>)
    returns (blackPixels: seq<Coord>)
    requires mask.Length == width * height && labels.Length == width * height
    requires forall l :: l in multiset(labels[..]) ==> l in labelsToSize && labelsToSize[l] == LabelSize(labels[..], l)
    requires s.region.None?
    ensures blackPixels == PoreScan(Frame(width, height, mask[..], labels[..]), s, labels.Length)
  {
    ghost var f := Frame(width, height, mask[..], labels[..]);
    blackPixels := [];
    for i := 0 to labels.Length
      invariant blackPixels == PoreScan(f, s, i)
    {
      PoreScanStep(f, s, i);
      QualifiesWithoutRegion(f, s, i);
      var x, y := i % width, i / width;
      assert labels[..][i] == labels[i] && mask[..][i] == mask[i];
      var size := labelsToSize[labels[i]];
      if mask[i] == Black && size > AsI32(s.low) && size < AsI32(s.high) {
        blackPixels := blackPixels + [Coord(x, y)];
      }
    }
  }

  /** The body of the worker spawned by `analyze_image`
      (image_data.rs:46-109) on the snapshot `s` of the record and on the
      thresholded mask and the label map of its `width` x `height` image. */
  method AnalyzeImage(s: Snapshot, width: nat, height: nat, mask: array<Shade>, labels: array<nat>)
    returns (blackPixels: seq<Coord>, density: Option<real>)
    requires mask.Length == width * height && labels.Length == width * height
    requires 0 <= s.threshold <= 255
    requires 0 < labels.Length && s.region.Some? ==> RegionRowsFit(s.region.value, height)
    ensures blackPixels == PoreScan(Frame(width, height, mask[..], labels[..]), s, labels.Length)
    ensures density == Density(|blackPixels|, width, height, s.region)
  {
    var labelsToSize := CountLabelSizes(labels);
    if s.region.Some? {
      blackPixels := PushRegionPores(s, width, height, mask, labels, labelsToSize);
    } else {
      blackPixels := PushAllPores(s, width, height, mask, labels, labelsToSize);
    }

    density := ComputeDensity(|blackPixels|, width, height, s.region);
  }

  /** The density assignment of image_data.rs:97-109. */
  method ComputeDensity(n: nat, width: nat, height: nat, region: Option<Region>) returns (density: Option<real>)
    ensures density == Density(n, width, height, region)
  {
    if region.Some? {
      var start, end := region.value.start, region.value.end;
      var area := Abs(end.x - start.x) * Abs(end.y - start.y);
      assert area == Denominator(width, height, region);
      density := if area == 0.0 then None else Some((1.0 - n as real / area) * 100.0);
      assert area == 0.0 ==> Density(n, width, height, region) == None;
      assert area != 0.0 ==> Density(n, width, height, region) == Some((1.0 - n as real / area) * 100.0);
    } else {
      var pixels := (width * height) as real;
      assert pixels == Denominator(width, height, region);
      density := if pixels == 0.0 then None else Some((1.0 - n as real / pixels) * 100.0);
    }
  }

  /** Without a region the analysis reports a density in [0, 100] for every
      non-empty image. */
  lemma WholeImageAnalysisInRange(f: Frame, s: Snapshot)
    requires f.Valid() && 0 < |f.labels| && s.region.None?
    ensures Density(|PoreScan(f, s, |f.labels|)|, f.width, f.height, None).Some?
    ensures 0.0 <= Density(|PoreScan(f, s, |f.labels|)|, f.width, f.height, None).value <= 100.0
  {
    WholeImageDensityInRange(|PoreScan(f, s, |f.labels|)|, f.width, f.height);
  }
}
