/** The application state of src/model/detection_app.rs: the image
    records (module `ImagesModel`), the handle on the running analysis,
    `reload_image` and `receive_image_data` with its overlay painting. The
    worker thread is not modelled: a handle records which record it was
    started for and the snapshot it captured, and whether it has finished
    and what `join()` yields are inputs of `ReceiveImageData`. */
module DetectionApp {
  import opened Wrappers
  import opened Pixels
  import opened ImageDataModel
  import opened ImagesModel

  /** What a finished worker yields: green pixels, white pixels, density. */
  datatype RunOutput = RunOutput(greenPixels: seq<Coord>, whitePixels: seq<Coord>, density: real)

  /** A handle on an analysis in flight: the index of the record it was
      started for and the snapshot of that record it works on. */
  datatype JoinHandle = JoinHandle(analysed: nat, snapshot: Snapshot)

  const GREEN: Rgba := Rgba(0, 255, 13, 204)
  const WHITE: Rgba := Rgba(255, 255, 255, 127)

  // ---------------------------------------------------------------------
  // The overlay (detection_app.rs:68-79)
  // ---------------------------------------------------------------------

  /** One `put_pixel` call. */
  datatype Put = Put(at: Coord, colour: Rgba)

  /** The `put_pixel` calls of one `for_each`: every coordinate, one colour. */
  function Puts(cs: seq<Coord>, colour: Rgba): (ps: seq<Put>)
    ensures |ps| == |cs|
    ensures forall k :: 0 <= k < |cs| ==> ps[k] == Put(cs[k], colour)
  {
    seq(|cs|, k requires 0 <= k < |cs| => Put(cs[k], colour))
  }

  /** The colour at `c` after the calls `ps`, in order, over `orig`. */
  function PixelAfter(orig: Rgba, c: Coord, ps: seq<Put>): Rgba
  {
    if ps == [] then orig
    else if ps[|ps| - 1].at == c then ps[|ps| - 1].colour
    else PixelAfter(orig, c, ps[..|ps| - 1])
  }

  /** The overlay as a rule per pixel: white where a white coordinate is,
      else green where a green one is, else the image's own colour. Only
      listed coordinates change, and only to an overlay colour. */
  function OverlayColour(orig: Rgba, c: Coord, green: seq<Coord>, white: seq<Coord>): (col: Rgba)
    ensures col != orig ==> c in green + white && (col == WHITE || col == GREEN)
    ensures c in white ==> col == WHITE
    ensures c in green && col != GREEN ==> col == WHITE && c in white
  {
    if c in white then WHITE else if c in green then GREEN else orig
  }

  /** The image buffer `src` with the overlay rule applied to every pixel. */
  function Overlaid(src: seq<Rgba>, width: nat, height: nat, green: seq<Coord>, white: seq<Coord>): (r: seq<Rgba>)
    requires |src| == width * height
    ensures |r| == |src|
  {
    seq(|src|, i requires 0 <= i < |src| =>
      PositiveWidth(i, width, height);
      OverlayColour(src[i], CoordOf(i, width), green, white))
  }

  /** Writing one colour at a list of coordinates leaves that colour exactly
      at the listed coordinates. */
  lemma {:induction false} PixelAfterPuts(orig: Rgba, c: Coord, cs: seq<Coord>, colour: Rgba)
    ensures PixelAfter(orig, c, Puts(cs, colour)) == if c in cs then colour else orig
  {
    if cs != [] {
      var init := cs[..|cs| - 1];
      assert Puts(cs, colour)[..|cs| - 1] == Puts(init, colour);
      assert cs == init + [cs[|cs| - 1]];
      PixelAfterPuts(orig, c, init, colour);
    }
  }

  /** Two batches of writes act one after the other. */
  lemma {:induction false} PixelAfterAppend(orig: Rgba, c: Coord, ps: seq<Put>, qs: seq<Put>)
    ensures PixelAfter(orig, c, ps + qs) == PixelAfter(PixelAfter(orig, c, ps), c, qs)
  {
    if qs != [] {
      assert (ps + qs)[..|ps + qs| - 1] == ps + qs[..|qs| - 1];
      PixelAfterAppend(orig, c, ps, qs[..|qs| - 1]);
    } else {
      assert ps + qs == ps;
    }
  }

  /** Green first, then white: a coordinate in both lists ends white, one in
      neither keeps its colour. */
  lemma OverlayPaintOrder(orig: Rgba, c: Coord, green: seq<Coord>, white: seq<Coord>)
    ensures PixelAfter(orig, c, Puts(green, GREEN) + Puts(white, WHITE)) == OverlayColour(orig, c, green, white)
  {
    PixelAfterAppend(orig, c, Puts(green, GREEN), Puts(white, WHITE));
    PixelAfterPuts(orig, c, green, GREEN);
    PixelAfterPuts(PixelAfter(orig, c, Puts(green, GREEN)), c, white, WHITE);
  }

  /** Every coordinate lies inside the image, as `put_pixel` demands. */
  predicate InImage(cs: seq<Coord>, width: nat, height: nat)
  {
    forall c :: c in cs ==> c.x < width && c.y < height
  }

  /** One `put_pixel(c, colour)` on a row-major buffer. */
  method PutPixel(buf: array<Rgba>, width: nat, height: nat, c: Coord, colour: Rgba)
    requires buf.Length == width * height && c.x < width && c.y < height
    modifies buf
    ensures forall i :: 0 <= i < buf.Length ==>
              buf[i] == if CoordOf(i, width) == c then colour else old(buf[i])
  {
    IndexInBounds(c, width, height);
    buf[Index(c, width)] := colour;
    forall i | 0 <= i < buf.Length
      ensures buf[i] == if CoordOf(i, width) == c then colour else old(buf[i])
    {
      IndexCoordOf(i, width);
      CoordOfIndex(c, width);
    }
  }

  /** One painting loop: `put_pixel(c, colour)` for every `c` of `cs`,
      in order, after the calls `before`. */
  method PutPixels(buf: array<Rgba>, width: nat, height: nat, cs: seq<Coord>, colour: Rgba,
                   ghost orig: seq<Rgba>, ghost before: seq<Put>)
    requires buf.Length == width * height == |orig| && InImage(cs, width, height)
    requires forall i :: 0 <= i < buf.Length ==> buf[i] == PixelAfter(orig[i], CoordOf(i, width), before)
    modifies buf
    ensures forall i :: 0 <= i < buf.Length ==>
              buf[i] == PixelAfter(orig[i], CoordOf(i, width), before + Puts(cs, colour))
  {
    assert before + Puts(cs[..0], colour) == before;
    for k := 0 to |cs|
      invariant forall i :: 0 <= i < buf.Length ==>
                  buf[i] == PixelAfter(orig[i], CoordOf(i, width), before + Puts(cs[..k], colour))
    {
      assert cs[k] in cs;
      PutPixel(buf, width, height, cs[k], colour);
      assert (before + Puts(cs[..k + 1], colour))[..|before| + k] == before + Puts(cs[..k], colour);
    }
    assert cs[..|cs|] == cs;
  }

  /** The two painting loops of detection_app.rs:73-79: every green
      coordinate, then every white one. */
  method PaintOverlay(buf: array<Rgba>, width: nat, height: nat, green: seq<Coord>, white: seq<Coord>)
    requires buf.Length == width * height
    requires InImage(green, width, height) && InImage(white, width, height)
    modifies buf
    ensures buf[..] == Overlaid(old(buf[..]), width, height, green, white)
  {
    ghost var orig := buf[..];
    if 0 < buf.Length {
      PositiveWidth(0, width, height);
    }
    PutPixels(buf, width, height, green, GREEN, orig, []);
    assert [] + Puts(green, GREEN) == Puts(green, GREEN);
    PutPixels(buf, width, height, white, WHITE, orig, Puts(green, GREEN));
    forall i | 0 <= i < buf.Length
      ensures buf[i] == Overlaid(orig, width, height, green, white)[i]
    {
      OverlayPaintOrder(orig[i], CoordOf(i, width), green, white);
    }
  }

  // ---------------------------------------------------------------------
  // The application state
  // ---------------------------------------------------------------------

  /** The parts of `PoreDetectionApp` the core uses. `images` is owned by
      value in the source; here it is an object no one else refers to. */
  class PoreDetectionApp {
    const images: Images
    var joinHandle: Option<JoinHandle>
    var imageToDisplay: Option<seq<Rgba>>
    var debugWindowOpen: bool

    ghost predicate Valid()
      reads this, images
    {
      images.Valid()
    }

    /** A pending analysis belongs to the record that is selected now, so
        the result it delivers goes to the record it was computed for. */
    ghost predicate HandleTracksSelection()
      reads this, images
    {
      joinHandle.Some? ==> images.selected.Some? && joinHandle.value.analysed == images.selected.value
    }

    constructor ()
      ensures Valid() && fresh(images)
      ensures images.images == [] && images.selected.None? && images.prevSelected.None?
      ensures joinHandle.None? && imageToDisplay.None? && !debugWindowOpen
    {
      images := new Images();
      joinHandle := None;
      imageToDisplay := None;
      debugWindowOpen := false;
    }

    /** `reload_image` (detection_app.rs:37-49): remember the selection,
        select the given record (the first when none is given) and start
        its analysis, replacing any handle still held. */
    method ReloadImage(selectedImage: Option<nat>)
      requires Valid()
      requires UnwrapOrZero(selectedImage) < |images.images|
      modifies images, this`joinHandle
      ensures Valid() && HandleTracksSelection()
      ensures images.prevSelected == old(images.selected)
      ensures images.selected == Some(UnwrapOrZero(selectedImage))
      ensures images.images == old(images.images)
      ensures joinHandle == Some(JoinHandle(UnwrapOrZero(selectedImage),
                                            SnapshotOf(images.images[UnwrapOrZero(selectedImage)])))
    {
      images.prevSelected := images.selected;

      var selected := 0;
      if selectedImage.Some? {
        images.selected := Some(selectedImage.value);
        selected := selectedImage.value;
      } else {
        images.selected := Some(0);
      }

      joinHandle := Some(JoinHandle(selected, SnapshotOf(images.images[selected])));
    }

    /** The record a finished run is stored in exists, and when that record
        has a path (so the overlay is painted) both lists fit its image. */
    ghost predicate OutputFits(output: RunOutput)
      reads this, images
      requires Valid()
    {
      var i := UnwrapOrZero(images.selected);
      i < |images.images| &&
      var raster := images.images[i].image.value;
      (images.images[i].path.Some? ==>
         InImage(output.greenPixels, raster.width, raster.height) &&
         InImage(output.whitePixels, raster.width, raster.height))
    }

    /** `receive_image_data` (detection_app.rs:51-86). `finished` is what
        `is_finished()` answers and `output` what `join()` yields. */
    method ReceiveImageData(finished: bool, output: RunOutput)
      requires Valid()
      requires joinHandle.Some? && finished ==> OutputFits(output)
      modifies images, this`joinHandle, this`imageToDisplay
      ensures Valid()
      ensures images.selected == old(images.selected) && images.prevSelected == old(images.prevSelected)
      ensures old(HandleTracksSelection()) ==> HandleTracksSelection()
      ensures !(old(joinHandle).Some? && finished) ==>
                && joinHandle == old(joinHandle)
                && images.images == old(images.images)
                && imageToDisplay == old(imageToDisplay)
      ensures old(joinHandle).Some? && finished ==>
                var i := UnwrapOrZero(old(images.selected));
                var record := old(images.images)[i];
                var raster := record.image.value;
                && joinHandle.None?
                && images.images == old(images.images)[i := record.(greenPixels := Some(output.greenPixels),
                                                                   density := Some(output.density))]
                && imageToDisplay == if record.path.Some?
                                     then Some(Overlaid(raster.pixels, raster.width, raster.height,
                                                        output.greenPixels, output.whitePixels))
                                     else old(imageToDisplay)
    {
      if joinHandle.Some? {
        if finished {
          joinHandle := None;

          var selectedImg := UnwrapOrZero(images.selected);
          images.images := images.images[selectedImg := images.images[selectedImg].(greenPixels := Some(output.greenPixels))];
          images.images := images.images[selectedImg := images.images[selectedImg].(density := Some(output.density))];

          var record := images.images[selectedImg];
          assert record.path == old(images.images)[selectedImg].path;
          assert record.image == old(images.images)[selectedImg].image;
          if record.path.Some? {
            var raster := record.image.value;
            var image := new Rgba[|raster.pixels|](i requires 0 <= i < |raster.pixels| => raster.pixels[i]);
            assert image[..] == raster.pixels;
            PaintOverlay(image, raster.width, raster.height, output.greenPixels, output.whitePixels);
            imageToDisplay := Some(image[..]);
          }
        }
      }
    }
  }
}
