/**
 * remove_background_and_replace: load the input, segment it, load and resize
 * the background, composite, save. Any exception on the way lands in one
 * except branch that reports it, so the output file is written only when
 * every earlier step succeeded. File access, the segmentation model and
 * PIL's resize are parameters: each load is the decoded picture or None
 * when Image.open or the decoder raises, the segmentation gives the RGBA
 * cut-out or None when it raises, and saving either succeeds or raises.
 */
module StillPipeline {
  import opened Options
  import opened Raster
  import Compositor

  /** A decoded image file, in the two colour modes this model covers. */
  datatype Picture = RgbPicture(rgb: Grid<Rgb<Byte>>) | RgbaPicture(rgba: Grid<Rgba>)

  /** input_image.size, as (height, width). */
  function Size(p: Picture): (nat, nat)
  {
    match p
    case RgbPicture(g) => Shape(g)
    case RgbaPicture(g) => Shape(g)
  }

  /** The step whose exception the except branch reports. */
  datatype Failure =
    | InputUnreadable      // Image.open(input_path)
    | SegmentationRaised   // remove(input_image)
    | BackgroundUnreadable // Image.open(background_path)
    | BroadcastError       // the blend on arrays numpy cannot broadcast together
    | SaveFailed           // final_image.save(output_path)

  /** Either the image written to the output path, or the error reported with nothing written. */
  datatype Outcome = Saved(image: Grid<Rgb<Byte>>) | Reported(failure: Failure)

  /**
   * numpy broadcasts the (h, w, 3) foreground product against the background
   * array only when the background has three channels and the same height
   * and width. An RGBA background gives an (h, w, 4) array and raises.
   */
  function Broadcasts(fg: Grid<Rgba>, back: Picture): (ok: bool)
    ensures ok ==> Compatible(ProductShape(fg), ArrayShape(back))
    ensures back.RgbaPicture? ==> !Compatible(ProductShape(fg), ArrayShape(back))
    ensures Compatible(ProductShape(fg), ArrayShape(back)) && NoUnitDimension(ProductShape(fg)) && NoUnitDimension(ArrayShape(back)) ==> ok
  {
    match back
    case RgbPicture(g) =>
      RankThree(Shape(fg).0, Shape(fg).1, 3, Shape(g).0, Shape(g).1, 3);
      Shape(g) == Shape(fg)
    case RgbaPicture(g) =>
      RankThree(Shape(fg).0, Shape(fg).1, 3, Shape(g).0, Shape(g).1, 4);
      false
  }

  /** Broadcasting and unit dimensions of two rank-3 shapes, dimension by dimension. */
  lemma RankThree(a0: nat, a1: nat, a2: nat, b0: nat, b1: nat, b2: nat)
    ensures Compatible([a0, a1, a2], [b0, b1, b2]) <==>
      && (a0 == b0 || a0 == 1 || b0 == 1)
      && (a1 == b1 || a1 == 1 || b1 == 1)
      && (a2 == b2 || a2 == 1 || b2 == 1)
    ensures NoUnitDimension([a0, a1, a2]) <==> a0 != 1 && a1 != 1 && a2 != 1
    ensures NoUnitDimension([b0, b1, b2]) <==> b0 != 1 && b1 != 1 && b2 != 1
  {
    var s: seq<nat>, t: seq<nat> := [a0, a1, a2], [b0, b1, b2];
    assert s[0] == a0 && s[1] == a1 && s[2] == a2;
    assert t[0] == b0 && t[1] == b1 && t[2] == b2;
  }

  /** The numpy shape of output_array[:, :, :3] * mask. */
  function ProductShape(fg: Grid<Rgba>): seq<nat>
  {
    [Shape(fg).0, Shape(fg).1, 3]
  }

  /** The numpy shape of np.array(background_image). */
  function ArrayShape(p: Picture): seq<nat>
  {
    match p
    case RgbPicture(g) => [Shape(g).0, Shape(g).1, 3]
    case RgbaPicture(g) => [Shape(g).0, Shape(g).1, 4]
  }

  /** numpy's broadcasting rule for two shapes of the same rank: every dimension equal, or one of them 1. */
  predicate Compatible(s: seq<nat>, t: seq<nat>)
  {
    |s| == |t| && forall k :: 0 <= k < |s| ==> s[k] == t[k] || s[k] == 1 || t[k] == 1
  }

  predicate NoUnitDimension(s: seq<nat>)
  {
    forall k :: 0 <= k < |s| ==> s[k] != 1
  }

  function RemoveBackgroundAndReplace(
    input: Option<Picture>,
    segment: Picture -> Option<Grid<Rgba>>,
    background: Option<Picture>,
    resize: (Picture, (nat, nat)) -> Picture,
    saveSucceeds: bool): (r: Outcome)
    ensures r.Saved? ==>
      && input.Some? && segment(input.value).Some? && background.Some? && saveSucceeds
      && var fg, back := segment(input.value).value, resize(background.value, Size(input.value));
         && Broadcasts(fg, back)
         && Shape(r.image) == Shape(fg)
         && forall i, j :: InBounds(fg, i, j) ==> r.image[i][j] == Compositor.BlendPixel(fg[i][j], back.rgb[i][j])
  {
    match input
    case None => Reported(InputUnreadable)
    case Some(image) =>
      match segment(image)
      case None => Reported(SegmentationRaised)
      case Some(fg) =>
        match background
        case None => Reported(BackgroundUnreadable)
        case Some(file) =>
          var back := resize(file, Size(image));
          if !Broadcasts(fg, back) then Reported(BroadcastError)
          else if !saveSucceeds then Reported(SaveFailed)
          else
            Compositor.CompositeIsBlendPixel(fg, back.rgb);
            Saved(Compositor.Composite(fg, back.rgb))
  }

  /**
   * PIL's resize, asked for the size of some picture (as line 49 asks for
   * the input's size): it gives a picture of that size and keeps the colour
   * mode.
   */
  ghost predicate ResizesTo(resize: (Picture, (nat, nat)) -> Picture)
  {
    forall p, q :: Size(resize(p, Size(q))) == Size(q) && resize(p, Size(q)).RgbPicture? == p.RgbPicture?
  }

  /** A black picture of the given size, in the mode of p. */
  function BlackResize(p: Picture, size: (nat, nat)): (r: Picture)
    requires size.0 > 0 || size.1 == 0
    ensures Size(r) == size && r.RgbPicture? == p.RgbPicture?
  {
    var (h, w) := size;
    if p.RgbPicture? then
      var g: Grid<Rgb<Byte>> := seq(h, i => seq(w, j => Rgb(0, 0, 0)));
      RgbPicture(g)
    else
      var g: Grid<Rgba> := seq(h, i => seq(w, j => Rgba(0, 0, 0, 0)));
      RgbaPicture(g)
  }

  /** The size of a picture is one a grid can have: no rows means no width. */
  lemma SizeIsGridShape(q: Picture)
    ensures Size(q).0 > 0 || Size(q).1 == 0
  {
  }

  /** ResizesTo can be met: a resize that fills the requested size in the same mode satisfies it. */
  lemma ResizesToIsSatisfiable()
    ensures ResizesTo((p: Picture, size: (nat, nat)) => if size.0 > 0 || size.1 == 0 then BlackResize(p, size) else p)
  {
    var resize := (p: Picture, size: (nat, nat)) => if size.0 > 0 || size.1 == 0 then BlackResize(p, size) else p;
    forall p, q ensures Size(resize(p, Size(q))) == Size(q) && resize(p, Size(q)).RgbPicture? == p.RgbPicture? {
      SizeIsGridShape(q);
    }
  }

  /** The segmentation returns a cut-out of the size of its input. */
  ghost predicate KeepsSize(segment: Picture -> Option<Grid<Rgba>>)
  {
    forall p :: segment(p).Some? ==> Shape(segment(p).value) == Size(p)
  }

  /**
   * Conversely: with a size-keeping segmentation that succeeds, an RGB
   * background resized by PIL, and a save that succeeds, the composite is
   * written.
   */
  lemma WrittenWhenEveryStepSucceeds(
    image: Picture, segment: Picture -> Option<Grid<Rgba>>, file: Picture,
    resize: (Picture, (nat, nat)) -> Picture)
    requires KeepsSize(segment) && ResizesTo(resize)
    requires segment(image).Some? && file.RgbPicture?
    ensures var r := RemoveBackgroundAndReplace(Some(image), segment, Some(file), resize, true);
      r.Saved? && r.image == Compositor.Composite(segment(image).value, resize(file, Size(image)).rgb)
  {
    var back := resize(file, Size(image));
    assert Size(back) == Size(image) && back.RgbPicture?;
  }

  /** Every failure is reported, and no step after the failing one decides the outcome. */
  lemma FailuresWriteNothing(
    input: Option<Picture>, segment: Picture -> Option<Grid<Rgba>>, background: Option<Picture>,
    resize: (Picture, (nat, nat)) -> Picture, saveSucceeds: bool)
    ensures var r := RemoveBackgroundAndReplace(input, segment, background, resize, saveSucceeds);
      && (input.None? ==> r == Reported(InputUnreadable))
      && (input.Some? && segment(input.value).None? ==> r == Reported(SegmentationRaised))
      && (input.Some? && segment(input.value).Some? && background.None? ==> r == Reported(BackgroundUnreadable))
      && (!saveSucceeds ==> r.Reported?)
  {
  }

  /** An RGBA background cannot be blended: the call reports an error and writes nothing. */
  lemma RgbaBackgroundIsReported(
    image: Picture, segment: Picture -> Option<Grid<Rgba>>, file: Picture,
    resize: (Picture, (nat, nat)) -> Picture, saveSucceeds: bool)
    requires ResizesTo(resize) && segment(image).Some? && file.RgbaPicture?
    ensures RemoveBackgroundAndReplace(Some(image), segment, Some(file), resize, saveSucceeds) == Reported(BroadcastError)
  {
    assert !resize(file, Size(image)).RgbPicture?;
  }

  /** The cut-out of an RGB image that keeps every pixel, at full opacity. */
  function Opaque(g: Grid<Rgb<Byte>>): (fg: Grid<Rgba>)
    ensures Shape(fg) == Shape(g) && Compositor.AllAlpha(fg, 255)
    ensures Compositor.ColourPlane(fg) == g
  {
    var fg := MapPixels(g, (p: Rgb<Byte>) => Rgba(p.r, p.g, p.b, 255));
    var colour := Compositor.ColourPlane(fg);
    assert forall i | 0 <= i < |g| :: colour[i] == g[i];
    fg
  }

  /**
   * A segmentation that keeps the whole picture opaque leaves the input
   * unchanged, whatever the background.
   */
  lemma OpaqueCutoutKeepsInput(
    g: Grid<Rgb<Byte>>, segment: Picture -> Option<Grid<Rgba>>, file: Picture,
    resize: (Picture, (nat, nat)) -> Picture)
    requires ResizesTo(resize) && file.RgbPicture?
    requires segment(RgbPicture(g)) == Some(Opaque(g))
    ensures RemoveBackgroundAndReplace(Some(RgbPicture(g)), segment, Some(file), resize, true) == Saved(g)
  {
    var back := resize(file, Size(RgbPicture(g)));
    assert Size(back) == Shape(g) && back.RgbPicture?;
    Compositor.CompositeOpaque(Opaque(g), back.rgb);
  }
}
