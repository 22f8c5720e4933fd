/**
 * The alpha-over blend of remove_background_and_replace, step by step as the
 * numpy code does it (alpha plane, stacked mask, weight in [0, 1], blend,
 * cast to uint8), in exact real arithmetic, together with the integer law it
 * amounts to: channel = (fg * alpha + bg * (255 - alpha)) / 255, truncated.
 */
module Compositor {
  import opened Raster

  function Min(x: int, y: int): int { if x <= y then x else y }
  function Max(x: int, y: int): int { if x <= y then y else x }

  // ---------------------------------------------------------------------
  // The integer law

  /** One output channel for foreground value fg, background value bg and alpha. */
  function BlendChannel(fg: Byte, bg: Byte, alpha: Byte): (c: Byte)
    ensures Min(fg, bg) <= c <= Max(fg, bg)
    ensures alpha == 255 ==> c == fg
    ensures alpha == 0 ==> c == bg
  {
    WeightedSumBounds(fg, bg, alpha);
    (fg * alpha + bg * (255 - alpha)) / 255
  }

  /** The numerator of the blend lies between 255 times the smaller and 255 times the larger input. */
  lemma WeightedSumBounds(fg: Byte, bg: Byte, alpha: Byte)
    ensures 255 * Min(fg, bg) <= fg * alpha + bg * (255 - alpha) <= 255 * Max(fg, bg)
  {
    var n := fg * alpha + bg * (255 - alpha);
    assert n == 255 * bg + (fg - bg) * alpha;
    if fg <= bg {
      ProductBounds(bg - fg, alpha);
    } else {
      ProductBounds(fg - bg, alpha);
    }
  }

  /** 0 <= x * a <= x * 255 for a non-negative x and a channel value a. */
  lemma ProductBounds(x: nat, a: Byte)
    ensures 0 <= x * a <= x * 255
  {
    assert x * 255 - x * a == x * (255 - a);
  }

  /** One pixel: the same alpha weighs all three colour channels. */
  function BlendPixel(p: Rgba, back: Rgb<Byte>): (out: Rgb<Byte>)
    ensures p.a == 255 ==> out == Rgb(p.r, p.g, p.b)
    ensures p.a == 0 ==> out == back
    ensures Min(p.r, back.r) <= out.r <= Max(p.r, back.r)
    ensures Min(p.g, back.g) <= out.g <= Max(p.g, back.g)
    ensures Min(p.b, back.b) <= out.b <= Max(p.b, back.b)
  {
    Rgb(BlendChannel(p.r, back.r, p.a),
        BlendChannel(p.g, back.g, p.a),
        BlendChannel(p.b, back.b, p.a))
  }

  // ---------------------------------------------------------------------
  // The numpy steps

  /** output_array[:, :, 3]: the alpha plane of the foreground. */
  function AlphaPlane(fg: Grid<Rgba>): (plane: Grid<Byte>)
    ensures Shape(plane) == Shape(fg)
    ensures forall i, j :: InBounds(fg, i, j) ==> plane[i][j] == fg[i][j].a
  {
    MapPixels(fg, (p: Rgba) => p.a)
  }

  /** np.stack([mask] * 3, axis=-1): the plane repeated into three channels. */
  function StackMask(plane: Grid<Byte>): (mask: Grid<Rgb<Byte>>)
    ensures Shape(mask) == Shape(plane)
    ensures forall i, j :: InBounds(plane, i, j) ==>
      mask[i][j].r == mask[i][j].g == mask[i][j].b == plane[i][j]
  {
    MapPixels(plane, (a: Byte) => Rgb(a, a, a))
  }

  /** A blend weight. */
  type Weight = x: real | 0.0 <= x <= 1.0

  function Scale(x: Byte): (w: Weight)
    ensures w * 255.0 == x as real
  {
    x as real / 255.0
  }

  /** mask / 255: every channel of the mask as a weight in [0, 1]. */
  function Normalise(mask: Grid<Rgb<Byte>>): (w: Grid<Rgb<Weight>>)
    ensures Shape(w) == Shape(mask)
    ensures forall i, j :: InBounds(mask, i, j) ==>
      w[i][j] == Rgb(Scale(mask[i][j].r), Scale(mask[i][j].g), Scale(mask[i][j].b))
  {
    MapPixels(mask, (m: Rgb<Byte>) => Rgb(Scale(m.r), Scale(m.g), Scale(m.b)))
  }

  /** output_array[:, :, :3]: the colour channels, alpha dropped. */
  function ColourPlane(fg: Grid<Rgba>): (colour: Grid<Rgb<Byte>>)
    ensures Shape(colour) == Shape(fg)
    ensures forall i, j :: InBounds(fg, i, j) ==>
      colour[i][j] == Rgb(fg[i][j].r, fg[i][j].g, fg[i][j].b)
  {
    MapPixels(fg, (p: Rgba) => Rgb(p.r, p.g, p.b))
  }

  /** One channel of fg * mask + bg * (1 - mask), in exact arithmetic. */
  function Mix(fg: Byte, w: Weight, bg: Byte): (x: real)
    ensures Min(fg, bg) as real <= x <= Max(fg, bg) as real
  {
    var x := fg as real * w + bg as real * (1.0 - w);
    assert x == bg as real + (fg - bg) as real * w;
    if fg <= bg then
      assert (bg - fg) as real * w <= (bg - fg) as real;
      x
    else
      assert (fg - bg) as real * w <= (fg - bg) as real;
      x
  }

  predicate InByteRange(x: real) { 0.0 <= x < 256.0 }

  /** The three channels of one pixel all lie in the range astype(np.uint8) keeps. */
  predicate PixelInByteRange(p: Rgb<real>) { InByteRange(p.r) && InByteRange(p.g) && InByteRange(p.b) }

  /** output_array[:, :, :3] * mask + background_array * (1 - mask), channel by channel. */
  function Blend(colour: Grid<Rgb<Byte>>, w: Grid<Rgb<Weight>>, back: Grid<Rgb<Byte>>): (out: Grid<Rgb<real>>)
    requires Shape(w) == Shape(colour) && Shape(back) == Shape(colour)
    ensures Shape(out) == Shape(colour)
    ensures forall i, j :: InBounds(colour, i, j) ==>
      out[i][j] == Rgb(Mix(colour[i][j].r, w[i][j].r, back[i][j].r),
                       Mix(colour[i][j].g, w[i][j].g, back[i][j].g),
                       Mix(colour[i][j].b, w[i][j].b, back[i][j].b))
    ensures forall i, j :: InBounds(colour, i, j) ==> PixelInByteRange(out[i][j])
  {
    seq(|colour|, i requires 0 <= i < |colour| =>
      seq(Width(colour), j requires 0 <= j < Width(colour) =>
        Rgb(Mix(colour[i][j].r, w[i][j].r, back[i][j].r),
            Mix(colour[i][j].g, w[i][j].g, back[i][j].g),
            Mix(colour[i][j].b, w[i][j].b, back[i][j].b))))
  }

  /** astype(np.uint8) on a value in range: truncation, which for x >= 0 is the floor. */
  function Truncate(x: real): (b: Byte)
    requires InByteRange(x)
    ensures b as real <= x < b as real + 1.0
  {
    x.Floor
  }

  /** final_image.astype(np.uint8) on an array whose values are all in range. */
  function AsUint8(g: Grid<Rgb<real>>): (out: Grid<Rgb<Byte>>)
    requires forall i, j :: InBounds(g, i, j) ==> PixelInByteRange(g[i][j])
    ensures Shape(out) == Shape(g)
    ensures forall i, j :: InBounds(g, i, j) && PixelInByteRange(g[i][j]) ==>
      out[i][j] == Rgb(Truncate(g[i][j].r), Truncate(g[i][j].g), Truncate(g[i][j].b))
  {
    seq(|g|, i requires 0 <= i < |g| =>
      seq(Width(g), j requires 0 <= j < Width(g) =>
        assert InBounds(g, i, j) && PixelInByteRange(g[i][j]);
        Rgb(Truncate(g[i][j].r), Truncate(g[i][j].g), Truncate(g[i][j].b))))
  }

  /**
   * Lines 53-61: composite the segmented foreground over a background of
   * the same height and width. The result has that height and width and
   * three channels.
   */
  function Composite(fg: Grid<Rgba>, back: Grid<Rgb<Byte>>): (out: Grid<Rgb<Byte>>)
    requires Shape(back) == Shape(fg)
    ensures Shape(out) == Shape(fg)
  {
    var weights := Normalise(StackMask(AlphaPlane(fg)));
    AsUint8(Blend(ColourPlane(fg), weights, back))
  }

  // ---------------------------------------------------------------------
  // What the composite is

  /** Flooring n / 255 in the reals gives integer division. */
  lemma FloorOfQuotient(n: nat)
    ensures (n as real / 255.0).Floor == n / 255
  {
    var q, rem := n / 255, n % 255;
    assert n == 255 * q + rem;
    assert n as real / 255.0 == q as real + rem as real / 255.0;
  }

  /** Truncating the exact blend of one channel gives the integer law. */
  lemma TruncatedMixIsBlendChannel(fg: Byte, bg: Byte, alpha: Byte)
    ensures Truncate(Mix(fg, Scale(alpha), bg)) == BlendChannel(fg, bg, alpha)
  {
    WeightedSumBounds(fg, bg, alpha);
    MixOfScale(fg, bg, alpha);
    FloorOfQuotient(fg * alpha + bg * (255 - alpha));
  }

  /** With the weight alpha / 255, the exact blend is the integer weighted sum over 255. */
  lemma MixOfScale(fg: Byte, bg: Byte, alpha: Byte)
    ensures Mix(fg, Scale(alpha), bg) == (fg * alpha + bg * (255 - alpha)) as real / 255.0
  {
    var w := Scale(alpha);
    assert w == alpha as real / 255.0;
    assert 1.0 - w == (255 - alpha) as real / 255.0;
    assert fg as real * w == (fg * alpha) as real / 255.0;
    assert bg as real * (1.0 - w) == (bg * (255 - alpha)) as real / 255.0;
  }

  /** Every pixel of the composite is the integer blend of the pixels of the inputs at that place. */
  lemma CompositeIsBlendPixel(fg: Grid<Rgba>, back: Grid<Rgb<Byte>>)
    requires Shape(back) == Shape(fg)
    ensures forall i, j :: InBounds(fg, i, j) ==> Composite(fg, back)[i][j] == BlendPixel(fg[i][j], back[i][j])
  {
    forall i, j | InBounds(fg, i, j)
      ensures Composite(fg, back)[i][j] == BlendPixel(fg[i][j], back[i][j])
    {
      var p := fg[i][j];
      TruncatedMixIsBlendChannel(p.r, back[i][j].r, p.a);
      TruncatedMixIsBlendChannel(p.g, back[i][j].g, p.a);
      TruncatedMixIsBlendChannel(p.b, back[i][j].b, p.a);
    }
  }

  predicate AllAlpha(fg: Grid<Rgba>, alpha: Byte)
  {
    forall i, j :: 0 <= i < |fg| && 0 <= j < Width(fg) ==> fg[i][j].a == alpha
  }

  /** A fully opaque foreground reproduces its own colour channels exactly. */
  lemma CompositeOpaque(fg: Grid<Rgba>, back: Grid<Rgb<Byte>>)
    requires Shape(back) == Shape(fg) && AllAlpha(fg, 255)
    ensures Composite(fg, back) == ColourPlane(fg)
  {
    CompositeIsBlendPixel(fg, back);
    var out, colour := Composite(fg, back), ColourPlane(fg);
    forall i | 0 <= i < |fg| ensures out[i] == colour[i] {
      assert |out[i]| == |colour[i]| == Width(fg);
    }
  }

  /** A fully transparent foreground reproduces the background exactly. */
  lemma CompositeTransparent(fg: Grid<Rgba>, back: Grid<Rgb<Byte>>)
    requires Shape(back) == Shape(fg) && AllAlpha(fg, 0)
    ensures Composite(fg, back) == back
  {
    CompositeIsBlendPixel(fg, back);
    var out := Composite(fg, back);
    forall i | 0 <= i < |fg| ensures out[i] == back[i] {
      assert |out[i]| == |back[i]| == Width(fg);
    }
  }

  /** Every output channel lies between the foreground and background values it mixes. */
  lemma CompositeBetweenInputs(fg: Grid<Rgba>, back: Grid<Rgb<Byte>>, i: int, j: int)
    requires Shape(back) == Shape(fg) && InBounds(fg, i, j)
    ensures var out, p, q := Composite(fg, back)[i][j], fg[i][j], back[i][j];
      Min(p.r, q.r) <= out.r <= Max(p.r, q.r) &&
      Min(p.g, q.g) <= out.g <= Max(p.g, q.g) &&
      Min(p.b, q.b) <= out.b <= Max(p.b, q.b)
  {
    CompositeIsBlendPixel(fg, back);
  }

  /**
   * A pixel of the composite depends on nothing but the foreground and
   * background pixels at the same place.
   */
  lemma CompositeIsLocal(fg1: Grid<Rgba>, back1: Grid<Rgb<Byte>>, fg2: Grid<Rgba>, back2: Grid<Rgb<Byte>>, i: int, j: int)
    requires Shape(back1) == Shape(fg1) && Shape(back2) == Shape(fg2)
    requires InBounds(fg1, i, j) && InBounds(fg2, i, j)
    requires fg1[i][j] == fg2[i][j] && back1[i][j] == back2[i][j]
    ensures Composite(fg1, back1)[i][j] == Composite(fg2, back2)[i][j]
  {
    CompositeIsBlendPixel(fg1, back1);
    CompositeIsBlendPixel(fg2, back2);
  }

  /**
   * Each channel of a pixel depends only on that channel of the two inputs
   * and on the pixel's alpha: changing any other channel leaves it alone.
   */
  lemma ChannelsAreIndependent(p1: Rgba, q1: Rgb<Byte>, p2: Rgba, q2: Rgb<Byte>)
    requires p1.a == p2.a
    ensures p1.r == p2.r && q1.r == q2.r ==> BlendPixel(p1, q1).r == BlendPixel(p2, q2).r
    ensures p1.g == p2.g && q1.g == q2.g ==> BlendPixel(p1, q1).g == BlendPixel(p2, q2).g
    ensures p1.b == p2.b && q1.b == q2.b ==> BlendPixel(p1, q1).b == BlendPixel(p2, q2).b
  {
  }

  /** More alpha moves a channel towards the foreground value and never away from it. */
  lemma BlendChannelMonotone(fg: Byte, bg: Byte, a1: Byte, a2: Byte)
    requires a1 <= a2
    ensures bg <= fg ==> BlendChannel(fg, bg, a1) <= BlendChannel(fg, bg, a2)
    ensures fg <= bg ==> BlendChannel(fg, bg, a2) <= BlendChannel(fg, bg, a1)
  {
    var n1 := fg * a1 + bg * (255 - a1);
    var n2 := fg * a2 + bg * (255 - a2);
    assert n1 == 255 * bg + (fg - bg) * a1;
    assert n2 == 255 * bg + (fg - bg) * a2;
    WeightedSumBounds(fg, bg, a1);
    WeightedSumBounds(fg, bg, a2);
    if bg <= fg {
      MulMonotone(fg - bg, a1, a2);
      DivIsMonotone(n1, n2);
    } else {
      MulMonotone(bg - fg, a1, a2);
      assert n1 == 255 * bg - (bg - fg) * a1;
      assert n2 == 255 * bg - (bg - fg) * a2;
      DivIsMonotone(n2, n1);
    }
  }

  lemma MulMonotone(x: nat, a1: nat, a2: nat)
    requires a1 <= a2
    ensures x * a1 <= x * a2
  {
    assert x * a2 - x * a1 == x * (a2 - a1);
  }

  lemma DivIsMonotone(x: nat, y: nat)
    requires x <= y
    ensures x / 255 <= y / 255
  {
  }

  /** fg = (200, 100, 50) over black at alpha 128 (a weight just above 0.5) gives (100, 50, 25). */
  lemma HalfAlphaOverBlack()
    ensures BlendPixel(Rgba(200, 100, 50, 128), Rgb(0, 0, 0)) == Rgb(100, 50, 25)
  {
  }

  /**
   * The cast truncates: 200 at alpha 127 over black is exactly 25400/255,
   * about 99.61, and the channel is 99, not the rounded 100.
   */
  lemma CastTruncates()
    ensures Mix(200, Scale(127), 0) == 25400.0 / 255.0
    ensures 99.0 < Mix(200, Scale(127), 0) < 100.0 && BlendChannel(200, 0, 127) == 99
  {
  }
}
