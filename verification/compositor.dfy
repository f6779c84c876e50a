/**
 * The frame compositor (`World::draw`). The frame is a flat RGBA byte
 * buffer scanned pixel by pixel in row-major order. Each pixel starts from
 * the background, plain or sampled from the background image. Then every
 * entity covering the pixel is overlaid in entity order, and the resulting
 * color text is decoded into the pixel's four bytes.
 *
 * Image entities are sampled relative to their anchor: the first pixel of
 * the current scan that the entity covers. Anchors are recorded in a map
 * that starts empty for every frame. A sampled image color whose alpha is
 * zero is skipped. Once an image entity has painted a pixel, later image
 * entities leave that pixel alone, while a later solid entity still paints
 * over it.
 *
 * The three data-dependent panics of drawing are error results here: a
 * missing image, a sample outside its image, and a color text that does not
 * decode. A zero configured width is a precondition of `Draw`.
 */
module Compositor {
  import opened Wrappers
  import Colors
  import Entities
  import Worlds

  /** A decoded image: its size and its pixel at each column and row. */
  datatype RgbaImage = RgbaImage(width: nat, height: nat, pixelAt: (nat, nat) -> Colors.Rgba)

  /** The reasons a frame cannot be completed. */
  datatype DrawError =
    | MissingImage(path: string)
    | PixelOutOfBounds(path: string, x: int, y: int)
    | BadColor(hex: string, cause: Colors.HexError)

  /** Per-frame anchors: entity index to the first pixel coordinate at which that image entity was found. */
  type Anchors = map<nat, (int, int)>

  /** The state of one pixel while entities are overlaid on it. */
  datatype Layer = Layer(hex: string, occupied: bool, anchors: Anchors)

  /** A completed scan: one color per pixel, and the anchors recorded during the scan. */
  datatype Frame = Frame(colors: seq<Colors.Rgba>, anchors: Anchors)

  predicate InImage(img: RgbaImage, x: int, y: int) {
    0 <= x < img.width && 0 <= y < img.height
  }

  // ---------------------------------------------------------------------
  // Sampling and background

  /**
   * `get_hex_pixel_color_from_image`: the image pixel as color text. A
   * missing path or a coordinate outside the image is an error (negative
   * coordinates, after the cast to an unsigned index, are outside too).
   */
  function SampleHex(images: map<string, RgbaImage>, path: string, x: int, y: int): (r: Result<string, DrawError>)
    ensures r.Ok? <==> path in images && InImage(images[path], x, y)
    ensures path !in images ==> r == Err(MissingImage(path))
    ensures r.Ok? ==> r.value == Colors.Encode(images[path].pixelAt(x, y))
    ensures r.Ok? ==> Colors.Decode(r.value) == Ok(images[path].pixelAt(x, y))
  {
    if path !in images then Err(MissingImage(path))
    else if !InImage(images[path], x, y) then Err(PixelOutOfBounds(path, x, y))
    else
      var c := images[path].pixelAt(x, y);
      Colors.DecodeEncode(c);
      Ok(Colors.Encode(c))
  }

  /**
   * The background color text of pixel (x, y). An image background is
   * sampled at the pixel's own coordinates when x <= width and y <= height,
   * both bounds inclusive; everywhere else the plain background color is used.
   */
  function BackgroundHex(world: Worlds.World, images: map<string, RgbaImage>, x: int, y: int): (r: Result<string, DrawError>)
    requires 0 <= x && 0 <= y
    ensures world.worldType.Color? ==> r == Ok(world.backgroundRgbaHex)
    ensures world.worldType.Image? && (x > world.worldType.width || y > world.worldType.height) ==>
              r == Ok(world.backgroundRgbaHex)
    ensures world.worldType.Image? && x <= world.worldType.width && y <= world.worldType.height ==>
              var path := world.worldType.path;
              && (r.Ok? <==> path in images && InImage(images[path], x, y))
              && (r.Ok? ==> Colors.Decode(r.value) == Ok(images[path].pixelAt(x, y)))
  {
    match world.worldType
    case Color => Ok(world.backgroundRgbaHex)
    case Image(path, width, height) =>
      if x <= width && y <= height then SampleHex(images, path, x, y)
      else Ok(world.backgroundRgbaHex)
  }

  /**
   * Because both bounds are inclusive, the background of every coordinate
   * (x, y) can be produced exactly when the declared width or height is
   * negative, or the image has at least one column and one row more than
   * declared. A 0-by-0 declared region still samples pixel (0, 0).
   */
  lemma BackgroundNeedsOneMorePixel(world: Worlds.World, images: map<string, RgbaImage>)
    requires world.worldType.Image?
    ensures var Image(path, width, height) := world.worldType;
      (forall x: nat, y: nat :: BackgroundHex(world, images, x, y).Ok?) <==>
      (width < 0 || height < 0 || (path in images && images[path].width > width && images[path].height > height))
  {
    var Image(path, width, height) := world.worldType;
    if width >= 0 && height >= 0 && (forall x: nat, y: nat :: BackgroundHex(world, images, x, y).Ok?) {
      assert BackgroundHex(world, images, width, height).Ok?;
    }
  }

  function Min(a: int, b: int): int {
    if a < b then a else b
  }

  /**
   * Within a frame of `columns` by `rows` pixels, the sampled region is
   * columns 0 to min(width, columns - 1) and rows 0 to min(height, rows - 1).
   * Column `width` (row `height`) is sampled only when the declared region is
   * narrower (shorter) than the frame, and only then does the image need one
   * more column (row) than declared.
   */
  lemma FrameBackgroundFits(world: Worlds.World, images: map<string, RgbaImage>, columns: nat, rows: nat)
    requires world.worldType.Image?
    ensures var Image(path, width, height) := world.worldType;
      (forall x: nat, y: nat :: x < columns && y < rows ==> BackgroundHex(world, images, x, y).Ok?) <==>
      (width < 0 || height < 0 || columns == 0 || rows == 0 ||
       (path in images && images[path].width > Min(width, columns - 1) && images[path].height > Min(height, rows - 1)))
  {
    var Image(path, width, height) := world.worldType;
    if width >= 0 && height >= 0 && columns > 0 && rows > 0
       && (forall x: nat, y: nat :: x < columns && y < rows ==> BackgroundHex(world, images, x, y).Ok?) {
      var cx: nat := Min(width, columns - 1);
      var cy: nat := Min(height, rows - 1);
      assert BackgroundHex(world, images, cx, cy).Ok?;
    }
  }

  /** A background image exactly as large as both its declared region and the frame is never read out of bounds. */
  lemma FullSizeBackgroundFits(world: Worlds.World, images: map<string, RgbaImage>)
    requires world.worldType.Image? && world.worldType.path in images
    requires images[world.worldType.path].width == world.worldType.width
    requires images[world.worldType.path].height == world.worldType.height
    ensures forall x: nat, y: nat :: x < world.worldType.width && y < world.worldType.height ==>
              BackgroundHex(world, images, x, y).Ok?
  {
    var Image(path, width, height) := world.worldType;
    if width > 0 && height > 0 {
      FrameBackgroundFits(world, images, width, height);
    }
  }

  // ---------------------------------------------------------------------
  // Overlaying entities on one pixel

  predicate IsImageAt(e: Entities.Entity, x: int, y: int) {
    e.entityType.Image? && Entities.IsWithinEntity(e, x, y)
  }

  /**
   * Overlays entity `k` on the pixel (x, y). An image entity records its
   * anchor on first contact, even when the pixel is already occupied.
   */
  function OverlayEntity(es: seq<Entities.Entity>, k: nat, images: map<string, RgbaImage>, x: int, y: int, l: Layer)
    : (r: Result<Layer, DrawError>)
    requires k < |es|
    ensures r.Ok? ==>
              r.value.anchors == (if IsImageAt(es[k], x, y) && k !in l.anchors then l.anchors[k := (x, y)] else l.anchors)
    ensures !Entities.IsWithinEntity(es[k], x, y) ==> r == Ok(l)
    ensures !es[k].entityType.Image? && Entities.IsWithinEntity(es[k], x, y) ==> r == Ok(l.(hex := es[k].rgbaHex))
    ensures l.occupied ==> r.Ok? && r.value.occupied && (es[k].entityType.Image? ==> r.value.hex == l.hex)
  {
    var e := es[k];
    if !Entities.IsWithinEntity(e, x, y) then Ok(l)
    else
      match e.entityType
      case Image(path, _, _) =>
        var anchors := if k in l.anchors then l.anchors else l.anchors[k := (x, y)];
        if l.occupied then Ok(l.(anchors := anchors))
        else
          var anchor := anchors[k];
          var sample :- SampleHex(images, path, x - anchor.0, y - anchor.1);
          if sample[6..] == "00" then Ok(Layer(l.hex, false, anchors))
          else Ok(Layer(sample, true, anchors))
      case _ => Ok(l.(hex := e.rgbaHex))
  }

  /** How the anchors of one pixel's overlay pass relate to those before it. */
  predicate AnchorsExtended(es: seq<Entities.Entity>, m: nat, x: int, y: int, before: Anchors, after: Anchors)
    requires m <= |es|
  {
    && (forall k :: k in before ==> k in after && after[k] == before[k])
    && (forall k :: k in after && k !in before ==> k < m && IsImageAt(es[k], x, y) && after[k] == (x, y))
    && (forall k: nat :: k < m && IsImageAt(es[k], x, y) ==> k in after)
  }

  /**
   * Overlays the first `m` entities, in order, on the pixel (x, y).
   */
  function Overlays(es: seq<Entities.Entity>, m: nat, images: map<string, RgbaImage>, x: int, y: int, l: Layer)
    : (r: Result<Layer, DrawError>)
    requires m <= |es|
    ensures l.occupied ==> r.Ok? && r.value.occupied
  {
    if m == 0 then Ok(l)
    else
      var before :- Overlays(es, m - 1, images, x, y, l);
      OverlayEntity(es, m - 1, images, x, y, before)
  }

  /**
   * An overlay pass keeps the existing anchors, anchors at this pixel every
   * image entity covering it that had none, and adds nothing else.
   */
  lemma {:induction false} OverlaysExtendAnchors(es: seq<Entities.Entity>, m: nat, images: map<string, RgbaImage>,
                                                  x: int, y: int, l: Layer)
    requires m <= |es| && Overlays(es, m, images, x, y, l).Ok?
    ensures AnchorsExtended(es, m, x, y, l.anchors, Overlays(es, m, images, x, y, l).value.anchors)
  {
    if m > 0 {
      OverlaysExtendAnchors(es, m - 1, images, x, y, l);
    }
  }

  /** A pixel no entity covers keeps its layer unchanged. */
  lemma {:induction false} UncoveredPixelKeepsLayer(es: seq<Entities.Entity>, m: nat, images: map<string, RgbaImage>,
                                                     x: int, y: int, l: Layer)
    requires m <= |es|
    requires forall j :: 0 <= j < m ==> !Entities.IsWithinEntity(es[j], x, y)
    ensures Overlays(es, m, images, x, y, l) == Ok(l)
  {
    if m > 0 {
      UncoveredPixelKeepsLayer(es, m - 1, images, x, y, l);
    }
  }

  /**
   * A Box, Ball or Text entity covering the pixel replaces the color below
   * it, so when no later entity covers the pixel the pixel shows its color.
   */
  lemma {:induction false} LastSolidEntityWins(es: seq<Entities.Entity>, m: nat, images: map<string, RgbaImage>,
                                                x: int, y: int, l: Layer, k: nat)
    requires k < m <= |es|
    requires !es[k].entityType.Image? && Entities.IsWithinEntity(es[k], x, y)
    requires forall j :: k < j < m ==> !Entities.IsWithinEntity(es[j], x, y)
    requires Overlays(es, m, images, x, y, l).Ok?
    ensures Overlays(es, m, images, x, y, l).value.hex == es[k].rgbaHex
  {
    if m - 1 > k {
      LastSolidEntityWins(es, m - 1, images, x, y, l, k);
    }
  }

  /** Only an image entity can make an overlay pass fail: Box, Ball and Text entities always overlay. */
  lemma {:induction false} OnlyImagesFail(es: seq<Entities.Entity>, m: nat, images: map<string, RgbaImage>,
                                          x: int, y: int, l: Layer)
    requires m <= |es|
    requires forall j :: 0 <= j < m ==> !IsImageAt(es[j], x, y)
    ensures Overlays(es, m, images, x, y, l).Ok?
  {
    if m > 0 {
      OnlyImagesFail(es, m - 1, images, x, y, l);
    }
  }

  /** Every entity from index `from` up to (not including) `to` that covers the pixel is an image entity. */
  predicate OnlyImagesCover(es: seq<Entities.Entity>, from: nat, to: nat, x: int, y: int)
    requires to <= |es|
  {
    forall j :: from <= j < to && Entities.IsWithinEntity(es[j], x, y) ==> es[j].entityType.Image?
  }

  /**
   * Once an image has painted the pixel, later image entities can neither
   * fail nor change its color: only a Box, Ball or Text entity covering the
   * pixel can change it from then on.
   */
  lemma {:induction false} PaintedPixelKeepsColor(es: seq<Entities.Entity>, k: nat, m: nat, images: map<string, RgbaImage>,
                                                   x: int, y: int, l: Layer)
    requires k <= m <= |es|
    requires Overlays(es, k, images, x, y, l).Ok? && Overlays(es, k, images, x, y, l).value.occupied
    requires OnlyImagesCover(es, k, m, x, y)
    ensures Overlays(es, m, images, x, y, l).Ok?
    ensures Overlays(es, m, images, x, y, l).value.occupied
    ensures Overlays(es, m, images, x, y, l).value.hex == Overlays(es, k, images, x, y, l).value.hex
  {
    if m > k {
      PaintedPixelKeepsColor(es, k, m - 1, images, x, y, l);
    }
  }

  /**
   * A solid entity painted over an image-painted pixel keeps its color
   * through any later image entities covering the pixel: the pixel stays
   * occupied, so those images are not sampled.
   */
  lemma {:induction false} SolidOverPaintedImageStays(es: seq<Entities.Entity>, k: nat, m: nat, images: map<string, RgbaImage>,
                                                      x: int, y: int, l: Layer, before: Layer)
    requires k < m <= |es|
    requires Overlays(es, k, images, x, y, l) == Ok(before) && before.occupied
    requires !es[k].entityType.Image? && Entities.IsWithinEntity(es[k], x, y)
    requires OnlyImagesCover(es, k + 1, m, x, y)
    ensures Overlays(es, m, images, x, y, l).Ok?
    ensures Overlays(es, m, images, x, y, l).value.hex == es[k].rgbaHex
  {
    SolidEntityPaints(es, k, images, x, y, l, before);
    PaintedPixelKeepsColor(es, k + 1, m, images, x, y, l);
  }

  /** A covering Box, Ball or Text entity sets the color text and keeps the occupied flag. */
  lemma SolidEntityPaints(es: seq<Entities.Entity>, k: nat, images: map<string, RgbaImage>, x: int, y: int, l: Layer, before: Layer)
    requires k < |es| && Overlays(es, k, images, x, y, l) == Ok(before)
    requires !es[k].entityType.Image? && Entities.IsWithinEntity(es[k], x, y)
    ensures Overlays(es, k + 1, images, x, y, l) == Ok(before.(hex := es[k].rgbaHex))
  {
  }

  /** The anchor entity `k` samples from at pixel (x, y): its recorded one, or this pixel on first contact. */
  function AnchorAt(l: Layer, k: nat, x: int, y: int): (int, int) {
    if k in l.anchors then l.anchors[k] else (x, y)
  }

  function WithAnchor(l: Layer, k: nat, x: int, y: int): Anchors {
    l.anchors[k := AnchorAt(l, k, x, y)]
  }

  /** The image pixel at (x, y)'s offset from anchor `a`, if the image exists and holds that offset. */
  function OffsetPixel(images: map<string, RgbaImage>, path: string, x: int, y: int, a: (int, int)): Option<Colors.Rgba> {
    if path in images && InImage(images[path], x - a.0, y - a.1)
    then Some(images[path].pixelAt(x - a.0, y - a.1))
    else None
  }

  /** On a pixel an image has already painted, a later image entity changes nothing but its anchor. */
  lemma OccupiedPixelIgnoresImage(es: seq<Entities.Entity>, k: nat, images: map<string, RgbaImage>, x: int, y: int, l: Layer)
    requires k < |es| && IsImageAt(es[k], x, y) && l.occupied
    ensures OverlayEntity(es, k, images, x, y, l) == Ok(Layer(l.hex, true, WithAnchor(l, k, x, y)))
  {
    if k in l.anchors {
      assert WithAnchor(l, k, x, y) == l.anchors;
    }
  }

  /**
   * On an unoccupied pixel, an image entity samples its image at the pixel's
   * offset from the entity's anchor. A fully transparent sample leaves the
   * color below and the pixel unoccupied.
   */
  lemma TransparentSampleKeepsColor(es: seq<Entities.Entity>, k: nat, images: map<string, RgbaImage>, x: int, y: int,
                                    l: Layer, c: Colors.Rgba)
    requires k < |es| && IsImageAt(es[k], x, y) && !l.occupied
    requires OffsetPixel(images, es[k].entityType.path, x, y, AnchorAt(l, k, x, y)) == Some(c) && c.a == 0
    ensures OverlayEntity(es, k, images, x, y, l) == Ok(Layer(l.hex, false, WithAnchor(l, k, x, y)))
  {
    Colors.TransparentIffAlphaZero(c);
    if k in l.anchors {
      assert WithAnchor(l, k, x, y) == l.anchors;
    }
  }

  /**
   * On an unoccupied pixel, a sample with non-zero alpha becomes the pixel's
   * color text, which decodes back to exactly that image pixel, and the
   * pixel becomes occupied.
   */
  lemma OpaqueSamplePaints(es: seq<Entities.Entity>, k: nat, images: map<string, RgbaImage>, x: int, y: int,
                           l: Layer, c: Colors.Rgba)
    requires k < |es| && IsImageAt(es[k], x, y) && !l.occupied
    requires OffsetPixel(images, es[k].entityType.path, x, y, AnchorAt(l, k, x, y)) == Some(c) && c.a != 0
    ensures OverlayEntity(es, k, images, x, y, l) == Ok(Layer(Colors.Encode(c), true, WithAnchor(l, k, x, y)))
    ensures Colors.Decode(Colors.Encode(c)) == Ok(c)
  {
    Colors.TransparentIffAlphaZero(c);
    Colors.DecodeEncode(c);
    if k in l.anchors {
      assert WithAnchor(l, k, x, y) == l.anchors;
    }
  }

  /** An image entity whose offset pixel is missing or outside its image stops the frame. */
  lemma UnreadableSampleFails(es: seq<Entities.Entity>, k: nat, images: map<string, RgbaImage>, x: int, y: int, l: Layer)
    requires k < |es| && IsImageAt(es[k], x, y) && !l.occupied
    requires OffsetPixel(images, es[k].entityType.path, x, y, AnchorAt(l, k, x, y)).None?
    ensures OverlayEntity(es, k, images, x, y, l).Err?
  {
  }

  // ---------------------------------------------------------------------
  // Whole pixels and whole frames

  /**
   * Pixel `i` of the scan: it sits at column i % width and row i / width,
   * starts from the background, is overlaid by all entities in order, and
   * its final color text is decoded.
   */
  function PixelStep(world: Worlds.World, width: int, images: map<string, RgbaImage>, i: nat, anchors: Anchors)
    : (r: Result<(Colors.Rgba, Anchors), DrawError>)
    requires width > 0
  {
    var x := i % width;
    var y := i / width;
    var bg :- BackgroundHex(world, images, x, y);
    var l :- Overlays(world.entities, |world.entities|, images, x, y, Layer(bg, false, anchors));
    match Colors.Decode(l.hex)
    case Ok(c) => Ok((c, l.anchors))
    case Err(e) => Err(BadColor(l.hex, e))
  }

  /** A pixel step extends the anchors as its overlay pass does. */
  lemma PixelStepExtendsAnchors(world: Worlds.World, width: int, images: map<string, RgbaImage>, i: nat, anchors: Anchors)
    requires width > 0 && PixelStep(world, width, images, i, anchors).Ok?
    ensures AnchorsExtended(world.entities, |world.entities|, i % width, i / width, anchors,
                            PixelStep(world, width, images, i, anchors).value.1)
  {
    var x := i % width;
    var y := i / width;
    var bg := BackgroundHex(world, images, x, y).value;
    OverlaysExtendAnchors(world.entities, |world.entities|, images, x, y, Layer(bg, false, anchors));
  }

  /** Entity `e` covers pixel `j` of a scan of rows `width` pixels wide. */
  predicate CoversPixel(e: Entities.Entity, width: int, j: nat)
    requires width > 0
  {
    Entities.IsWithinEntity(e, j % width, j / width)
  }

  /** `a` is the coordinate of the first pixel, among the first `n` scanned, that `e` covers. */
  predicate IsFirstHit(e: Entities.Entity, width: int, n: nat, a: (int, int))
    requires width > 0
  {
    && 0 <= a.0 < width && 0 <= a.1 && a.1 * width + a.0 < n
    && Entities.IsWithinEntity(e, a.0, a.1)
    && forall j: nat :: j < a.1 * width + a.0 ==> !CoversPixel(e, width, j)
  }

  /**
   * After scanning `n` pixels, the anchors hold exactly the image entities
   * that cover some scanned pixel, each at the first such pixel.
   */
  predicate AnchorsAreFirstHits(es: seq<Entities.Entity>, width: int, n: nat, anchors: Anchors)
    requires width > 0
  {
    && (forall k :: k in anchors ==> k < |es| && es[k].entityType.Image? && IsFirstHit(es[k], width, n, anchors[k]))
    && (forall k: nat, j: nat :: k < |es| && es[k].entityType.Image? && j < n && CoversPixel(es[k], width, j) ==> k in anchors)
  }

  /**
   * The first `n` pixels of a frame, scanned in order with the anchors
   * starting empty. The first pixel that fails stops the whole frame.
   */
  function Render(world: Worlds.World, width: int, images: map<string, RgbaImage>, n: nat): (r: Result<Frame, DrawError>)
    requires width > 0
    ensures r.Ok? ==> |r.value.colors| == n
  {
    if n == 0 then Ok(Frame([], map[]))
    else
      var prev :- Render(world, width, images, n - 1);
      var step :- PixelStep(world, width, images, n - 1, prev.anchors);
      Ok(Frame(prev.colors + [step.0], step.1))
  }

  /**
   * The anchor map of a completed scan of `n` pixels holds exactly the image
   * entities that cover a scanned pixel, each at the first pixel in scan
   * order that it covers; an anchor, once recorded, is never overwritten.
   */
  lemma {:induction false} RenderAnchorsAreFirstHits(world: Worlds.World, width: int, images: map<string, RgbaImage>, n: nat)
    requires width > 0 && Render(world, width, images, n).Ok?
    ensures AnchorsAreFirstHits(world.entities, width, n, Render(world, width, images, n).value.anchors)
  {
    if n > 0 {
      var prev := Render(world, width, images, n - 1).value;
      RenderAnchorsAreFirstHits(world, width, images, n - 1);
      var step := PixelStep(world, width, images, n - 1, prev.anchors).value;
      PixelStepExtendsAnchors(world, width, images, n - 1, prev.anchors);
      FirstHitsExtend(world.entities, width, n, prev.anchors, step.1);
    }
  }

  /** A longer successful scan extends every shorter one: its first `m` colors are the shorter scan's colors. */
  lemma {:induction false} RenderPrefix(world: Worlds.World, width: int, images: map<string, RgbaImage>, m: nat, n: nat)
    requires width > 0 && m <= n && Render(world, width, images, n).Ok?
    ensures Render(world, width, images, m).Ok?
    ensures Render(world, width, images, m).value.colors == Render(world, width, images, n).value.colors[..m]
  {
    if m < n {
      RenderPrefix(world, width, images, m, n - 1);
      var prev := Render(world, width, images, n - 1).value;
      assert Render(world, width, images, n).value.colors[..n - 1] == prev.colors;
      assert prev.colors[..m] == Render(world, width, images, n).value.colors[..m];
    } else {
      assert Render(world, width, images, n).value.colors[..n] == Render(world, width, images, n).value.colors;
    }
  }

  /**
   * Pixel p of a successful scan has the color its own pixel step computes,
   * given the anchors recorded by the p pixels before it.
   */
  lemma RenderPixel(world: Worlds.World, width: int, images: map<string, RgbaImage>, n: nat, p: nat)
    requires width > 0 && p < n && Render(world, width, images, n).Ok?
    ensures Render(world, width, images, p).Ok?
    ensures var step := PixelStep(world, width, images, p, Render(world, width, images, p).value.anchors);
      step.Ok? && step.value.0 == Render(world, width, images, n).value.colors[p]
  {
    RenderPrefix(world, width, images, p + 1, n);
    RenderPrefix(world, width, images, p, p + 1);
    assert Render(world, width, images, n).value.colors[p] == Render(world, width, images, p + 1).value.colors[p];
  }

  lemma PixelIndex(i: nat, width: int)
    requires width > 0
    ensures (i / width) * width + i % width == i
    ensures 0 <= i % width < width && 0 <= i / width
  {
  }

  /** Multiplying by a positive width preserves order, with a gap of at least one width. */
  lemma {:induction false} MulStep(a: int, b: int, width: int)
    requires width > 0 && a < b
    ensures a * width + width <= b * width
  {
    var d := b - a;
    assert b * width == a * width + d * width;
    MulAtLeast(d, width);
  }

  lemma {:induction false} MulAtLeast(d: int, width: int)
    requires d >= 1 && width > 0
    ensures d * width >= width
  {
    if d > 1 {
      MulAtLeast(d - 1, width);
      assert d * width == (d - 1) * width + width;
    }
  }

  /** Column x of row y is pixel y * width + x, and back. */
  lemma IndexOfCoordinates(x: int, y: int, width: int)
    requires 0 <= x < width && 0 <= y
    ensures (y * width + x) % width == x && (y * width + x) / width == y
  {
    var j := y * width + x;
    PixelIndex(j, width);
    var q := j / width;
    if q < y {
      MulStep(q, y, width);
    } else if y < q {
      MulStep(y, q, width);
    }
  }

  /** One more scanned pixel keeps the anchors the first hits of the longer scan. */
  lemma FirstHitsExtend(es: seq<Entities.Entity>, width: int, n: nat, before: Anchors, after: Anchors)
    requires width > 0 && n > 0
    requires AnchorsAreFirstHits(es, width, n - 1, before)
    requires AnchorsExtended(es, |es|, (n - 1) % width, (n - 1) / width, before, after)
    ensures AnchorsAreFirstHits(es, width, n, after)
  {
    var i := n - 1;
    var x := i % width;
    var y := i / width;
    PixelIndex(i, width);
    forall k | k in after
      ensures k < |es| && es[k].entityType.Image? && IsFirstHit(es[k], width, n, after[k])
    {
      if k !in before {
        assert after[k] == (x, y);
      }
    }
    forall k: nat, j: nat | k < |es| && es[k].entityType.Image? && j < n && CoversPixel(es[k], width, j)
      ensures k in after
    {
      if j == i {
        assert IsImageAt(es[k], x, y);
      }
    }
  }

  /**
   * The anchor of a rectangle-shaped entity is its top-left corner clipped
   * to the frame: (max(0, x), max(0, y)). An entity that reaches past the
   * left or top edge is therefore sampled from its image's own top-left
   * corner, not from the part that would lie on screen.
   */
  lemma FirstHitIsClippedCorner(e: Entities.Entity, width: int, n: nat, a: (int, int))
    requires width > 0 && !e.entityType.Ball?
    requires IsFirstHit(e, width, n, a)
    ensures a == (if e.x > 0 then e.x else 0, if e.y > 0 then e.y else 0)
  {
    var w := Entities.XExtent(e.entityType).after;
    var h := Entities.YExtent(e.entityType).after;
    var cx := if e.x > 0 then e.x else 0;
    var cy := if e.y > 0 then e.y else 0;
    assert e.x <= a.0 < e.x + w && e.y <= a.1 < e.y + h;
    IndexOfCoordinates(cx, cy, width);
    var jc: nat := cy * width + cx;
    assert CoversPixel(e, width, jc);
    assert a.1 * width + a.0 <= jc;
    if cy < a.1 {
      MulStep(cy, a.1, width);
      assert false;
    }
  }

  /**
   * Sampling offsets stay inside a rectangle entity: every pixel the entity
   * covers at or after its anchor lies at an offset within [0, width) by
   * [0, height). An image at least as large as the entity is therefore never
   * read out of bounds.
   */
  lemma SampleOffsetInsideEntity(e: Entities.Entity, width: int, n: nat, a: (int, int), j: nat)
    requires width > 0 && !e.entityType.Ball?
    requires IsFirstHit(e, width, n, a) && CoversPixel(e, width, j)
    ensures 0 <= j % width - a.0 < Entities.XExtent(e.entityType).after
    ensures 0 <= j / width - a.1 < Entities.YExtent(e.entityType).after
  {
    FirstHitIsClippedCorner(e, width, n, a);
    PixelIndex(j, width);
  }

  /** A failed frame stays failed, with the same error, however many more pixels are asked for. */
  lemma {:induction false} RenderErrorPersists(world: Worlds.World, width: int, images: map<string, RgbaImage>, m: nat, n: nat)
    requires width > 0 && m <= n
    requires Render(world, width, images, m).Err?
    ensures Render(world, width, images, n) == Render(world, width, images, m)
  {
    if m < n {
      RenderErrorPersists(world, width, images, m, n - 1);
    }
  }

  /**
   * With a plain background and no entities, the frame succeeds exactly
   * when the background color decodes (or there are no pixels), and then
   * every pixel is that color and no anchor is recorded.
   */
  lemma {:induction false} EmptyColorWorld(world: Worlds.World, width: int, images: map<string, RgbaImage>, n: nat)
    requires width > 0 && world.worldType.Color? && |world.entities| == 0
    ensures Render(world, width, images, n).Ok? <==> n == 0 || Colors.Decode(world.backgroundRgbaHex).Ok?
    ensures Render(world, width, images, n).Ok? ==>
              && Render(world, width, images, n).value.anchors == map[]
              && forall p :: 0 <= p < n ==>
                   Render(world, width, images, n).value.colors[p] == Colors.Decode(world.backgroundRgbaHex).value
  {
    if n > 0 {
      EmptyColorWorld(world, width, images, n - 1);
      if Render(world, width, images, n - 1).Err? {
        RenderErrorPersists(world, width, images, n - 1, n);
      }
    }
  }

  // ---------------------------------------------------------------------
  // Scenario: a white 3-by-3 box on a black 10-by-10 world

  function BoxScene(): Worlds.World {
    Worlds.World(10, 10, Worlds.Color, "000000ff", [Entities.Entity(2, 2, 1, 1, "ffffffff", Entities.Box(3, 3))])
  }

  lemma DecodeWhite()
    ensures Colors.Decode("ffffffff") == Ok(Colors.Rgba(255, 255, 255, 255))
  {
    var c := Colors.Rgba(255, 255, 255, 255);
    Colors.DecodeEncode(c);
    assert Colors.Encode(c) == "ffffffff";
  }

  lemma DecodeBlack()
    ensures Colors.Decode("000000ff") == Ok(Colors.Rgba(0, 0, 0, 255))
  {
    var c := Colors.Rgba(0, 0, 0, 255);
    Colors.DecodeEncode(c);
    assert Colors.Encode(c) == "000000ff";
  }

  /** The scene's single box paints exactly the pixels (2, 2) to (4, 4), leaving the black background elsewhere. */
  lemma BoxSceneLayer(images: map<string, RgbaImage>, x: int, y: int, anchors: Anchors)
    ensures var covered := 2 <= x < 5 && 2 <= y < 5;
      Overlays(BoxScene().entities, 1, images, x, y, Layer("000000ff", false, anchors))
        == Ok(Layer(if covered then "ffffffff" else "000000ff", false, anchors))
  {
    var es := BoxScene().entities;
    var l := Layer("000000ff", false, anchors);
    assert Overlays(es, 0, images, x, y, l) == Ok(l);
  }

  /** Pixel i of the scene lies in the box's square, columns and rows 2 to 4. */
  predicate InBoxSquare(i: nat) {
    2 <= i % 10 < 5 && 2 <= i / 10 < 5
  }

  /** Pixels (2, 2) to (4, 4) are opaque white; every other pixel is the opaque black background. */
  lemma BoxScenePixels(images: map<string, RgbaImage>, i: nat, anchors: Anchors)
    ensures var r := PixelStep(BoxScene(), 10, images, i, anchors);
      && r.Ok?
      && (InBoxSquare(i) ==> r.value.0 == Colors.Rgba(255, 255, 255, 255))
      && (!InBoxSquare(i) ==> r.value.0 == Colors.Rgba(0, 0, 0, 255))
  {
    var x := i % 10;
    var y := i / 10;
    assert BackgroundHex(BoxScene(), images, x, y) == Ok("000000ff");
    BoxSceneLayer(images, x, y, anchors);
    if InBoxSquare(i) {
      assert Overlays(BoxScene().entities, 1, images, x, y, Layer("000000ff", false, anchors))
        == Ok(Layer("ffffffff", false, anchors));
      DecodeWhite();
    } else {
      assert Overlays(BoxScene().entities, 1, images, x, y, Layer("000000ff", false, anchors))
        == Ok(Layer("000000ff", false, anchors));
      DecodeBlack();
    }
  }

  /** A scan of the scene never fails, and every scanned pixel is white inside the box's square and black elsewhere. */
  lemma {:induction false} BoxSceneFrame(images: map<string, RgbaImage>, n: nat)
    ensures Render(BoxScene(), 10, images, n).Ok?
    ensures forall p :: 0 <= p < n ==>
              Render(BoxScene(), 10, images, n).value.colors[p]
                == (if InBoxSquare(p) then Colors.Rgba(255, 255, 255, 255) else Colors.Rgba(0, 0, 0, 255))
  {
    if n > 0 {
      BoxSceneFrame(images, n - 1);
      var prev := Render(BoxScene(), 10, images, n - 1).value;
      BoxScenePixels(images, n - 1, prev.anchors);
      var step := PixelStep(BoxScene(), 10, images, n - 1, prev.anchors).value;
      assert Render(BoxScene(), 10, images, n).value.colors == prev.colors + [step.0];
    }
  }

  // ---------------------------------------------------------------------
  // The draw loop

  /** Pixel p's four bytes in `out` are the channels of `colors[p]`, in the order R, G, B, A. */
  predicate FrameHolds(out: seq<Colors.byte>, colors: seq<Colors.Rgba>) {
    && 4 * |colors| <= |out|
    && forall p :: 0 <= p < |colors| ==>
         && out[4 * p] == colors[p].r && out[4 * p + 1] == colors[p].g
         && out[4 * p + 2] == colors[p].b && out[4 * p + 3] == colors[p].a
  }

  /** The buffer with pixel i's four bytes set to the channels of c. */
  function SetPixel(out: seq<Colors.byte>, i: nat, c: Colors.Rgba): (out': seq<Colors.byte>)
    requires 4 * i + 4 <= |out|
    ensures |out'| == |out|
  {
    out[4 * i := c.r][4 * i + 1 := c.g][4 * i + 2 := c.b][4 * i + 3 := c.a]
  }

  /** Writing a pixel's four bytes extends the written prefix and leaves the bytes after it alone. */
  lemma WritePixel(out: seq<Colors.byte>, colors: seq<Colors.Rgba>, c: Colors.Rgba)
    requires FrameHolds(out, colors) && 4 * |colors| + 4 <= |out|
    ensures FrameHolds(SetPixel(out, |colors|, c), colors + [c])
    ensures forall b :: 4 * |colors| + 4 <= b < |out| ==> SetPixel(out, |colors|, c)[b] == out[b]
  {
  }

  /**
   * One successful iteration of the draw loop: the scan grows by the pixel's
   * color, and writing that color extends the written prefix of the buffer
   * while the bytes after it still hold the incoming buffer's bytes.
   */
  lemma PixelWritten(world: Worlds.World, width: int, images: map<string, RgbaImage>, i: nat, f: Frame,
                     out: seq<Colors.byte>, frame: seq<Colors.byte>, step: (Colors.Rgba, Anchors))
    requires width > 0 && Render(world, width, images, i) == Ok(f)
    requires |out| == |frame| && 4 * i + 4 <= |out|
    requires FrameHolds(out, f.colors) && forall b :: 4 * i <= b < |out| ==> out[b] == frame[b]
    requires PixelStep(world, width, images, i, f.anchors) == Ok(step)
    ensures Render(world, width, images, i + 1) == Ok(Frame(f.colors + [step.0], step.1))
    ensures FrameHolds(SetPixel(out, i, step.0), f.colors + [step.0])
    ensures forall b :: 4 * (i + 1) <= b < |out| ==> SetPixel(out, i, step.0)[b] == frame[b]
  {
    WritePixel(out, f.colors, step.0);
  }

  /** A pixel whose step fails ends the scan of any longer frame with that pixel's error. */
  lemma PixelFailed(world: Worlds.World, width: int, images: map<string, RgbaImage>, i: nat, f: Frame, n: nat)
    requires width > 0 && i < n && Render(world, width, images, i) == Ok(f)
    requires PixelStep(world, width, images, i, f.anchors).Err?
    ensures Render(world, width, images, n) == Err(PixelStep(world, width, images, i, f.anchors).error)
  {
    RenderErrorPersists(world, width, images, i + 1, n);
  }

  /**
   * `World::draw`. The buffer is split into |frame| / 4 whole pixels (bytes
   * after the last whole pixel are left alone), with rows `cfg.worldWidth`
   * pixels wide. On success every whole pixel holds the rendered color, so
   * drawing the same world twice into the same buffer gives the same bytes.
   * On failure Bouncy-World panics, so the buffer contents are not specified.
   */
  method Draw(world: Worlds.World, cfg: Worlds.Config, images: map<string, RgbaImage>, frame: seq<Colors.byte>)
    returns (out: seq<Colors.byte>, outcome: Outcome<DrawError>)
    requires cfg.worldWidth > 0
    ensures |out| == |frame|
    ensures outcome.Pass? <==> Render(world, cfg.worldWidth, images, |frame| / 4).Ok?
    ensures outcome.Fail? ==> outcome.error == Render(world, cfg.worldWidth, images, |frame| / 4).error
    ensures outcome.Pass? ==> FrameHolds(out, Render(world, cfg.worldWidth, images, |frame| / 4).value.colors)
    ensures outcome.Pass? ==> forall b :: 4 * (|frame| / 4) <= b < |frame| ==> out[b] == frame[b]
  {
    var n := |frame| / 4;
    var width := cfg.worldWidth;
    out := frame;
    var anchors: Anchors := map[];
    ghost var colors: seq<Colors.Rgba> := [];
    var i := 0;
    while i < n
      invariant 0 <= i <= n && |out| == |frame|
      invariant Render(world, width, images, i) == Ok(Frame(colors, anchors))
      invariant FrameHolds(out, colors)
      invariant forall b :: 4 * i <= b < |out| ==> out[b] == frame[b]
    {
      var step := PixelStep(world, width, images, i, anchors);
      if step.Err? {
        PixelFailed(world, width, images, i, Frame(colors, anchors), n);
        return out, Fail(step.error);
      }
      PixelWritten(world, width, images, i, Frame(colors, anchors), out, frame, step.value);
      out := SetPixel(out, i, step.value.0);
      colors := colors + [step.value.0];
      anchors := step.value.1;
      i := i + 1;
    }
    outcome := Pass;
  }

  /**
   * Drawing the scene into a buffer with rows 10 pixels wide always
   * succeeds: pixels (2, 2) to (4, 4) become ff ff ff ff and every other
   * whole pixel becomes 00 00 00 ff.
   */
  method DrawBoxScene(cfg: Worlds.Config, images: map<string, RgbaImage>, frame: seq<Colors.byte>)
    returns (out: seq<Colors.byte>, outcome: Outcome<DrawError>)
    requires cfg.worldWidth == 10
    ensures outcome == Pass && |out| == |frame|
    ensures forall p :: 0 <= p < |frame| / 4 ==>
              && out[4 * p] == out[4 * p + 1] == out[4 * p + 2] == (if InBoxSquare(p) then 255 else 0)
              && out[4 * p + 3] == 255
  {
    var n := |frame| / 4;
    BoxSceneFrame(images, n);
    out, outcome := Draw(BoxScene(), cfg, images, frame);
    var colors := Render(BoxScene(), 10, images, n).value.colors;
    assert FrameHolds(out, colors);
    forall p | 0 <= p < n
      ensures && out[4 * p] == out[4 * p + 1] == out[4 * p + 2] == (if InBoxSquare(p) then 255 else 0)
              && out[4 * p + 3] == 255
    {
      assert out[4 * p] == colors[p].r && out[4 * p + 1] == colors[p].g;
      assert out[4 * p + 2] == colors[p].b && out[4 * p + 3] == colors[p].a;
    }
  }
}
