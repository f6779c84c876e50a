# Bouncy-World simulation and render engine in Dafny

This project models the engine of Bouncy-World. Shapes bounce off the edges of a 2D world, and each frame the world is drawn into a raw RGBA byte buffer. The model covers four parts:

- **Entities** (`entities.dfy`, module `Entities`). An entity has a position, a velocity, a color text and one of four shapes: `Box(w, h)`, `Ball(r)`, `Image(path, w, h)` or `Text(w, h)`.
  - Containment is half-open for the width-by-height shapes. For a ball it is strict: the squared distance from the center must be below the squared radius.
  - Motion is a one-step reflection. On each axis the velocity is negated when the footprint touches or crosses 0, or overhangs the upper bound. The position then advances by the new velocity.
  - Creation takes its random draws as parameters.
- **World** (`worlds.dfy`, module `Worlds`). The configuration fields the engine reads, the background description, `World::new` and `World::update`.
- **Frame compositor** (`compositor.dfy`, module `Compositor`). `World::draw` scans the buffer in row-major order. Pixel `i` is at column `i % width` and row `i / width`, and its color goes into bytes `4i..4i+3`.
  - Each pixel starts from the background, which is plain or sampled from the background image.
  - Entities are overlaid in order. A Box, Ball or Text entity paints its color.
  - An image entity samples its image relative to its *anchor*: the first pixel of this frame's scan that the entity covers. Anchors live in a map that starts empty for each frame.
  - A sample with alpha zero is skipped. Once an image has painted a pixel, later image entities leave it alone.
  - The final color text is decoded into the pixel's bytes.
- **Color codec** (`colors.dfy`, module `Colors`). A color is encoded as eight lower-case hex digits, R, G, B, A. Decoding reproduces the hex crate's `<[u8; 4]>::from_hex`. It accepts either case, and its errors are an odd length, a length other than eight, or the first non-hex character.

`wrappers.dfy` holds the `Option`, `Result` and `Outcome` types the other modules use.

The three ways drawing a frame can panic become error values in the model: an image path missing from the loaded images, a pixel read outside an image, and a color text that does not decode. `Draw` reports the error of the first failing pixel. Two other panics, a remainder by zero, become preconditions instead (see "Left out").

Abstractions:
- Random numbers are `SpawnDraw` parameters.
- A decoded image is `RgbaImage(width, height, pixelAt)`.
- The loaded-images hash map is a Dafny `map<string, RgbaImage>`.
- The anchor hash map is a `map<nat, (int, int)>` keyed by entity index.
- The frame buffer is a `seq<byte>` that `Draw` takes in and returns rewritten.

The model keeps these behaviours of the code, which a reader may not expect:
- The background image is sampled when `x <= width && y <= height`, with both bounds inclusive. When the declared region is narrower than the frame, column `width` is scanned and sampled, so the image needs one more column than declared. The same holds for row `height` when the region is shorter than the frame (`FrameBackgroundFits`). A background image exactly as large as both its region and the frame is never over-read (`FullSizeBackgroundFits`).
- A ball's start is drawn from `[0, W - r)`, not `[r, W - r)`. A new ball may therefore overhang the left or top edge.
- A negative `entity_count` creates no entities.
- Motion uses the configured width and height, not the world's own fields. Pixel coordinates use the configured width.
- The walls are asymmetric. A footprint touching the left or top bound (`x <= 0`) is reflected. A footprint flush with the right or bottom bound (`x + w == W`) is not: it moves one more step and is reflected on the next frame, once it overhangs.
- Hex decoding also accepts upper-case digits.

## Model

| member | source | states |
|---|---|---|
| Colors.Encode | src/world.rs:37-41 | The text has exactly 8 lower-case hex digits. Digit pairs 0-3 denote R, G, B and A, in that order. |
| Colors.Decode | src/world.rs:146-149 | Decoding succeeds iff the text is 8 hex digits of either case. An odd length gives OddLength and another even length gives InvalidStringLength. Each digit pair gives its channel. |
| Colors.DecodeEncode | src/world.rs:41 | Decoding an encoded color returns the same color. |
| Colors.EncodeDecode | src/world.rs:147-149 | A text that decodes re-encodes to itself with its digits lower-cased. |
| Colors.TransparentIffAlphaZero | src/world.rs:130 | An encoded color's last two characters are "00" iff its alpha is 0. |
| Entities.Update | src/entity.rs:74-131 | Each axis's velocity is negated iff the footprint [p - before, p + after] touches 0 or overhangs the bound: `x <= 0 \|\| x + w > W` for a rectangle and `x - r <= 0 \|\| x + r > W` for a ball. The position then moves by the new velocity. Speeds, shape and color do not change. |
| Entities.BounceOffLeftWall | src/entity.rs:108-118 | A box at x = 0 with x-velocity -3 in a world of width 10 ends with x-velocity 3 and x = 3. |
| Entities.LeftWallTrap | src/entity.rs:108-131 | An entity whose footprint touches the left bound while moving right is flipped every frame. It is back at the same x with the same velocity every two frames, forever. |
| Entities.FlushRightWallOvershoots | src/entity.rs:108-118 | A rectangle flush with the right bound (`x + w == W`) and moving right is not reflected. It keeps its velocity, overhangs the bound after one frame, and is reflected on the next. |
| Entities.IsWithinEntity | src/entity.rs:93-155 | For Box, Image and Text the point is inside iff `px <= x < px + w` and `py <= y < py + h`. For a Ball it is inside iff `(x-px)² + (y-py)² < r²`. |
| Entities.RectangleEdges | src/entity.rs:133-144 | The right and bottom edges are outside a rectangle footprint. The top-left corner is inside iff the size is positive. |
| Entities.BallRimExcluded | src/entity.rs:146-155 | A point exactly one radius from the center is outside the ball. A point one step nearer is inside. |
| Entities.ImageAndTextActAsBox | src/entity.rs:74-106 | An Image or Text entity moves and covers points exactly like a Box of the same size. |
| Entities.New | src/entity.rs:27-71 | The start lies in `[0, W - w) × [0, H - h)`, or `[0, W - r) × [0, H - r)` for a ball. Each velocity component is ±velocity, with a positive sign iff its sign draw is true. Color and shape are copied. |
| Entities.SpawnReachesEveryStart | src/entity.rs:30-67 | Every start in the legal range, with every sign choice, is produced by some random draw. |
| Entities.SpawnCanStartTrapped | src/entity.rs:30-47 | A new rectangle entity can start at x = 0 moving right. It is then back there with the same velocity after two frames. |
| Worlds.New | src/world.rs:45-59 | Width, height, world type and background color are copied from the configuration. There are exactly max(0, entity_count) entities, each with the configured shape and color, a legal start and the configured speed. |
| Worlds.Update | src/world.rs:62-67 | Entity i becomes exactly `Entities.Update` of entity i against the configured bounds. Count, order, shapes and colors are kept, and the world fields do not change. |
| Compositor.SampleHex | src/world.rs:27-42 | Sampling succeeds iff the path is loaded and the coordinate is inside the image; a missing path is MissingImage. The text encodes that pixel and decodes back to it. |
| Compositor.BackgroundHex | src/world.rs:88-104 | A plain world gives the background color. An image world gives the image pixel at (x, y) when `x <= width && y <= height`, and an error if the image does not hold that pixel. Otherwise it gives the background color. |
| Compositor.BackgroundNeedsOneMorePixel | src/world.rs:90-102 | The background of every coordinate (x, y), with x and y unbounded naturals, can be produced iff the declared width or height is negative, or the image has at least width+1 columns and height+1 rows. A 0×0 region still samples (0, 0). |
| Compositor.FrameBackgroundFits | src/world.rs:79-102 | In a frame of C columns and R rows, every pixel's background can be produced iff the declared width or height is negative, or the frame is empty, or the image has more than min(width, C-1) columns and more than min(height, R-1) rows. |
| Compositor.FullSizeBackgroundFits | src/world.rs:79-102 | An image of exactly width×height, in a frame of the same size, gives every frame pixel a background. |
| Compositor.OverlayEntity | src/world.rs:106-142 | An image entity covering the pixel is anchored here only if it had no anchor yet. No other entity, and no uncovered entity, changes the anchors. An entity that does not cover the pixel leaves the layer unchanged. A covering Box, Ball or Text entity replaces the color text and nothing else, so it keeps the occupied flag. On an occupied pixel no entity fails, the pixel stays occupied, and an image entity keeps the color. |
| Compositor.Overlays | src/world.rs:105-144 | The pass over all entities for one pixel, in index order, stopping at the first failure. Once the pixel is occupied the pass cannot fail and the pixel stays occupied. |
| Compositor.OnlyImagesFail | src/world.rs:105-144 | An overlay pass with no covering image entity always succeeds. |
| Compositor.PaintedPixelKeepsColor | src/world.rs:116-139 | Once an image has painted the pixel, later covering image entities neither fail nor change its color. The pixel stays occupied. |
| Compositor.SolidOverPaintedImageStays | src/world.rs:107-141 | If a Box, Ball or Text entity covers a pixel an image already painted, its color survives every later covering image entity. For entities [Image, Box, Image] the Box color stays. |
| Compositor.OverlaysExtendAnchors | src/world.rs:105-114 | One pixel's overlay pass keeps every existing anchor unchanged. It anchors at this pixel exactly the covering image entities that had none, and adds nothing else. |
| Compositor.UncoveredPixelKeepsLayer | src/world.rs:105-106 | When no entity covers the pixel, its color and state stay as the background left them. |
| Compositor.LastSolidEntityWins | src/world.rs:105-143 | A Box, Ball or Text entity covering the pixel, with no later entity covering it, determines the pixel's color text. |
| Compositor.OccupiedPixelIgnoresImage | src/world.rs:110-139 | On a pixel an image has painted, a later image entity changes nothing except recording its anchor. |
| Compositor.TransparentSampleKeepsColor | src/world.rs:116-132 | An image sample with alpha 0 leaves the previous color, background or earlier entity, and the pixel stays unoccupied. |
| Compositor.OpaqueSamplePaints | src/world.rs:116-136 | An image sample with non-zero alpha, taken at the pixel minus the anchor, becomes the pixel color and occupies the pixel. It decodes back to exactly that image pixel. |
| Compositor.UnreadableSampleFails | src/world.rs:118-128 | An image entity whose offset pixel is missing or outside its image stops the frame with an error. |
| Compositor.PixelStep | src/world.rs:79-150 | One pixel of the scan at column i % W and row i / W: background, then the overlay pass, then decoding. Its effect on the anchors is stated by PixelStepExtendsAnchors. RenderPixel states that its color is the frame's color at i. |
| Compositor.PixelStepExtendsAnchors | src/world.rs:79-114 | Pixel i is processed at (i % W, i / W), and its step extends the anchors as its overlay pass does. |
| Compositor.Render | src/world.rs:76-151 | A completed scan of n pixels has exactly one color per pixel. |
| Compositor.RenderPrefix | src/world.rs:79-151 | Scanning more pixels never changes the colors of the pixels already scanned. A successful longer scan implies every shorter scan succeeds. |
| Compositor.RenderPixel | src/world.rs:79-151 | In a successful scan, pixel p's color is what its own pixel step computes from the anchors recorded by pixels 0 to p-1. |
| Compositor.RenderAnchorsAreFirstHits | src/world.rs:76-125 | After n pixels, the anchor map holds exactly the image entities covering some scanned pixel. Each anchor is the row-major-first such pixel and is never overwritten. |
| Compositor.FirstHitIsClippedCorner | src/world.rs:111-125 | A rectangle entity's anchor is its top-left corner clipped to the frame, (max(0, x), max(0, y)). |
| Compositor.SampleOffsetInsideEntity | src/world.rs:118-128 | Every pixel an image entity covers lies at an offset from its anchor within [0, w) × [0, h), so an image as large as the entity is never read out of bounds. |
| Compositor.RenderErrorPersists | src/world.rs:146-149 | Once a pixel fails, the frame fails with that error whatever its length. |
| Compositor.EmptyColorWorld | src/world.rs:88-150 | With a plain background and no entities, the frame succeeds iff the background color decodes (or there are no pixels). Every pixel is then that color and no anchor is recorded. |
| Compositor.BoxScenePixels | src/world.rs:79-150 | In a 10×10 black world with one white 3×3 box at (2, 2), one pixel step gives opaque white for pixels (2,2)-(4,4) and opaque black for all others, whatever the anchors. |
| Compositor.BoxSceneFrame | src/world.rs:76-151 | A scan of that scene never fails, for any number of pixels. Each scanned pixel is white inside the box's square and black elsewhere. |
| Compositor.DrawBoxScene | src/world.rs:70-152 | Drawing that scene with rows 10 pixels wide succeeds. Pixels (2,2)-(4,4) get bytes ff ff ff ff and every other whole pixel gets 00 00 00 ff. |
| Compositor.Draw | src/world.rs:70-152 | The buffer holds len/4 whole pixels. On success, bytes 4p..4p+3 are the R, G, B, A of the rendered pixel p, and the trailing len % 4 bytes are untouched. Otherwise the first failing pixel's error is returned. |

## Left out

- `src/cli.rs` and `src/main.rs` are not part of this model. They hold argument dispatch, path checks, process exit, the window, the pixel surface and the event loop, which are host plumbing.
- `src/config.rs`, `src/save.rs` and `src/constants.rs` are not part of this model. They hold JSON/YAML load and save, save directories, timestamps and default constants, which are file I/O and foreign libraries. `Config` keeps only the fields the engine reads; the debug flag and engine version are dropped.
- The random generator's distribution is not modelled. `Entities.New` takes its draws as any naturals and booleans, which includes every `u32` value the source can draw.
- Image decoding is not modelled. An image is an abstract width, height and pixel function.
- Entities.Update: does not model 32-bit overflow of `position += velocity` or of `velocity *= -1` (at `i32::MIN`), because integers are unbounded here.
- Entities.IsWithinEntity: the ball test compares exact integer squared distance with the squared radius. The source computes `sqrt(d)` then squares it in `f64`, and for squared distances within `i32` range the rounding cannot change the strict comparison. Overflow of `pow(2)` is not modelled.
- Compositor.SampleHex: treats a negative sample coordinate as out of bounds. The source casts it to `u32`, which gives a value of at least 2^31, and that is beyond any image that can be loaded.
- Compositor.Draw: says nothing about the buffer contents when a pixel fails. The source panics at that point and the process ends.
- Compositor.Render: its own contract states only the number of colors. The color of each pixel is stated by `Compositor.RenderPixel` and `Compositor.RenderPrefix`, which keeps that unfolding out of the recursive function.
- Compositor.Draw: requires a positive configured world width.
  - A width of 0 makes the source's `i % width` (src/world.rs:81) panic.
  - A negative width is cast to a huge `usize`, which puts the whole frame on row 0. The model does not cover that case.
  - The window is sized from the configuration (src/main.rs:71-73). The pixel buffer is sized from the world's own width and height (src/main.rs:105-107).
- Entities.New: requires the world to be larger than the shape on both axes (`SpawnFits`).
  - When the two are equal, the source's `random % 0` panics (src/entity.rs:35-62).
  - When the world is smaller, the negative difference is cast to a huge `u32`, and the start is an unconstrained value after the cast back to `i32`. The model does not cover that case.
  - `Worlds.New` requires the same whenever it creates at least one entity.
- Colors.Decode: error positions and characters are counted in characters rather than UTF-8 bytes. Success and failure agree; only the reported error can differ for non-ASCII text.
