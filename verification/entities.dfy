/**
 * Entities: shapes that bounce around the world. An entity has a position,
 * a velocity, a fixed color text and a shape chosen at creation. Each
 * frame it reflects a velocity component when its footprint touches or
 * crosses 0, or overhangs the upper bound, on that axis, and then moves by
 * its (possibly reflected) velocity. A footprint flush with the upper bound
 * is not reflected until it overhangs it.
 */
module Entities {

  /** The closed set of shapes. Image and Text footprints are width-by-height rectangles, like Box. */
  datatype EntityType =
    | Box(width: int, height: int)
    | Ball(radius: int)
    | Image(path: string, width: int, height: int)
    | Text(width: int, height: int)

  datatype Entity = Entity(
    x: int,
    y: int,
    vx: int,
    vy: int,
    rgbaHex: string,
    entityType: EntityType)

  /** The random values one entity's creation draws, in the order it draws them. */
  datatype SpawnDraw = SpawnDraw(xRandom: nat, yRandom: nat, xPositive: bool, yPositive: bool)

  function Abs(n: int): nat {
    if n < 0 then -n else n
  }

  function Sq(n: int): nat {
    n * n
  }

  /**
   * How far a footprint reaches along one axis around the entity's position:
   * it covers positions from `position - before` up to `position + after`.
   */
  datatype Extent = Extent(before: int, after: int)

  function XExtent(t: EntityType): Extent {
    match t
    case Box(w, _) => Extent(0, w)
    case Ball(r) => Extent(r, r)
    case Image(_, w, _) => Extent(0, w)
    case Text(w, _) => Extent(0, w)
  }

  function YExtent(t: EntityType): Extent {
    match t
    case Box(_, h) => Extent(0, h)
    case Ball(r) => Extent(r, r)
    case Image(_, _, h) => Extent(0, h)
    case Text(_, h) => Extent(0, h)
  }

  /** A footprint at `p` touches or crosses the lower bound 0 or overhangs the upper bound. */
  predicate HitsWall(p: int, e: Extent, bound: int) {
    p - e.before <= 0 || p + e.after > bound
  }

  // ---------------------------------------------------------------------
  // Motion

  function WidthAndHeightBounce(e: Entity, w: int, h: int, worldWidth: int, worldHeight: int): Entity {
    var vx := if e.x <= 0 || e.x + w > worldWidth then -e.vx else e.vx;
    var vy := if e.y <= 0 || e.y + h > worldHeight then -e.vy else e.vy;
    e.(x := e.x + vx, y := e.y + vy, vx := vx, vy := vy)
  }

  function RadiusBounce(e: Entity, r: int, worldWidth: int, worldHeight: int): Entity {
    var vx := if e.x - r <= 0 || e.x + r > worldWidth then -e.vx else e.vx;
    var vy := if e.y - r <= 0 || e.y + r > worldHeight then -e.vy else e.vy;
    e.(x := e.x + vx, y := e.y + vy, vx := vx, vy := vy)
  }

  /**
   * One frame of motion. Each axis is handled on its own: the velocity is
   * negated when the footprint touches or crosses 0, or overhangs the upper
   * bound, on that axis, and the position then advances by the new velocity. Speeds, color and shape
   * never change.
   */
  function Update(e: Entity, worldWidth: int, worldHeight: int): (r: Entity)
    ensures r.vx == (if HitsWall(e.x, XExtent(e.entityType), worldWidth) then -e.vx else e.vx)
    ensures r.vy == (if HitsWall(e.y, YExtent(e.entityType), worldHeight) then -e.vy else e.vy)
    ensures r.x == e.x + r.vx && r.y == e.y + r.vy
    ensures Abs(r.vx) == Abs(e.vx) && Abs(r.vy) == Abs(e.vy)
    ensures r.rgbaHex == e.rgbaHex && r.entityType == e.entityType
  {
    match e.entityType
    case Box(w, h) => WidthAndHeightBounce(e, w, h, worldWidth, worldHeight)
    case Ball(r) => RadiusBounce(e, r, worldWidth, worldHeight)
    case Image(_, w, h) => WidthAndHeightBounce(e, w, h, worldWidth, worldHeight)
    case Text(w, h) => WidthAndHeightBounce(e, w, h, worldWidth, worldHeight)
  }

  /** The entity after `n` frames. */
  function Steps(e: Entity, worldWidth: int, worldHeight: int, n: nat): Entity {
    if n == 0 then e else Update(Steps(e, worldWidth, worldHeight, n - 1), worldWidth, worldHeight)
  }

  /** A box at the left wall moving left is turned around and moved in the same frame. */
  lemma BounceOffLeftWall(e: Entity, worldHeight: int)
    requires e.entityType.Box?
    requires e.x == 0 && e.vx == -3
    ensures Update(e, 10, worldHeight).vx == 3 && Update(e, 10, worldHeight).x == 3
  {
  }

  /**
   * The reflection negates rather than pointing inward, so an entity whose
   * footprint touches the left bound while it moves right is turned back out
   * on every frame: every two frames it is back where it started, with the
   * same velocity, and it never leaves the wall.
   */
  lemma {:induction false} LeftWallTrap(e: Entity, worldWidth: int, worldHeight: int, n: nat)
    requires e.vx > 0 && e.x - XExtent(e.entityType).before <= 0
    ensures Steps(e, worldWidth, worldHeight, 2 * n).x == e.x
    ensures Steps(e, worldWidth, worldHeight, 2 * n).vx == e.vx
    ensures Steps(e, worldWidth, worldHeight, 2 * n + 1).x == e.x - e.vx
    ensures Steps(e, worldWidth, worldHeight, 2 * n).entityType == e.entityType
  {
    if n > 0 {
      LeftWallTrap(e, worldWidth, worldHeight, n - 1);
      assert 2 * n - 1 == 2 * (n - 1) + 1;
    }
  }

  /**
   * The right bound is not reflected on contact: a rectangle flush with it
   * and moving right keeps its velocity for one frame, overhangs, and is
   * reflected on the next frame.
   */
  lemma FlushRightWallOvershoots(e: Entity, worldWidth: int, worldHeight: int)
    requires !e.entityType.Ball? && e.x > 0 && e.vx > 0
    requires e.x + XExtent(e.entityType).after == worldWidth
    ensures Steps(e, worldWidth, worldHeight, 1).vx == e.vx
    ensures Steps(e, worldWidth, worldHeight, 1).x + XExtent(e.entityType).after > worldWidth
    ensures Steps(e, worldWidth, worldHeight, 2).vx == -e.vx
  {
    assert Steps(e, worldWidth, worldHeight, 0) == e;
    var e1 := Steps(e, worldWidth, worldHeight, 1);
    assert e1 == Update(e, worldWidth, worldHeight);
    assert Steps(e, worldWidth, worldHeight, 2) == Update(e1, worldWidth, worldHeight);
  }

  // ---------------------------------------------------------------------
  // Containment

  function IsWithinWidthAndHeight(e: Entity, x: int, y: int, w: int, h: int): bool {
    x >= e.x && x < e.x + w && y >= e.y && y < e.y + h
  }

  /** Exact integer form of Bouncy-World's squared-distance comparison. */
  function IsWithinRadius(e: Entity, x: int, y: int, r: int): bool {
    var dx := x - e.x;
    var dy := y - e.y;
    dx * dx + dy * dy < r * r
  }

  /**
   * Whether the footprint covers the point. Rectangles are half-open on both
   * axes; a ball holds the points strictly closer to its center than its radius.
   */
  function IsWithinEntity(e: Entity, x: int, y: int): (b: bool)
    ensures !e.entityType.Ball? ==>
      (b <==> e.x <= x < e.x + XExtent(e.entityType).after && e.y <= y < e.y + YExtent(e.entityType).after)
    ensures e.entityType.Ball? ==>
      (b <==> Sq(x - e.x) + Sq(y - e.y) < Sq(e.entityType.radius))
  {
    match e.entityType
    case Box(w, h) => IsWithinWidthAndHeight(e, x, y, w, h)
    case Ball(r) => IsWithinRadius(e, x, y, r)
    case Image(_, w, h) => IsWithinWidthAndHeight(e, x, y, w, h)
    case Text(w, h) => IsWithinWidthAndHeight(e, x, y, w, h)
  }

  /** The right and bottom edges of a rectangle footprint lie outside it; the top-left corner is inside a non-empty one. */
  lemma RectangleEdges(e: Entity, x: int, y: int)
    requires !e.entityType.Ball?
    ensures !IsWithinEntity(e, e.x + XExtent(e.entityType).after, y)
    ensures !IsWithinEntity(e, x, e.y + YExtent(e.entityType).after)
    ensures IsWithinEntity(e, e.x, e.y) <==> XExtent(e.entityType).after > 0 && YExtent(e.entityType).after > 0
  {
  }

  /** A point exactly one radius from a ball's center is outside it; one step nearer is inside. */
  lemma BallRimExcluded(e: Entity)
    requires e.entityType.Ball? && e.entityType.radius >= 1
    ensures !IsWithinEntity(e, e.x + e.entityType.radius, e.y)
    ensures !IsWithinEntity(e, e.x, e.y - e.entityType.radius)
    ensures IsWithinEntity(e, e.x + e.entityType.radius - 1, e.y)
  {
    var r := e.entityType.radius;
    assert Sq(r - 1) < Sq(r);
  }

  /** Image and Text entities move and cover points exactly as a Box of the same size. */
  lemma ImageAndTextActAsBox(e: Entity, worldWidth: int, worldHeight: int, x: int, y: int)
    requires e.entityType.Image? || e.entityType.Text?
    ensures var asBox := e.(entityType := Box(e.entityType.width, e.entityType.height));
      && Update(e, worldWidth, worldHeight) == Update(asBox, worldWidth, worldHeight).(entityType := e.entityType)
      && IsWithinEntity(e, x, y) == IsWithinEntity(asBox, x, y)
  {
  }

  // ---------------------------------------------------------------------
  // Creation

  /** The span each axis's random start is reduced by: the footprint's size, or the radius for a ball. */
  function SpawnSpanX(t: EntityType): int {
    match t
    case Box(w, _) => w
    case Ball(r) => r
    case Image(_, w, _) => w
    case Text(w, _) => w
  }

  function SpawnSpanY(t: EntityType): int {
    match t
    case Box(_, h) => h
    case Ball(r) => r
    case Image(_, _, h) => h
    case Text(_, h) => h
  }

  /** The world is larger than the shape on both axes, so the random start has a non-empty range. */
  predicate SpawnFits(worldWidth: int, worldHeight: int, t: EntityType) {
    worldWidth > SpawnSpanX(t) && worldHeight > SpawnSpanY(t)
  }

  /**
   * `Entity::new`: the start on each axis is a random draw reduced modulo the
   * room left by the shape, and each velocity component is the configured
   * speed with a randomly chosen sign.
   */
  function New(worldWidth: int, worldHeight: int, velocity: int, color: string, t: EntityType, d: SpawnDraw): (e: Entity)
    requires SpawnFits(worldWidth, worldHeight, t)
    ensures 0 <= e.x < worldWidth - SpawnSpanX(t) && 0 <= e.y < worldHeight - SpawnSpanY(t)
    ensures Abs(e.vx) == Abs(velocity) && Abs(e.vy) == Abs(velocity)
    ensures velocity != 0 ==> (e.vx == velocity <==> d.xPositive) && (e.vy == velocity <==> d.yPositive)
    ensures e.rgbaHex == color && e.entityType == t
  {
    Entity(
      d.xRandom % (worldWidth - SpawnSpanX(t)),
      d.yRandom % (worldHeight - SpawnSpanY(t)),
      velocity * (if d.xPositive then 1 else -1),
      velocity * (if d.yPositive then 1 else -1),
      color,
      t)
  }

  /** Every start inside the legal range, with every sign choice, is produced by some draw. */
  lemma SpawnReachesEveryStart(worldWidth: int, worldHeight: int, velocity: int, color: string, t: EntityType,
                               x: int, y: int, xPositive: bool, yPositive: bool)
    requires SpawnFits(worldWidth, worldHeight, t)
    requires 0 <= x < worldWidth - SpawnSpanX(t) && 0 <= y < worldHeight - SpawnSpanY(t)
    ensures exists d: SpawnDraw ::
              && d.xPositive == xPositive && d.yPositive == yPositive
              && New(worldWidth, worldHeight, velocity, color, t, d).x == x
              && New(worldWidth, worldHeight, velocity, color, t, d).y == y
  {
    var d := SpawnDraw(x, y, xPositive, yPositive);
    assert New(worldWidth, worldHeight, velocity, color, t, d).x == x;
  }

  /** A fresh rectangle entity can start at the left wall moving right, where it is trapped. */
  lemma SpawnCanStartTrapped(worldWidth: int, worldHeight: int, velocity: int, color: string, t: EntityType, d: SpawnDraw)
    requires SpawnFits(worldWidth, worldHeight, t) && !t.Ball? && velocity > 0
    requires d.xRandom == 0 && d.xPositive
    ensures var e := New(worldWidth, worldHeight, velocity, color, t, d);
      e.x == 0 && Steps(e, worldWidth, worldHeight, 2).x == 0 && Steps(e, worldWidth, worldHeight, 2).vx == velocity
  {
    var e := New(worldWidth, worldHeight, velocity, color, t, d);
    LeftWallTrap(e, worldWidth, worldHeight, 1);
  }
}
