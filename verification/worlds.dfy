/**
 * The world: fixed dimensions, a background description and an ordered
 * sequence of entities. It is built once from the configuration and
 * advanced once per frame by updating every entity in order.
 */
module Worlds {
  import Entities

  /** The background: a plain color, or an image occupying a declared region at the world's origin. */
  datatype WorldType =
    | Color
    | Image(path: string, width: int, height: int)

  /** The configuration fields the engine reads. */
  datatype Config = Config(
    worldWidth: int,
    worldHeight: int,
    worldColor: string,
    worldType: WorldType,
    entityCount: int,
    entityColor: string,
    entityType: Entities.EntityType,
    entityVelocity: int)

  datatype World = World(
    width: int,
    height: int,
    worldType: WorldType,
    backgroundRgbaHex: string,
    entities: seq<Entities.Entity>)

  /** How many entities `0..entity_count` yields: none for a count below one. */
  function EntityCount(cfg: Config): nat {
    if cfg.entityCount > 0 then cfg.entityCount else 0
  }

  /** Entity creation is only reached when some entity is created, and then the shape must fit the world. */
  predicate CanSpawn(cfg: Config) {
    EntityCount(cfg) > 0 ==> Entities.SpawnFits(cfg.worldWidth, cfg.worldHeight, cfg.entityType)
  }

  /**
   * `World::new`: the world fields are copied from the configuration, and
   * one entity is created per draw, in order.
   */
  function New(cfg: Config, draws: seq<Entities.SpawnDraw>): (w: World)
    requires CanSpawn(cfg) && |draws| == EntityCount(cfg)
    ensures w.width == cfg.worldWidth && w.height == cfg.worldHeight
    ensures w.worldType == cfg.worldType && w.backgroundRgbaHex == cfg.worldColor
    ensures |w.entities| == EntityCount(cfg)
    ensures forall i :: 0 <= i < |w.entities| ==>
              && w.entities[i].entityType == cfg.entityType
              && w.entities[i].rgbaHex == cfg.entityColor
              && 0 <= w.entities[i].x < cfg.worldWidth - Entities.SpawnSpanX(cfg.entityType)
              && 0 <= w.entities[i].y < cfg.worldHeight - Entities.SpawnSpanY(cfg.entityType)
              && Entities.Abs(w.entities[i].vx) == Entities.Abs(cfg.entityVelocity)
              && Entities.Abs(w.entities[i].vy) == Entities.Abs(cfg.entityVelocity)
  {
    var n := EntityCount(cfg);
    World(
      cfg.worldWidth,
      cfg.worldHeight,
      cfg.worldType,
      cfg.worldColor,
      seq(n, i requires 0 <= i < n =>
        Entities.New(cfg.worldWidth, cfg.worldHeight, cfg.entityVelocity, cfg.entityColor, cfg.entityType, draws[i])))
  }

  /**
   * `World::update`: every entity takes exactly one step against the
   * configured world bounds, in order; nothing else in the world changes.
   */
  method Update(w: World, cfg: Config) returns (r: World)
    ensures r.width == w.width && r.height == w.height
    ensures r.worldType == w.worldType && r.backgroundRgbaHex == w.backgroundRgbaHex
    ensures |r.entities| == |w.entities|
    ensures forall i :: 0 <= i < |w.entities| ==>
              r.entities[i] == Entities.Update(w.entities[i], cfg.worldWidth, cfg.worldHeight)
    ensures forall i :: 0 <= i < |w.entities| ==>
              && r.entities[i].entityType == w.entities[i].entityType
              && r.entities[i].rgbaHex == w.entities[i].rgbaHex
              && Entities.Abs(r.entities[i].vx) == Entities.Abs(w.entities[i].vx)
              && Entities.Abs(r.entities[i].vy) == Entities.Abs(w.entities[i].vy)
  {
    var es := w.entities;
    var i := 0;
    while i < |es|
      invariant 0 <= i <= |es| == |w.entities|
      invariant forall j :: 0 <= j < i ==> es[j] == Entities.Update(w.entities[j], cfg.worldWidth, cfg.worldHeight)
      invariant forall j :: i <= j < |es| ==> es[j] == w.entities[j]
    {
      es := es[i := Entities.Update(es[i], cfg.worldWidth, cfg.worldHeight)];
      i := i + 1;
    }
    r := w.(entities := es);
  }
}
