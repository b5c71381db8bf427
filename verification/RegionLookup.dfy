/** Who sees whom (silkroad-agent/src/game/visibility.rs): entities are grouped by map region
    (silkroad-game-base/src/pos.rs) and looked up in the nine regions around the viewer
    (silkroad-navmesh/src/region.rs). Coordinates are reals. */
module RegionLookup {
  import opened Words

  const REGION_SIZE: real := 1920.0

  datatype Region = Region(x: u8, y: u8)

  /** The ground coordinates; the height plays no part. */
  datatype Position = Position(x: real, z: real)

  datatype Located = Located(id: int, position: Position)

  // ---------------------------------------------------------------- Regions

  /** `(v / 1920.) as u8`: cut towards zero and saturated. */
  function RegionCoord(v: real): u8 {
    var n := (v / REGION_SIZE).Floor;
    if n < 0 then 0 else if n > 255 then 255 else n
  }

  function RegionOf(p: Position): Region {
    Region(RegionCoord(p.x), RegionCoord(p.z))
  }

  /** The neighbours exist without wrapping around. */
  predicate Inner(r: Region) {
    1 <= r.x <= 254 && 1 <= r.y <= 254
  }

  function GridNeighbours(r: Region): seq<Region>
    requires Inner(r)
  {
    [Region(r.x - 1, r.y), r, Region(r.x + 1, r.y),
     Region(r.x - 1, r.y - 1), Region(r.x, r.y - 1), Region(r.x + 1, r.y - 1),
     Region(r.x - 1, r.y + 1), Region(r.x, r.y + 1), Region(r.x + 1, r.y + 1)]
  }

  function SquaredDistance(a: Position, b: Position): real {
    (a.x - b.x) * (a.x - b.x) + (a.z - b.z) * (a.z - b.z)
  }

  predicate InRadius(a: Position, b: Position, radius: real) {
    SquaredDistance(a, b) < radius * radius
  }

  lemma FloorBounds(v: real)
    ensures var n := (v / REGION_SIZE).Floor; n as real * REGION_SIZE <= v < (n as real + 1.0) * REGION_SIZE
  {
    var q := v / REGION_SIZE;
    assert q.Floor as real <= q < q.Floor as real + 1.0;
    assert q * REGION_SIZE == v;
  }

  /** Coordinates closer than a region are at most one region apart. */
  lemma CloseCoords(v: real, w: real)
    requires -REGION_SIZE < v - w < REGION_SIZE && 1 <= RegionCoord(v) <= 254
    ensures -1 <= RegionCoord(v) - RegionCoord(w) <= 1
  {
    FloorBounds(v);
    FloorBounds(w);
    var n, m := (v / REGION_SIZE).Floor, (w / REGION_SIZE).Floor;
    assert (m as real - n as real - 1.0) * REGION_SIZE < REGION_SIZE;
    assert (n as real - m as real - 1.0) * REGION_SIZE < REGION_SIZE;
    Scaled(m as real - n as real - 1.0);
    Scaled(n as real - m as real - 1.0);
    assert m as real - n as real < 2.0 && n as real - m as real < 2.0;
  }

  lemma Scaled(d: real)
    requires d * REGION_SIZE < REGION_SIZE
    ensures d < 1.0
  {
  }

  lemma SmallSquares(dx: real, dz: real, radius: real)
    requires dx * dx + dz * dz < radius * radius && 0.0 <= radius
    ensures -radius < dx < radius && -radius < dz < radius
  {
    SmallSquare(dx, dz, radius);
    SmallSquare(dz, dx, radius);
  }

  lemma SmallSquare(dx: real, dz: real, radius: real)
    requires dx * dx + dz * dz < radius * radius && 0.0 <= radius
    ensures -radius < dx < radius
  {
    assert dz * dz >= 0.0;
    var size := if dx < 0.0 then -dx else dx;
    assert size * size == dx * dx;
    if size >= radius {
      Squares(radius, size);
    }
  }

  lemma Squares(a: real, b: real)
    requires 0.0 <= a <= b
    ensures a * a <= b * b
  {
    assert b * b == a * a + (b - a) * (b - a) + 2.0 * a * (b - a);
  }

  /** Nothing within a radius of one region is outside the nine regions of an inner viewer. */
  lemma NeighboursCover(viewer: Position, other: Position, radius: real)
    requires Inner(RegionOf(viewer)) && 0.0 <= radius <= REGION_SIZE && InRadius(viewer, other, radius)
    ensures RegionOf(other) in GridNeighbours(RegionOf(viewer))
  {
    SmallSquares(viewer.x - other.x, viewer.z - other.z, radius);
    CloseCoords(viewer.x, other.x);
    CloseCoords(viewer.z, other.z);
    InGrid(RegionOf(viewer), RegionOf(other));
  }

  lemma InGrid(a: Region, b: Region)
    requires Inner(a) && -1 <= a.x - b.x <= 1 && -1 <= a.y - b.y <= 1
    ensures b in GridNeighbours(a)
  {
    var k := if b.y == a.y then b.x - a.x + 1 else if b.y < a.y then b.x - a.x + 4 else b.x - a.x + 7;
    assert GridNeighbours(a)[k] == b;
  }

  /** The nine regions are enough for every inner viewer exactly up to a radius of one region. */
  lemma RadiusLimit(radius: real)
    requires radius >= 0.0
    ensures (forall viewer: Position, other: Position {:trigger InRadius(viewer, other, radius)} ::
        Inner(RegionOf(viewer)) && InRadius(viewer, other, radius) ==> RegionOf(other) in GridNeighbours(RegionOf(viewer)))
      <==> radius <= REGION_SIZE
  {
    if radius <= REGION_SIZE {
      forall viewer: Position, other: Position | Inner(RegionOf(viewer)) && InRadius(viewer, other, radius)
        ensures RegionOf(other) in GridNeighbours(RegionOf(viewer))
      {
        NeighboursCover(viewer, other, radius);
      }
    } else {
      MissedNeighbour(radius);
    }
  }

  lemma MissedNeighbour(radius: real)
    requires radius > REGION_SIZE
    ensures exists viewer: Position, other: Position {:trigger InRadius(viewer, other, radius)} ::
      Inner(RegionOf(viewer)) && InRadius(viewer, other, radius) && RegionOf(other) !in GridNeighbours(RegionOf(viewer))
  {
    var step := if radius - REGION_SIZE < REGION_SIZE then (radius - REGION_SIZE) / 2.0 else REGION_SIZE / 2.0;
    var viewer, other := Position(3840.0 - step, 1920.0), Position(5760.0, 1920.0);
    assert (viewer.x / REGION_SIZE).Floor == 1 && (other.x / REGION_SIZE).Floor == 3 && (viewer.z / REGION_SIZE).Floor == 1;
    var d := REGION_SIZE + step;
    assert viewer.x - other.x == -d && d < radius;
    assert SquaredDistance(viewer, other) == d * d;
    assert d * d < radius * radius by {
      Squares(d, radius);
      assert radius * radius - d * d == (radius - d) * (radius + d);
      Positive(radius - d, radius + d);
    }
    assert InRadius(viewer, other, radius);
  }

  lemma Positive(a: real, b: real)
    requires a > 0.0 && b > 0.0
    ensures a * b > 0.0
  {
  }

  // ---------------------------------------------------------------- The lookup

  type Groups = map<Region, seq<Located>>

  /** Every entity is in the group of its region and nowhere else. */
  ghost predicate Grouped(groups: Groups, entities: seq<Located>) {
    && (forall e <- entities :: RegionOf(e.position) in groups && e in groups[RegionOf(e.position)])
    && (forall r <- groups :: forall e <- groups[r] :: e in entities && RegionOf(e.position) == r)
  }

  /** The fold that groups all positioned entities. */
  method GroupByRegion(entities: seq<Located>) returns (groups: Groups)
    ensures Grouped(groups, entities)
  {
    groups := map[];
    for i := 0 to |entities|
      invariant Grouped(groups, entities[..i])
    {
      var e := entities[i];
      var r := RegionOf(e.position);
      var group := if r in groups then groups[r] else [];
      groups := groups[r := group + [e]];
      assert entities[..i + 1] == entities[..i] + [e];
    }
    assert entities[..|entities|] == entities;
  }

  /** The ids of the other entities within the radius, by testing every one of them. */
  ghost function Within(entities: seq<Located>, viewer: Located, radius: real): set<int> {
    set e | e in entities && e.id != viewer.id && InRadius(viewer.position, e.position, radius) :: e.id
  }

  /** The lookup of `visibility_update` agrees with the test of every entity. */
  method EntitiesInRange(groups: Groups, ghost entities: seq<Located>, viewer: Located, radius: real)
    returns (found: set<int>)
    requires Grouped(groups, entities) && Inner(RegionOf(viewer.position)) && 0.0 <= radius <= REGION_SIZE
    ensures found == Within(entities, viewer, radius)
  {
    var close := GridNeighbours(RegionOf(viewer.position));
    found := {};
    for i := 0 to |close|
      invariant found <= Within(entities, viewer, radius)
      invariant forall e | e in entities && RegionOf(e.position) in close[..i] && e.id != viewer.id
        && InRadius(viewer.position, e.position, radius) :: e.id in found
    {
      var group := if close[i] in groups then groups[close[i]] else [];
      var more := set e | e in group && e.id != viewer.id && InRadius(viewer.position, e.position, radius) :: e.id;
      assert close[..i + 1] == close[..i] + [close[i]];
      found := found + more;
    }
    assert close[..|close|] == close;
    forall e | e in entities && e.id != viewer.id && InRadius(viewer.position, e.position, radius) ensures e.id in found {
      NeighboursCover(viewer.position, e.position, radius);
    }
  }

  /** The nine regions are those at most one apart in either direction. */
  lemma NeighboursExactly(r: Region, other: Region)
    requires Inner(r)
    ensures |GridNeighbours(r)| == 9
    ensures other in GridNeighbours(r) <==> -1 <= other.x - r.x <= 1 && -1 <= other.y - r.y <= 1
  {
    OneOfNine(GridNeighbours(r), other);
  }

  lemma OneOfNine(all: seq<Region>, other: Region)
    requires |all| == 9
    ensures other in all <==>
      other == all[0] || other == all[1] || other == all[2] || other == all[3] || other == all[4]
      || other == all[5] || other == all[6] || other == all[7] || other == all[8]
  {
  }

  /** What is found: whoever else stands strictly nearer on the ground than the radius. */
  lemma WithinExactly(entities: seq<Located>, viewer: Located, radius: real, id: int)
    ensures id in Within(entities, viewer, radius) <==>
      exists e <- entities :: Nearer(viewer, e, radius) && e.id == id
  {
  }

  predicate Nearer(viewer: Located, e: Located, radius: real) {
    var dx, dz := viewer.position.x - e.position.x, viewer.position.z - e.position.z;
    e.id != viewer.id && dx * dx + dz * dz < radius * radius
  }

  /** On the map, the region of a position is the square it stands in. */
  lemma RegionHolds(p: Position)
    requires 0.0 <= p.x < 256.0 * 1920.0 && 0.0 <= p.z < 256.0 * 1920.0
    ensures var r := RegionOf(p);
      && r.x as real * 1920.0 <= p.x < (r.x as real + 1.0) * 1920.0
      && r.y as real * 1920.0 <= p.z < (r.y as real + 1.0) * 1920.0
  {
    CoordHolds(p.x);
    CoordHolds(p.z);
  }

  lemma CoordHolds(v: real)
    requires 0.0 <= v < 256.0 * 1920.0
    ensures RegionCoord(v) as real * 1920.0 <= v < (RegionCoord(v) as real + 1.0) * 1920.0
  {
    FloorBounds(v);
    var n := (v / REGION_SIZE).Floor;
    assert n <= 255 by {
      assert v / REGION_SIZE < 256.0;
    }
    assert n >= 0;
  }
}
