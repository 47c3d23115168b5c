/** The axis-aligned bounding boxes of MtMesh.GetBoundingBox and MtModel.GetBoundingBox:
    a min/max scan over vertex positions whose six accumulators all start at 0. */
module Boxes {
  import opened Wrappers
  import opened Numerics
  import Vertices

  /** System.Windows.Media.Media3D.Rect3D: a location and a size per axis. The location is the
      box's minimum corner, so on every axis a Rect3D spans location .. location + size. */
  datatype Rect3D = Rect3D(x: real, y: real, z: real, sizeX: real, sizeY: real, sizeZ: real)

  datatype Axis = X | Y | Z

  function Component(p: Vector3, a: Axis): real
  {
    match a
    case X => p.x
    case Y => p.y
    case Z => p.z
  }

  /** One step of the scan: lowers the minimum to c when c is below it. */
  function MinStep(m: real, c: real): real
  {
    if m > c then c else m
  }

  /** One step of the scan: raises the maximum to c when c is above it. */
  function MaxStep(m: real, c: real): real
  {
    if m < c then c else m
  }

  /** The minimum a left-to-right scan finds when its accumulator starts at 0. */
  function Lowest(cs: seq<real>): real
  {
    if |cs| == 0 then 0.0 else MinStep(Lowest(cs[..|cs| - 1]), cs[|cs| - 1])
  }

  /** The maximum a left-to-right scan finds when its accumulator starts at 0. */
  function Highest(cs: seq<real>): real
  {
    if |cs| == 0 then 0.0 else MaxStep(Highest(cs[..|cs| - 1]), cs[|cs| - 1])
  }

  /** The scanned minimum is never above 0, never above any element, and is either 0 or one
      of the elements. */
  lemma {:induction false} LowestIsLeast(cs: seq<real>)
    ensures Lowest(cs) <= 0.0
    ensures forall i :: 0 <= i < |cs| ==> Lowest(cs) <= cs[i]
    ensures Lowest(cs) == 0.0 || exists i :: 0 <= i < |cs| && cs[i] == Lowest(cs)
  {
    if |cs| > 0 {
      var init := cs[..|cs| - 1];
      LowestIsLeast(init);
      assert forall i :: 0 <= i < |init| ==> init[i] == cs[i];
    }
  }

  /** The scanned maximum is never below 0, never below any element, and is either 0 or one
      of the elements. */
  lemma {:induction false} HighestIsGreatest(cs: seq<real>)
    ensures Highest(cs) >= 0.0
    ensures forall i :: 0 <= i < |cs| ==> cs[i] <= Highest(cs)
    ensures Highest(cs) == 0.0 || exists i :: 0 <= i < |cs| && cs[i] == Highest(cs)
  {
    if |cs| > 0 {
      var init := cs[..|cs| - 1];
      HighestIsGreatest(init);
      assert forall i :: 0 <= i < |init| ==> init[i] == cs[i];
    }
  }

  lemma LowestSnoc(cs: seq<real>, c: real)
    ensures Lowest(cs + [c]) == MinStep(Lowest(cs), c)
  {
    assert (cs + [c])[..|cs|] == cs;
  }

  lemma HighestSnoc(cs: seq<real>, c: real)
    ensures Highest(cs + [c]) == MaxStep(Highest(cs), c)
  {
    assert (cs + [c])[..|cs|] == cs;
  }

  function Coords(ps: seq<Vector3>, a: Axis): (cs: seq<real>)
    ensures |cs| == |ps| && forall i :: 0 <= i < |ps| ==> cs[i] == Component(ps[i], a)
  {
    seq(|ps|, i requires 0 <= i < |ps| => Component(ps[i], a))
  }

  lemma CoordsSnoc(ps: seq<Vector3>, p: Vector3, a: Axis)
    ensures Coords(ps + [p], a) == Coords(ps, a) + [Component(p, a)]
  {
  }

  /** One more position steps both accumulators of an axis once. */
  lemma ScanSnoc(ps: seq<Vector3>, p: Vector3, a: Axis)
    ensures Lowest(Coords(ps + [p], a)) == MinStep(Lowest(Coords(ps, a)), Component(p, a))
    ensures Highest(Coords(ps + [p], a)) == MaxStep(Highest(Coords(ps, a)), Component(p, a))
  {
    CoordsSnoc(ps, p, a);
    LowestSnoc(Coords(ps, a), Component(p, a));
    HighestSnoc(Coords(ps, a), Component(p, a));
  }

  /** Extending the scanned prefix by one position steps both accumulators of an axis once. */
  lemma ScanStep(ps: seq<Vector3>, i: nat, a: Axis)
    requires i < |ps|
    ensures Lowest(Coords(ps[..i + 1], a)) == MinStep(Lowest(Coords(ps[..i], a)), Component(ps[i], a))
    ensures Highest(Coords(ps[..i + 1], a)) == MaxStep(Highest(Coords(ps[..i], a)), Component(ps[i], a))
  {
    assert ps[..i + 1] == ps[..i] + [ps[i]];
    ScanSnoc(ps[..i], ps[i], a);
  }

  /** The six accumulators of the scan hold the extremes of ps on every axis. */
  predicate ScanIs(minX: real, minY: real, minZ: real, maxX: real, maxY: real, maxZ: real, ps: seq<Vector3>)
  {
    && minX == Lowest(Coords(ps, X)) && minY == Lowest(Coords(ps, Y)) && minZ == Lowest(Coords(ps, Z))
    && maxX == Highest(Coords(ps, X)) && maxY == Highest(Coords(ps, Y)) && maxZ == Highest(Coords(ps, Z))
  }

  /** One vertex of the scan: each accumulator takes one MinStep or MaxStep. */
  lemma ScanIsStep(minX: real, minY: real, minZ: real, maxX: real, maxY: real, maxZ: real, ps: seq<Vector3>, p: Vector3)
    requires ScanIs(minX, minY, minZ, maxX, maxY, maxZ, ps)
    ensures ScanIs(MinStep(minX, p.x), MinStep(minY, p.y), MinStep(minZ, p.z),
                   MaxStep(maxX, p.x), MaxStep(maxY, p.y), MaxStep(maxZ, p.z), ps + [p])
  {
    ScanSnoc(ps, p, X);
    ScanSnoc(ps, p, Y);
    ScanSnoc(ps, p, Z);
  }

  /** The box the scan builds from its final accumulators: size first, then the location offset
      from the origin. */
  lemma ScanGivesBoundingBox(minX: real, minY: real, minZ: real, maxX: real, maxY: real, maxZ: real, ps: seq<Vector3>)
    requires ScanIs(minX, minY, minZ, maxX, maxY, maxZ, ps)
    ensures var sized := Rect3D(0.0, 0.0, 0.0, maxX - minX, maxY - minY, maxZ - minZ);
      Offset(sized, maxX - sized.sizeX / 2.0, maxY - sized.sizeY / 2.0, maxZ - sized.sizeZ / 2.0) == BoundingBox(ps)
  {
  }

  /** Rect3D.Offset: moves the location by the given amounts. */
  function Offset(box: Rect3D, dx: real, dy: real, dz: real): (r: Rect3D)
    ensures r.sizeX == box.sizeX && r.sizeY == box.sizeY && r.sizeZ == box.sizeZ
    ensures r.x - box.x == dx && r.y - box.y == dy && r.z - box.z == dz
  {
    box.(x := box.x + dx, y := box.y + dy, z := box.z + dz)
  }

  /** The reads of AbsolutePosition.Value succeed only when every position is present. */
  predicate AllPositioned(vs: seq<Vertices.Vertex>)
  {
    forall i :: 0 <= i < |vs| ==> vs[i].absolutePosition.Some?
  }

  function Positions(vs: seq<Vertices.Vertex>): (ps: seq<Vector3>)
    requires AllPositioned(vs)
    ensures |ps| == |vs| && forall i :: 0 <= i < |vs| ==> Some(ps[i]) == vs[i].absolutePosition
  {
    seq(|vs|, i requires 0 <= i < |vs| => vs[i].absolutePosition.value)
  }

  lemma PositionsAppend(vs: seq<Vertices.Vertex>, ws: seq<Vertices.Vertex>)
    requires AllPositioned(vs) && AllPositioned(ws)
    ensures AllPositioned(vs + ws) && Positions(vs + ws) == Positions(vs) + Positions(ws)
  {
  }

  /** The box built from the final accumulators, as written: size = max - min, and location =
      max - size / 2 on every axis. */
  function BoxOf(lo: Vector3, hi: Vector3): Rect3D
  {
    Rect3D(hi.x - (hi.x - lo.x) / 2.0, hi.y - (hi.y - lo.y) / 2.0, hi.z - (hi.z - lo.z) / 2.0,
           hi.x - lo.x, hi.y - lo.y, hi.z - lo.z)
  }

  function Low(ps: seq<Vector3>): Vector3
  {
    Vector3(Lowest(Coords(ps, X)), Lowest(Coords(ps, Y)), Lowest(Coords(ps, Z)))
  }

  function High(ps: seq<Vector3>): Vector3
  {
    Vector3(Highest(Coords(ps, X)), Highest(Coords(ps, Y)), Highest(Coords(ps, Z)))
  }

  /** The sizes are the extents of the scanned range and the location lies halfway between the
      extremes. Since a Rect3D's location is its minimum corner, such a box spans
      midpoint .. midpoint + size: it is the range between the extremes shifted up by half its size. */
  predicate LocatedAtMidpoint(box: Rect3D, lo: Vector3, hi: Vector3)
  {
    && box.sizeX == hi.x - lo.x && box.sizeY == hi.y - lo.y && box.sizeZ == hi.z - lo.z
    && box.x == (lo.x + hi.x) / 2.0 && box.y == (lo.y + hi.y) / 2.0 && box.z == (lo.z + hi.z) / 2.0
  }

  predicate Contains(lo: Vector3, hi: Vector3, p: Vector3)
  {
    lo.x <= p.x <= hi.x && lo.y <= p.y <= hi.y && lo.z <= p.z <= hi.z
  }

  /** The bounding box of a list of positions, from the scanned extremes. */
  function BoundingBox(ps: seq<Vector3>): Rect3D
  {
    BoxOf(Low(ps), High(ps))
  }

  /** The bounding box has no negative size, its sizes are the extents of the scanned range and
      its location is the midpoint of the extremes. The range between the extremes contains the
      origin and every position, and each extreme is 0 or reached by some position. No positions
      give the zero box at the origin. */
  lemma BoundingBoxBounds(ps: seq<Vector3>)
    ensures var box := BoundingBox(ps);
      && box.sizeX >= 0.0 && box.sizeY >= 0.0 && box.sizeZ >= 0.0
      && LocatedAtMidpoint(box, Low(ps), High(ps))
      && Contains(Low(ps), High(ps), Vector3(0.0, 0.0, 0.0))
      && (forall i :: 0 <= i < |ps| ==> Contains(Low(ps), High(ps), ps[i]))
      && (|ps| == 0 ==> box == Rect3D(0.0, 0.0, 0.0, 0.0, 0.0, 0.0))
    ensures forall a: Axis :: Lowest(Coords(ps, a)) == 0.0 || exists i :: 0 <= i < |ps| && Component(ps[i], a) == Lowest(Coords(ps, a))
    ensures forall a: Axis :: Highest(Coords(ps, a)) == 0.0 || exists i :: 0 <= i < |ps| && Component(ps[i], a) == Highest(Coords(ps, a))
  {
    forall a: Axis
      ensures Lowest(Coords(ps, a)) <= 0.0 <= Highest(Coords(ps, a))
      ensures forall i :: 0 <= i < |ps| ==> Lowest(Coords(ps, a)) <= Component(ps[i], a) <= Highest(Coords(ps, a))
      ensures Lowest(Coords(ps, a)) == 0.0 || exists i :: 0 <= i < |ps| && Component(ps[i], a) == Lowest(Coords(ps, a))
      ensures Highest(Coords(ps, a)) == 0.0 || exists i :: 0 <= i < |ps| && Component(ps[i], a) == Highest(Coords(ps, a))
    {
      LowestIsLeast(Coords(ps, a));
      HighestIsGreatest(Coords(ps, a));
    }
    assert forall i :: 0 <= i < |ps| ==> Component(ps[i], X) == ps[i].x && Component(ps[i], Y) == ps[i].y && Component(ps[i], Z) == ps[i].z;
  }

  /** The corner of a Rect3D at the midpoint of the extremes leaves positions out: one vertex at
      (-2, 0, 0) gives the box at (-1, 0, 0) of size (2, 0, 0), which spans -1 .. 1 on x and so
      excludes the vertex itself. */
  lemma {:induction false} CornerBoxMissesVertex()
    ensures var ps := [Vector3(-2.0, 0.0, 0.0)];
      && BoundingBox(ps) == Rect3D(-1.0, 0.0, 0.0, 2.0, 0.0, 0.0)
      && !(BoundingBox(ps).x <= ps[0].x <= BoundingBox(ps).x + BoundingBox(ps).sizeX)
  {
    ScanOne(Vector3(-2.0, 0.0, 0.0));
  }

  /** The extremes the scan finds for a single position. */
  lemma ScanOne(p: Vector3)
    ensures Low([p]) == Vector3(MinStep(0.0, p.x), MinStep(0.0, p.y), MinStep(0.0, p.z))
    ensures High([p]) == Vector3(MaxStep(0.0, p.x), MaxStep(0.0, p.y), MaxStep(0.0, p.z))
  {
    ScanSnoc([], p, X);
    ScanSnoc([], p, Y);
    ScanSnoc([], p, Z);
    assert [] + [p] == [p];
  }

  /** Read as a Rect3D, the box spans midpoint .. midpoint + size on every axis; on the x axis any
      position below the midpoint of the extremes lies outside it. */
  lemma CornerBoxExcludesLowerHalf(ps: seq<Vector3>, i: nat)
    requires i < |ps| && ps[i].x < (Low(ps).x + High(ps).x) / 2.0
    ensures var box := BoundingBox(ps);
      box.x == (Low(ps).x + High(ps).x) / 2.0 && !(box.x <= ps[i].x <= box.x + box.sizeX)
  {
  }
}
