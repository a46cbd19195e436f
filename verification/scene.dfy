/** The triangle scene: three draggable vertices in a fixed cyclic order, the
    routing of pointer input to them, and the per-frame draw list with the
    angle trisectors and the polygons they form. */
module Scene {
  import opened Options
  import opened Points
  import opened Rotation
  import opened Render
  import opened Nodes
  import opened Angles

  /** A triangle is exactly three nodes; their order fixes the neighbour
      relation and never changes. */
  type Triangle = s: seq<Node> | |s| == 3
    witness [NewNode(300, 100), NewNode(700, 400), NewNode(100, 400)]

  /** The scene at start-up. */
  function Initial(): (t: Triangle)
    ensures forall i :: 0 <= i < 3 ==> t[i].grab.Free? && t[i].size == NodeSize
    ensures t[0].topLeft == Point(300, 100) && t[1].topLeft == Point(700, 400)
    ensures t[2].topLeft == Point(100, 400)
  {
    [NewNode(300, 100), NewNode(700, 400), NewNode(100, 400)]
  }

  /** Neighbour indices of vertex `i`, cyclically. */
  function Prev(i: int): (j: nat)
    ensures j < 3 && (j + 1) % 3 == i % 3
  {
    (i - 1) % 3
  }

  function Next(i: int): (j: nat)
    ensures j < 3 && Prev(j) == i % 3
  {
    (i + 1) % 3
  }

  // ----- Input dispatch -----

  /** Node `i` is the first, in list order, whose box contains `p`. */
  ghost predicate IsFirstHit(nodes: seq<Node>, p: Point, i: int)
  {
    && 0 <= i < |nodes|
    && Contains(nodes[i], p)
    && forall j :: 0 <= j < i ==> !Contains(nodes[j], p)
  }

  /** Delivers an event to the nodes in order and stops after the first node
      that consumes it. Only a press inside a box is consumed, so a press grabs
      the first node it hits and no other, a release reaches and frees every
      node, and any other event changes nothing. */
  function HandleEvent(nodes: seq<Node>, e: Event): (r: seq<Node>)
    ensures |r| == |nodes|
    ensures forall i :: 0 <= i < |nodes| ==> r[i].topLeft == nodes[i].topLeft && r[i].size == nodes[i].size
    ensures e.Other? ==> r == nodes
    ensures e.Up? ==> forall i :: 0 <= i < |nodes| ==> r[i] == nodes[i].(grab := Free)
    ensures e.Down? ==>
              var k := FirstHitIndex(nodes, e.pos);
              r == if k < |nodes| then nodes[k := nodes[k].(grab := Grabbed(Sub(e.pos, nodes[k].topLeft)))]
                   else nodes
    decreases |nodes|
  {
    if |nodes| == 0 then nodes
    else
      var (n, consumed) := Nodes.HandleEvent(nodes[0], e);
      if consumed then [n] + nodes[1..]
      else
        [n] + HandleEvent(nodes[1..], e)
  }

  /** A press changes at most one node, and that node is one its position hits. */
  lemma {:induction false} DownChangesAtMostOne(nodes: seq<Node>, p: Point, i: int, j: int)
    requires 0 <= i < |nodes| && 0 <= j < |nodes|
    requires HandleEvent(nodes, Down(p))[i] != nodes[i]
    requires HandleEvent(nodes, Down(p))[j] != nodes[j]
    ensures i == j && IsFirstHit(nodes, p, i)
  {
    var k := FirstHitIndex(nodes, p);
    if k < |nodes| {
      assert IsFirstHit(nodes, p, k);
    }
  }

  /** Two overlapping boxes and a press inside the overlap: only the first
      node in scene order is grabbed. */
  lemma OverlapGrabsFirstOnly()
    ensures var nodes := [NewNode(100, 100), NewNode(108, 108), NewNode(300, 300)];
            var r := HandleEvent(nodes, Down(Point(110, 110)));
            && r[0].grab == Grabbed(Point(10, 10))
            && r[1] == nodes[1] && r[2] == nodes[2]
  {
    var nodes := [NewNode(100, 100), NewNode(108, 108), NewNode(300, 300)];
    var p := Point(110, 110);
    assert Contains(nodes[0], p);
    var (n, consumed) := Nodes.HandleEvent(nodes[0], Down(p));
    assert consumed && n.grab == Grabbed(Point(10, 10));
    assert HandleEvent(nodes, Down(p)) == [n] + nodes[1..];
  }

  /** The index of the first node hit by `p`, or `|nodes|` when none is. */
  function FirstHitIndex(nodes: seq<Node>, p: Point): (k: nat)
    ensures k <= |nodes|
    ensures k < |nodes| ==> IsFirstHit(nodes, p, k)
    ensures k == |nodes| ==> forall i :: 0 <= i < |nodes| ==> !Contains(nodes[i], p)
    decreases |nodes|
  {
    if |nodes| == 0 then 0
    else if Contains(nodes[0], p) then 0
    else 1 + FirstHitIndex(nodes[1..], p)
  }

  /** The per-tick update, broadcast to every node with the same pointer. */
  function Update(nodes: seq<Node>, pointer: Point): (r: seq<Node>)
    ensures |r| == |nodes|
    ensures forall i :: 0 <= i < |nodes| ==> r[i].grab == nodes[i].grab && r[i].size == nodes[i].size
    ensures forall i :: 0 <= i < |nodes| && nodes[i].grab.Grabbed? ==>
              Sub(pointer, r[i].topLeft) == nodes[i].grab.offset
    ensures forall i :: 0 <= i < |nodes| && nodes[i].grab.Free? ==> r[i] == nodes[i]
  {
    seq(|nodes|, i requires 0 <= i < |nodes| => Nodes.Update(nodes[i], pointer))
  }

  /** A release followed by any update leaves the positions as they were. */
  lemma ReleaseThenUpdateKeepsPositions(t: Triangle, pointer: Point)
    ensures Update(HandleEvent(t, Up), pointer) == HandleEvent(t, Up)
  {
  }

  // ----- Geometry -----

  /** The trisector pair of vertex `i`, from the bearings toward its previous
      and next neighbours; `bearing` stands for atan2 of a direction vector. */
  function VertexTrisectors(t: Triangle, bearing: Point -> real, i: nat): (th: Thirds)
    requires i < 3
    ensures var c := Center(t[i]);
            var l := bearing(Sub(Center(t[Prev(i)]), c));
            var r := bearing(Sub(Center(t[Next(i)]), c));
            && th.oneThird - WrapCorrect(l, r).left == th.twoThirds - th.oneThird
            && th.twoThirds - th.oneThird == WrapCorrect(l, r).right - th.twoThirds
            && (InBearingRange(l) && InBearingRange(r) ==>
                  3.0 * Abs(th.twoThirds - th.oneThird) == ShorterArc(l, r) <= Pi)
  {
    var c := Center(t[i]);
    VertexThirds(bearing(Sub(Center(t[Prev(i)]), c)), bearing(Sub(Center(t[Next(i)]), c)))
  }

  function AllTrisectors(t: Triangle, bearing: Point -> real): (th: seq<Thirds>)
    ensures |th| == 3
    ensures forall i :: 0 <= i < 3 ==> th[i] == VertexTrisectors(t, bearing, i)
  {
    seq(3, i requires 0 <= i < 3 => VertexTrisectors(t, bearing, i))
  }

  /** Intersection of the line through `p1` at bearing `a1` with the line
      through `p2` at bearing `a2`. Equal bearings give no point; otherwise the
      closed form, a floating-point tangent formula, is the parameter `solve`. */
  function Intersect(p1: Point, a1: real, p2: Point, a2: real,
                     solve: (Point, real, Point, real) -> Point): (r: Option<Point>)
    ensures r.None? <==> a1 == a2
    ensures r.Some? ==> r.value == solve(p1, a1, p2, a2)
  {
    if a1 == a2 then None else Some(solve(p1, a1, p2, a2))
  }

  /** Intersection `i` meets vertex `i`'s two-thirds ray with the next vertex's
      one-third ray. */
  function Intersections(t: Triangle, th: seq<Thirds>,
                         solve: (Point, real, Point, real) -> Point): (r: seq<Option<Point>>)
    requires |th| == 3
    ensures |r| == 3
    ensures forall i :: 0 <= i < 3 ==> (r[i].None? <==> th[i].twoThirds == th[Next(i)].oneThird)
    ensures forall i :: 0 <= i < 3 && r[i].Some? ==>
              r[i].value == solve(Center(t[i]), th[i].twoThirds, Center(t[Next(i)]), th[Next(i)].oneThird)
  {
    seq(3, i requires 0 <= i < 3 =>
      Intersect(Center(t[i]), th[i].twoThirds, Center(t[Next(i)]), th[Next(i)].oneThird, solve))
  }

  // ----- Draw list -----

  /** Vertex `i` with its successor, the pairing that edges and corner
      triangles are built on. */
  function Successor(t: Triangle, i: nat): (n: Node)
    requires i < 3
    ensures n == t[Next(i)]
  {
    RotateIndex(t, 1);
    Rotate(t, 1)[i]
  }

  /** The three outer edges, vertex `i` to vertex `i + 1`. */
  function Edges(t: Triangle): (r: seq<Prim>)
    ensures |r| == 3
    ensures forall i :: 0 <= i < 3 ==> r[i] == Line(Center(t[i]), Center(t[Next(i)]))
  {
    seq(3, i requires 0 <= i < 3 => Line(Center(t[i]), Center(Successor(t, i))))
  }

  /** A filled polygon followed by its black outline. */
  function FillAndOutline(pts: seq<Point>, c: Color): (r: seq<Prim>)
    ensures |r| == 2 && r[0].Polygon? && r[1].Polygon?
    ensures r[0].points == r[1].points == pts
    ensures r[0].filled && r[0].color == c && !r[1].filled && r[1].color == Black
  {
    [Polygon(pts, c, true), Polygon(pts, Black, false)]
  }

  /** The corner triangle on edge `i`: vertex `i`, intersection `i`, vertex `i + 1`. */
  function Corner(t: Triangle, inter: seq<Point>, i: nat): (pts: seq<Point>)
    requires |inter| == 3 && i < 3
    ensures pts == [Center(t[i]), inter[i], Center(t[Next(i)])]
  {
    [Center(t[i]), inter[i], Center(Successor(t, i))]
  }

  function Corners(t: Triangle, inter: seq<Point>, i: nat): (r: seq<Prim>)
    requires |inter| == 3 && i <= 3
    ensures |r| == 2 * (3 - i)
    ensures forall j :: i <= j < 3 ==>
              r[2 * (j - i)] == Polygon(Corner(t, inter, j), Red, true)
              && r[2 * (j - i) + 1] == Polygon(Corner(t, inter, j), Black, false)
    decreases 3 - i
  {
    if i == 3 then []
    else
      var head := FillAndOutline(Corner(t, inter, i), Red);
      var tail := Corners(t, inter, i + 1);
      assert forall k :: 2 <= k < 2 + |tail| ==> (head + tail)[k] == tail[k - 2];
      head + tail
  }

  /** The polygons between the trisectors: the inner triangle and the three
      corner triangles, all of them only when every intersection exists. */
  function Trisectors(t: Triangle, inters: seq<Option<Point>>): (r: seq<Prim>)
    requires |inters| == 3
    ensures !AllSome(inters) ==> r == []
    ensures AllSome(inters) ==>
              var inner := [inters[0].value, inters[1].value, inters[2].value];
              && |r| == 8
              && r[0] == Polygon(inner, Yellow, true) && r[1] == Polygon(inner, Black, false)
              && forall i :: 0 <= i < 3 ==>
                   var corner := [Center(t[i]), inters[i].value, Center(t[Next(i)])];
                   r[2 + 2 * i] == Polygon(corner, Red, true) && r[3 + 2 * i] == Polygon(corner, Black, false)
  {
    if AllSome(inters) then
      var inner := [inters[0].value, inters[1].value, inters[2].value];
      FillAndOutline(inner, Yellow) + Corners(t, inner, 0)
    else
      []
  }

  function NodeGlyphs(t: Triangle): (r: seq<Prim>)
    ensures |r| == 3
    ensures forall i :: 0 <= i < 3 ==>
              r[i].Rect? && r[i].topLeft == t[i].topLeft && r[i].size == t[i].size
              && (r[i].filled <==> t[i].grab.Grabbed?)
  {
    seq(3, i requires 0 <= i < 3 => Nodes.Draw(t[i]))
  }

  /** The frame's draw list from the vertices and the three intersections:
      edges first, then the trisector polygons, then the node glyphs on top. */
  function Draw(t: Triangle, inters: seq<Option<Point>>): (r: seq<Prim>)
    requires |inters| == 3
    ensures |r| == if AllSome(inters) then 14 else 6
    ensures r[3..|r| - 3] == Trisectors(t, inters)
  {
    Edges(t) + Trisectors(t, inters) + NodeGlyphs(t)
  }

  /** The draw list opens with the three outer edges, vertex `i` to vertex `i + 1`. */
  lemma DrawEdgesFirst(t: Triangle, inters: seq<Option<Point>>)
    requires |inters| == 3
    ensures forall i :: 0 <= i < 3 ==> Draw(t, inters)[i] == Line(Center(t[i]), Center(t[Next(i)]))
  {
    var edges := Edges(t);
    assert forall i :: 0 <= i < 3 ==> Draw(t, inters)[i] == edges[i];
  }

  /** The draw list closes with the three node glyphs, in node order, each
      filled exactly when its node is grabbed. */
  lemma DrawGlyphsLast(t: Triangle, inters: seq<Option<Point>>)
    requires |inters| == 3
    ensures var r := Draw(t, inters);
            forall i :: 0 <= i < 3 ==>
              r[|r| - 3 + i].Rect? && r[|r| - 3 + i].topLeft == t[i].topLeft
              && r[|r| - 3 + i].size == t[i].size
              && (r[|r| - 3 + i].filled <==> t[i].grab.Grabbed?)
  {
    var r := Draw(t, inters);
    var glyphs := NodeGlyphs(t);
    assert r[|r| - 3..] == glyphs;
    assert forall i :: 0 <= i < 3 ==> r[|r| - 3 + i] == glyphs[i];
  }

  /** Polygons appear in the draw list exactly when every intersection exists. */
  lemma DrawHasPolygonsIffAllPresent(t: Triangle, inters: seq<Option<Point>>)
    requires |inters| == 3
    ensures (exists k :: 0 <= k < |Draw(t, inters)| && Draw(t, inters)[k].Polygon?) <==> AllSome(inters)
  {
    var r := Draw(t, inters);
    if AllSome(inters) {
      assert r[3] == Trisectors(t, inters)[0];
    } else {
      NoPolygonsWhenAbsent(t, inters);
    }
  }

  lemma NoPolygonsWhenAbsent(t: Triangle, inters: seq<Option<Point>>)
    requires |inters| == 3 && !AllSome(inters)
    ensures forall k :: 0 <= k < |Draw(t, inters)| ==> !Draw(t, inters)[k].Polygon?
  {
    var r := Draw(t, inters);
    assert r == Edges(t) + NodeGlyphs(t);
  }

  /** The whole frame: trisectors from the current centres, their
      intersections, and the draw list built from them. It carries fourteen
      primitives exactly when, on every edge, the two trisectors that should
      meet have different bearings; otherwise only the six edges and glyphs. */
  function Frame(t: Triangle, bearing: Point -> real,
                 solve: (Point, real, Point, real) -> Point): (r: seq<Prim>)
    ensures var th := AllTrisectors(t, bearing);
            |r| == 14 <==> forall i :: 0 <= i < 3 ==> th[i].twoThirds != th[Next(i)].oneThird
    ensures |r| == 14 || |r| == 6
  {
    var th := AllTrisectors(t, bearing);
    IntersectionsAllPresent(t, th, solve);
    Draw(t, Intersections(t, th, solve))
  }

  lemma IntersectionsAllPresent(t: Triangle, th: seq<Thirds>,
                                solve: (Point, real, Point, real) -> Point)
    requires |th| == 3
    ensures AllSome(Intersections(t, th, solve)) <==>
              forall i :: 0 <= i < 3 ==> th[i].twoThirds != th[Next(i)].oneThird
  {
    var inters := Intersections(t, th, solve);
    assert AllSome(inters) <==> forall i :: 0 <= i < 3 ==> inters[i].Some?;
  }
}
