/** A draggable triangle vertex: a square hit-box that the pointer can grab,
    drag and release. */
module Nodes {
  import opened Points
  import opened Render

  /** Edge length of a vertex hit-box unless another is given. */
  const NodeSize: int := 16

  /** Grab state: free, or held with the pointer-to-anchor offset recorded at
      grab time, so that the box does not jump under the pointer. */
  datatype Grab = Free | Grabbed(offset: Point)

  /** Pointer input: a press at a position, a release, or anything else. */
  datatype Event = Down(pos: Point) | Up | Other

  datatype Node = Node(topLeft: Point, size: int, grab: Grab)

  function NewNode(x: int, y: int): (n: Node)
    ensures n.topLeft == Point(x, y) && n.size == NodeSize && n.grab.Free?
  {
    Node(Point(x, y), NodeSize, Free)
  }

  /** The hit test: the half-open box [x, x + size) × [y, y + size). A point
      is inside exactly when its offset from the anchor lies in [0, size) in
      both coordinates, so a box whose size is not positive contains nothing. */
  function Contains(n: Node, p: Point): (b: bool)
    ensures b <==> 0 <= Sub(p, n.topLeft).x < n.size && 0 <= Sub(p, n.topLeft).y < n.size
    ensures b ==> n.size > 0
  {
    && n.topLeft.x <= p.x < n.topLeft.x + n.size
    && n.topLeft.y <= p.y < n.topLeft.y + n.size
  }

  /** Conversion of a real to an integer by truncation toward zero. */
  function Truncate(q: real): (r: int)
    ensures q >= 0.0 ==> 0 <= r && r as real <= q < r as real + 1.0
    ensures q < 0.0 ==> r <= 0 && r as real - 1.0 < q <= r as real
  {
    if q >= 0.0 then q.Floor else -((-q).Floor)
  }

  /** The centre coordinate of a box side: anchor plus half the size, computed
      as a real and truncated toward zero. For an even size the truncation is
      exact; for a size of at least two the result lies inside the side. */
  function Mid(anchor: int, size: int): (m: int)
    ensures size % 2 == 0 ==> m == anchor + size / 2
    ensures size >= 2 ==> anchor <= m < anchor + size
  {
    MidOfEven(anchor, size);
    MidInSide(anchor, size);
    Truncate(anchor as real + size as real / 2.0)
  }

  /** The centre of the hit-box. For an even size it is the anchor plus half
      the size in each coordinate; a box at least two wide contains it. */
  function Center(n: Node): (c: Point)
    ensures n.size % 2 == 0 ==> c == Add(n.topLeft, Point(n.size / 2, n.size / 2))
    ensures n.size >= 2 ==> Contains(n, c)
  {
    Point(Mid(n.topLeft.x, n.size), Mid(n.topLeft.y, n.size))
  }

  lemma MidOfEven(anchor: int, size: int)
    ensures size % 2 == 0 ==> Truncate(anchor as real + size as real / 2.0) == anchor + size / 2
  {
    if size % 2 == 0 {
      var h := size / 2;
      assert size == 2 * h;
      assert anchor as real + size as real / 2.0 == (anchor + h) as real;
    }
  }

  lemma MidInSide(anchor: int, size: int)
    ensures size >= 2 ==> anchor <= Truncate(anchor as real + size as real / 2.0) < anchor + size
  {
    if size >= 2 {
      var q := anchor as real + size as real / 2.0;
      assert anchor as real + 1.0 <= q <= (anchor + size) as real - 1.0;
    }
  }

  /** The node's reaction to one pointer event. The boolean says whether the
      event was consumed: only a press inside the box is. A release frees the
      node wherever it happens and is not consumed. Only the grab state ever
      changes here. */
  function HandleEvent(n: Node, e: Event): (res: (Node, bool))
    ensures res.1 <==> e.Down? && Contains(n, e.pos)
    ensures res.1 ==> res.0.grab.Grabbed? && Add(n.topLeft, res.0.grab.offset) == e.pos
    ensures e.Up? ==> res.0.grab.Free?
    ensures res.0.topLeft == n.topLeft && res.0.size == n.size
    ensures !res.1 && !e.Up? ==> res.0 == n
  {
    match e
    case Down(p) =>
      if Contains(n, p) then (n.(grab := Grabbed(Sub(p, n.topLeft))), true) else (n, false)
    case Up => (n.(grab := Free), false)
    case Other => (n, false)
  }

  /** The per-tick update with the live pointer position: a grabbed node is
      re-anchored so that the pointer sits at its recorded offset; a free node
      stays put. The grab state and size never change here. */
  function Update(n: Node, pointer: Point): (r: Node)
    ensures r.grab == n.grab && r.size == n.size
    ensures n.grab.Grabbed? ==> Sub(pointer, r.topLeft) == n.grab.offset
    ensures n.grab.Free? ==> r == n
  {
    match n.grab
    case Free => n
    case Grabbed(offset) =>
      SubSubCancel(pointer, offset);
      n.(topLeft := Sub(pointer, offset))
  }

  /** The node's glyph: its hit-box, filled exactly while it is grabbed. */
  function Draw(n: Node): (r: Prim)
    ensures r.Rect? && r.topLeft == n.topLeft && r.size == n.size
    ensures r.filled <==> n.grab.Grabbed?
  {
    Rect(n.topLeft, n.size, n.grab != Free)
  }

  /** Grabbing a node and updating with the pointer still where it was pressed
      leaves the node where it was: the box does not jump. */
  lemma GrabDoesNotJump(n: Node, p: Point)
    requires Contains(n, p)
    ensures Update(HandleEvent(n, Down(p)).0, p) == HandleEvent(n, Down(p)).0
  {
  }

  /** Once a press has grabbed a node, the node stays under the pointer:
      after an update with any pointer position, the box contains it. */
  lemma GrabbedNodeStaysUnderPointer(n: Node, p: Point, pointer: Point)
    requires Contains(n, p)
    ensures Contains(Update(HandleEvent(n, Down(p)).0, pointer), pointer)
  {
    var g := HandleEvent(n, Down(p)).0;
    assert g.grab.offset == Sub(p, n.topLeft);
    assert Sub(pointer, Update(g, pointer).topLeft) == g.grab.offset;
  }

  /** After a release, updates never move the node. */
  lemma ReleasedNodeStays(n: Node, pointer: Point)
    ensures Update(HandleEvent(n, Up).0, pointer) == HandleEvent(n, Up).0
  {
  }

  /** The whole drag: press inside at (105, 105) on the box at (100, 100),
      drag to (200, 200), release, and move on to (300, 300). */
  lemma DragLifecycle()
    ensures var n0 := NewNode(100, 100);
            var n1 := HandleEvent(n0, Down(Point(105, 105)));
            var n2 := Update(n1.0, Point(200, 200));
            var n3 := HandleEvent(n2, Up);
            var n4 := Update(n3.0, Point(300, 300));
            && n1.1 && n1.0.grab == Grabbed(Point(5, 5))
            && n2.topLeft == Point(195, 195)
            && !n3.1 && n3.0.grab.Free?
            && n4.topLeft == Point(195, 195)
  {
  }
}
