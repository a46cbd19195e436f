# Morley trisector visualiser — Dafny model

The program shows a triangle whose three vertices can be dragged with the
pointer. Every frame it computes, at each vertex, the two rays that trisect the
interior angle, intersects the adjacent rays of neighbouring vertices, and
draws the inner (Morley) triangle and three corner triangles between the edges
and the inner triangle.

This project models the logic of that program that is not graphics or
trigonometry:

- `Points`: integer points with addition, negation, subtraction and the
  conversion to and from coordinate pairs.
- `Rotation`: the list rotation that pairs each vertex with its successor.
- `Nodes`: a draggable vertex. It has a square hit-box, a free/grabbed state
  that carries the grab offset, the pointer-down, pointer-up and other events,
  and the per-tick re-anchoring to the live pointer.
- `Angles`: the wrap correction of a vertex's two bearings and the blend that
  yields its one-third and two-thirds rays.
- `Scene`: the three-node triangle. It covers first-match-wins event dispatch,
  the update sent to every node, neighbour indexing, intersection gating, and
  the ordered draw list of abstract primitives (`Render.Prim`).
- `Options`: a presence-tagged value for intersections that may be absent.

Three behaviours of the code that the model keeps as they are:

- Pointer-up is not consumed: `Node.handle_event` returns `False` for it
  (morley.py:80-82). The triangle therefore delivers it to all three nodes, and
  every node ends up free.
- A corner triangle is vertex `i`, intersection `i` and vertex `i + 1`
  (morley.py:175-184).
- No polygon at all is drawn unless all three intersections exist
  (morley.py:165). There is no per-corner check.

Inputs the program takes from its host are parameters:

- The live pointer position is passed to `Update`.
- `atan2` becomes the parameter `bearing`.
- The tangent closed form of the intersection becomes the parameter `solve`.

## Model

| member | source | states |
|---|---|---|
| Points.Add | morley.py:40-41 | the displacement from the first point to the sum is the second point, in each coordinate |
| Points.Neg | morley.py:43-44 | each coordinate of the negation cancels against the input's |
| Points.Sub | morley.py:46-47 | subtraction, defined as adding the negation, is the component-wise difference |
| Points.NegIsInverse | morley.py:43-47 | `p + (-p)` is the origin, negation undoes itself, `p - p` is the origin |
| Points.SubAddCancel | morley.py:40-47 | `(p - q) + q == p`, `(p + q) - q == p` and `q + (p - q) == p` |
| Points.SubSubCancel | morley.py:46-47 | `p - (p - q) == q`: an anchor is recovered from the pointer and its offset |
| Points.AddCommutes | morley.py:40-41 | point addition is commutative |
| Points.AddAssociates | morley.py:40-41 | point addition is associative |
| Points.OriginIsNeutral | morley.py:40-41 | the origin is neutral for addition on both sides |
| Points.ToTuple | morley.py:33-34 | the pair converts back to the same point |
| Points.FromTuple | morley.py:36-38 | the point's coordinates are the pair's first and second components |
| Points.TupleRoundTrip | morley.py:33-38 | point to pair to point, and pair to point to pair, are identities |
| Rotation.Rotate | morley.py:19-25 | the result has the input's length, and the empty list comes back unchanged |
| Rotation.RotateIndex | morley.py:19-25 | element `i` of the result is element `(i + n) mod len` of the input, for negative `n` too |
| Rotation.RotateExample | morley.py:19-25 | rotating `[a, b, c]` by one gives `[b, c, a]` |
| Rotation.RotateFullTurn | morley.py:19-25 | rotating by any multiple of the length is the identity |
| Rotation.RotatePeriodic | morley.py:19-25 | rotation amounts that differ by a whole number of lengths give the same result |
| Rotation.RotateIsPermutation | morley.py:19-25 | rotation keeps the multiset of elements |
| Nodes.NewNode | morley.py:51-54 | a new node is free, with the default size 16, anchored at the given point |
| Nodes.Contains | morley.py:56-57 | a point is in the hit-box iff its offset from the anchor lies in `[0, size)` in both coordinates; a box with non-positive size contains nothing |
| Nodes.Truncate | morley.py:69-72 | `int()` of a real truncates toward zero: the result has the real's sign and is less than one away from it toward zero |
| Nodes.Mid | morley.py:69-72 | one centre coordinate: for an even size exactly anchor plus half the size; for a size of at least two it lies in `[anchor, anchor + size)` |
| Nodes.Center | morley.py:67-72 | for an even size the centre is the anchor plus half the size in each coordinate; a box at least two wide contains its centre |
| Nodes.HandleEvent | morley.py:74-84 | the event is consumed iff it is a press inside `[x, x+size) × [y, y+size)`; then the node is grabbed with `anchor + offset == press position`; a release always frees the node and is not consumed; a miss or any other event leaves the node unchanged; the anchor and size never change |
| Nodes.Update | morley.py:86-89 | a grabbed node is moved so that `pointer - anchor` equals its offset, with the grab state unchanged; a free node is unchanged |
| Nodes.Draw | morley.py:91-94 | the glyph is the node's box, filled exactly while the node is grabbed |
| Nodes.GrabDoesNotJump | morley.py:74-89 | grabbing and then updating with the pointer where it was pressed does not move the node |
| Nodes.GrabbedNodeStaysUnderPointer | morley.py:74-89 | after a press grabs a node, every later update leaves the pointer inside the node's box |
| Nodes.ReleasedNodeStays | morley.py:80-89 | after a release, an update with any pointer leaves the node where it is |
| Nodes.DragLifecycle | morley.py:74-89 | a press at (105,105) on the box at (100,100) grabs it with offset (5,5); dragging to (200,200) puts it at (195,195); a release frees it; later updates do not move it |
| Angles.ProductNegative | morley.py:142 | the program's sign test `l * r < 0` holds exactly when the bearings have opposite strict signs |
| Angles.WrapCorrect | morley.py:141-146 | a full turn is added iff the signs are opposite and `abs(l) + abs(r) > π`; it is added only to the negative bearing and to at most one; afterwards `abs(l - r) <= π` for bearings in (-π, π] |
| Angles.WrapSweepsShorterArc | morley.py:141-146 | for bearings in (-π, π], the corrected pair spans exactly the shorter arc between the two directions |
| Angles.Trisect | morley.py:148-149 | `onethird` and `twothirds` cut `[l, r]` into three equal steps; both lie between `l` and `r`; `onethird` is the one nearer `l` |
| Angles.VertexThirds | morley.py:141-150 | for bearings in (-π, π], three times the gap between the two trisectors is the shorter arc, which is at most π |
| Scene.Initial | morley.py:98-103 | the scene starts with three free nodes of default size at (300,100), (700,400) and (100,400) |
| Scene.Prev | morley.py:132 | the left neighbour index `(i - 1) mod 3` lies in 0..2 and its successor is `i` |
| Scene.Next | morley.py:133 | the right neighbour index `(i + 1) mod 3` lies in 0..2 and its predecessor is `i` |
| Scene.HandleEvent | morley.py:105-109 | a press changes only the first node (in order) whose box contains it, and grabs it with the offset to its anchor; with no hit nothing changes; a release reaches and frees every node; other events change nothing; anchors, sizes and count are kept |
| Scene.FirstHitIndex | morley.py:105-109 | the index returned is that of the first node hit by the position, or the node count when none is hit |
| Scene.DownChangesAtMostOne | morley.py:105-109 | any two nodes changed by one press are the same node, and it is the first one hit |
| Scene.OverlapGrabsFirstOnly | morley.py:105-109 | with two overlapping boxes, a press at (110,110) in the overlap grabs the first node with offset (10,10) and leaves the second and third unchanged |
| Scene.Update | morley.py:111-113 | every node keeps its grab state and size; each grabbed node ends with `pointer - anchor` equal to its offset; each free node is unchanged; count and order are kept |
| Scene.ReleaseThenUpdateKeepsPositions | morley.py:105-113 | after a release, the next update moves no node |
| Scene.VertexTrisectors | morley.py:131-150 | the trisectors of vertex `i`, from the bearings toward vertices `(i - 1) mod 3` and `(i + 1) mod 3`, cut the wrap-corrected range into three equal steps; with bearings in (-π, π] each step is a third of the shorter arc, so at most π/3 |
| Scene.AllTrisectors | morley.py:130-150 | one trisector pair per vertex, in vertex order |
| Scene.Intersect | morley.py:187-191 | the intersection is absent exactly when the two bearings are equal; otherwise it is the closed-form point |
| Scene.Intersections | morley.py:152-163 | intersection `i` is absent iff vertex `i`'s two-thirds bearing equals vertex `i+1`'s one-third bearing; otherwise it is the closed form applied to those two centres and bearings |
| Scene.Successor | morley.py:116 | the partner that rotation pairs with vertex `i` is vertex `(i + 1) mod 3` |
| Scene.Edges | morley.py:116-122 | three lines, line `i` joining the centres of vertex `i` and vertex `(i + 1) mod 3` |
| Scene.FillAndOutline | morley.py:168-173 | two polygons over the same points: the first filled with the given colour, the second a black outline |
| Scene.Corner | morley.py:175-182 | the corner on edge `i` is the centre of vertex `i`, intersection `i`, and the centre of vertex `(i + 1) mod 3` |
| Scene.Corners | morley.py:175-184 | for each edge in order, a red filled and then a black outlined triangle (vertex `i`, intersection `i`, vertex `i + 1`) |
| Scene.Trisectors | morley.py:165-184 | nothing when some intersection is absent; otherwise eight primitives: the inner triangle filled yellow, then outlined, then the three corners filled red and outlined |
| Scene.NodeGlyphs | morley.py:126-127 | one box per node, in node order, with the node's anchor and size, filled exactly when the node is grabbed |
| Scene.Draw | morley.py:115-127 | the draw list has 14 primitives when all intersections are present and 6 otherwise; between the edges and the glyphs lie the trisector polygons |
| Scene.DrawEdgesFirst | morley.py:115-122 | the first three primitives are the edges from vertex `i` to vertex `(i + 1) mod 3` |
| Scene.DrawGlyphsLast | morley.py:124-127 | the last three primitives are the node boxes in node order, with each node's anchor and size, filled exactly when the node is grabbed |
| Scene.DrawHasPolygonsIffAllPresent | morley.py:165-184 | the draw list contains a polygon iff all three intersections are present |
| Scene.NoPolygonsWhenAbsent | morley.py:165 | with an absent intersection, no primitive in the draw list is a polygon |
| Scene.IntersectionsAllPresent | morley.py:152-165 | all three intersections are present iff on every edge the two meeting bearings differ |
| Scene.Frame | morley.py:115-184 | a frame has 14 primitives iff on every edge the two meeting trisectors have different bearings, and 6 otherwise |

## Left out

- Window setup, the host loop, the event queue, frame pacing and the clear of the surface before each frame are not modelled. These are `App`, `main` and `screen.fill` (morley.py:201-237). Actual rendering is replaced by the list of `Render.Prim` values.
- The pointer position from `pygame.mouse.get_pos` is not modelled. It becomes the `pointer` parameter of `Update`.
- `atan2` (morley.py:134-139) is not modelled. It is the parameter `bearing`, and lemmas that need it assume its range is (-π, π].
- The `tan`-based closed form and its `int` truncation (morley.py:193-198) are not modelled. They are the parameter `solve`; only the equal-bearings guard is modelled.
- Scene.Intersect: does not model the division by zero when the two tangents are equal but the bearings differ, because `solve` is total.
- Floating-point rounding is not modelled. Bearings and blends are exact reals, and `π` is the decimal 3.141592653589793; the proofs use only that it is positive.
- The centre is computed from exact reals. Floating-point rounding of `x + size/2` for coordinates beyond 2^53 is not modelled.
- Colour values, the window size and the title are not modelled (morley.py:8-11, 223-224). They are configuration; colours are the tags `Black`, `Yellow` and `Red`.
- Morley's theorem is not modelled: that the inner triangle is equilateral, and that a non-degenerate triangle has all three intersections. Both are claims of real trigonometry that the program does not check.
- The pygame `Rect` object is not modelled. Only its `collidepoint` test, the half-open box, is (`Nodes.Contains`).
