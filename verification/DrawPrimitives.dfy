/** The primitives of ImDrawList that write triangles (imgui_draw.cpp): rectangles, polylines and
    filled convex polygons. Geometry is left out: a vertex is the shape point and role it was
    computed for, and what is proved is that every 16-bit index reaches the vertex meant. */
module DrawPrimitives {
  import opened Common
  import opened DrawCommands
  import opened DrawList

  /** (ImDrawIdx)x. */
  function Cast(x: nat): Idx { x % INDEX_RANGE }

  function VertexAt(vtx: seq<Vertex>, k: nat): Vertex { if k < |vtx| then vtx[k] else Unwritten }

  /** The vertices a renderer fetches for some indices drawn under a vertex offset. */
  function Resolve(vtx: seq<Vertex>, offset: nat, s: seq<Idx>): (r: seq<Vertex>)
    ensures |r| == |s|
  {
    seq(|s|, k requires 0 <= k < |s| => VertexAt(vtx, offset + s[k]))
  }

  /** Local vertex numbers as the indices the code writes. */
  function Placed(base: nat, local: seq<nat>): (s: seq<Idx>)
    ensures |s| == |local|
  {
    seq(|local|, k requires 0 <= k < |local| => Cast(base + local[k]))
  }

  /** The vertices meant by local numbers into a shape's own vertices. */
  function Meant(own: seq<Vertex>, local: seq<nat>): (r: seq<Vertex>)
    requires AllBelow(local, |own|)
    ensures |r| == |local|
  {
    seq(|local|, k requires 0 <= k < |local| => own[local[k]])
  }

  /** While base and count stay within 16 bits no cast truncates, and every index written resolves to
      the vertex meant. */
  lemma PlacedResolves(before: seq<Vertex>, own: seq<Vertex>, offset: nat, base: nat, local: seq<nat>)
    requires offset + base == |before| && base + |own| <= INDEX_RANGE && AllBelow(local, |own|)
    ensures Resolve(before + own, offset, Placed(base, local)) == Meant(own, local)
  {}

  /** The bound is exact: the casts are faithful to every vertex of a shape if and only if its last
      vertex number fits 16 bits. */
  lemma CastExact(base: nat, count: nat)
    requires count > 0
    ensures (forall v: nat :: v < count ==> Faithful(base, v)) <==> base + count <= 0x1_0000
  {
    assert Faithful(base, count - 1) <==> base + count <= INDEX_RANGE;
  }

  predicate Faithful(base: nat, v: nat) { Cast(base + v) == base + v }

  /** 16-bit indices reach every vertex of a shape: its own where the vertex offset may move, else all since
      the offset. Where the code also casts the count to 16 bits, the count itself must fit. */
  predicate Reaches(movable: bool, current: int, vtxCount: nat, countIsCast: bool) {
    (if movable then vtxCount else current + vtxCount) <= INDEX_RANGE && (countIsCast ==> vtxCount < INDEX_RANGE)
  }

  /** The check is exact: every vertex of a shape is reached if and only if no cast to 16 bits changes its
      number, counted from the offset, which moves to the shape if it may. */
  lemma ReachesExactly(current: nat, vtxCount: nat)
    requires vtxCount > 0
    ensures Reaches(false, current, vtxCount, false) <==> forall v: nat :: v < vtxCount ==> Faithful(current, v)
    ensures Reaches(true, current, vtxCount, false) <==> forall v: nat :: v < vtxCount ==> Faithful(0, v)
    ensures forall movable :: Reaches(movable, current, vtxCount, true) <==>
                                Reaches(movable, current, vtxCount, false) && Cast(vtxCount) == vtxCount
  {
    CastExact(current, vtxCount);
    CastExact(0, vtxCount);
  }

  predicate HasRoom(list: List, vtxCount: nat, countIsCast: bool)
    reads list
  {
    Reaches(list.allowVtxOffset, list.vtxCurrentIdx, vtxCount, countIsCast)
  }

  /** What a primitive leaves: its vertices at the end of the buffer, its indices drawn last under the
      current header, each of them resolving to the vertex meant, and both reservations filled. */
  twostate predicate Emitted(list: List, own: seq<Vertex>, meant: seq<Vertex>)
    reads list
  {
    && list.Valid() && list.Based()
    && list.vtxBuffer == old(list.vtxBuffer) + own
    && old(list.idxBuffer) <= list.idxBuffer
    && Resolve(list.vtxBuffer, list.cmdHeader.vtxOffset, list.idxBuffer[|old(list.idxBuffer)|..]) == meant
    && list.Events() == old(list.Events()) + DrawAll(list.cmdHeader, list.idxBuffer[|old(list.idxBuffer)|..])
    && list.idxWrite == |list.idxBuffer| && list.vtxWrite == |list.vtxBuffer|
    && list.cmdHeader.(vtxOffset := 0) == old(list.cmdHeader).(vtxOffset := 0)
    && (!list.allowVtxOffset ==> list.cmdHeader == old(list.cmdHeader))
    && list.clipRectStack == old(list.clipRectStack) && list.textureIdStack == old(list.textureIdStack)
  }

  /** Filling in the tail of the last command replaces the end of what is drawn. */
  lemma TailDrawn(cmds: seq<Cmd>, h: Header, idx: seq<Idx>, idx': seq<Idx>, m: nat, before: seq<Event>)
    requires cmds != [] && Tiled(cmds, |idx|) && Last(cmds).callback.None? && Last(cmds).header == h
    requires m <= |idx| == |idx'| && |idx| - m <= Last(cmds).elemCount && idx[..m] == idx'[..m]
    requires Drawn(cmds, idx) == before + DrawAll(h, idx[m..])
    ensures Drawn(cmds, idx') == before + DrawAll(h, idx'[m..])
  {
    hide Drawn, DrawAll, Tiled, Elems;
    var front, c := Front(cmds), Last(cmds);
    var shrunk := c.(elemCount := c.elemCount - (|idx| - m));
    var kept, was, now := idx[..m], idx[m..], idx'[m..];
    assert front + [c] == cmds && kept + was == idx && kept + now == idx' && |kept| == m;
    ShrinkTiled(front, c, |idx|, m);
    Regrow(front, c, shrunk, kept, was);
    Regrow(front, c, shrunk, kept, now);
    SameFront(Drawn(front + [shrunk], kept), before, DrawAll(h, was));
  }

  lemma SameFront<T>(x: seq<T>, y: seq<T>, z: seq<T>)
    requires x + z == y + z
    ensures x == y
  {
    assert |x| == |y|;
    assert x == (x + z)[..|x|] && y == (y + z)[..|y|];
  }

  /** A primitive that filled both its reservations: its indices resolve to the vertices meant and
      are what is drawn last. */
  lemma Completed(cmds: seq<Cmd>, h: Header, vtx: seq<Vertex>, own: seq<Vertex>, idx: seq<Idx>, reserved: seq<Idx>,
                  now: seq<Idx>, base: nat, local: seq<nat>, before: seq<Event>)
    requires cmds != [] && Tiled(cmds, |reserved|) && Last(cmds).callback.None? && Last(cmds).header == h
    requires |now| == |reserved| && idx <= reserved && now == idx + Placed(base, local)
    requires |reserved| - |idx| <= Last(cmds).elemCount
    requires Drawn(cmds, reserved) == before + DrawAll(h, reserved[|idx|..])
    requires h.vtxOffset + base == |vtx| && base + |own| <= INDEX_RANGE && AllBelow(local, |own|)
    ensures idx <= now && Resolve(vtx + own, h.vtxOffset, now[|idx|..]) == Meant(own, local)
    ensures Drawn(cmds, now) == before + DrawAll(h, now[|idx|..])
  {
    hide Drawn, Tiled, DrawAll, Resolve, Placed, Meant, AllBelow;
    PlacedResolves(vtx, own, h.vtxOffset, base, local);
    assert now[|idx|..] == Placed(base, local) && now[..|idx|] == idx == reserved[..|idx|];
    TailDrawn(cmds, h, reserved, now, |idx|, before);
  }

  // ---- Rectangles ----

  const RECT_LOCAL: seq<nat> := [0, 1, 2, 0, 2, 3]
  const RECT_VERTICES: seq<Vertex> := [Vertex(0, 0), Vertex(1, 0), Vertex(2, 0), Vertex(3, 0)]

  method PrimRect(list: List)
    requires list.Valid() && list.Based() && HasRoom(list, 4, false)
    modifies list
    ensures Emitted(list, RECT_VERTICES,
                    [Vertex(0, 0), Vertex(1, 0), Vertex(2, 0), Vertex(0, 0), Vertex(2, 0), Vertex(3, 0)])
  {
    hide Drawn, Tiled;
    ghost var vtx, idx := list.vtxBuffer, list.idxBuffer;
    list.PrimReserve(6, 4);
    ghost var reserved, base := list.idxBuffer, list.vtxCurrentIdx;
    var i := Cast(list.vtxCurrentIdx);
    list.WriteIdx([i, Cast(i + 1), Cast(i + 2), i, Cast(i + 2), Cast(i + 3)]);
    list.WriteVtx(RECT_VERTICES);
    list.vtxCurrentIdx := list.vtxCurrentIdx + 4;
    assert list.vtxBuffer == vtx + RECT_VERTICES;
    assert list.idxBuffer[|idx|..] == Placed(base, RECT_LOCAL);
    PlacedResolves(vtx, RECT_VERTICES, list.cmdHeader.vtxOffset, base, RECT_LOCAL);
    assert list.idxBuffer[..|idx|] == idx;
    TailDrawn(list.cmdBuffer, list.cmdHeader, reserved, list.idxBuffer, |idx|, old(list.Events()));
  }

  // ---- Shapes made of points with a fixed number of vertices each ----

  function PointVertices(n: nat, stride: nat): (vs: seq<Vertex>)
    ensures |vs| == n * stride
  {
    if n == 0 then [] else
      assert n * stride == (n - 1) * stride + stride;
      PointVertices(n - 1, stride) + seq(stride, r requires 0 <= r => Vertex(n - 1, r))
  }

  /** The local number of a point's vertex. */
  function At(stride: nat, point: nat, role: nat): nat { point * stride + role }

  lemma {:induction false} PointVertexAt(n: nat, stride: nat, point: nat, role: nat)
    requires point < n && role < stride
    ensures At(stride, point, role) < n * stride
    ensures PointVertices(n, stride)[At(stride, point, role)] == Vertex(point, role)
    decreases n
  {
    assert n * stride == (n - 1) * stride + stride;
    if point < n - 1 {
      PointVertexAt(n - 1, stride, point, role);
    }
  }

  /** A corner of a segment's triangles: at its second or first point, in a role. */
  datatype Corner = Corner(second: bool, role: nat)

  function PointOf(n: nat, i: nat, c: Corner): nat {
    if !c.second then i else if i + 1 == n then 0 else i + 1
  }

  predicate RolesBelow(corners: seq<Corner>, stride: nat) {
    forall j :: 0 <= j < |corners| ==> corners[j].role < stride
  }

  function SegmentLocal(n: nat, stride: nat, corners: seq<Corner>, i: nat): (s: seq<nat>)
    ensures |s| == |corners|
  {
    seq(|corners|, j requires 0 <= j < |corners| => At(stride, PointOf(n, i, corners[j]), corners[j].role))
  }

  function SegmentVertices(n: nat, corners: seq<Corner>, i: nat): (s: seq<Vertex>)
    ensures |s| == |corners|
  {
    seq(|corners|, j requires 0 <= j < |corners| => Vertex(PointOf(n, i, corners[j]), corners[j].role))
  }

  /** The triangles of the first m segments, as local numbers and as the vertices they mean. */
  function StrokeLocal(n: nat, stride: nat, corners: seq<Corner>, m: nat): seq<nat> {
    if m == 0 then [] else StrokeLocal(n, stride, corners, m - 1) + SegmentLocal(n, stride, corners, m - 1)
  }

  function StrokeVertices(n: nat, corners: seq<Corner>, m: nat): (s: seq<Vertex>)
    ensures |s| == m * |corners|
  {
    if m == 0 then [] else
      assert m * |corners| == (m - 1) * |corners| + |corners|;
      StrokeVertices(n, corners, m - 1) + SegmentVertices(n, corners, m - 1)
  }

  lemma SegmentMeant(n: nat, stride: nat, corners: seq<Corner>, i: nat)
    requires i < n && RolesBelow(corners, stride)
    ensures AllBelow(SegmentLocal(n, stride, corners, i), n * stride)
    ensures Meant(PointVertices(n, stride), SegmentLocal(n, stride, corners, i)) == SegmentVertices(n, corners, i)
  {
    hide At, PointVertices;
    forall j | 0 <= j < |corners|
      ensures SegmentLocal(n, stride, corners, i)[j] < n * stride
      ensures PointVertices(n, stride)[SegmentLocal(n, stride, corners, i)[j]] == SegmentVertices(n, corners, i)[j]
    {
      PointVertexAt(n, stride, PointOf(n, i, corners[j]), corners[j].role);
    }
  }

  lemma MeantSplit(own: seq<Vertex>, a: seq<nat>, b: seq<nat>)
    requires AllBelow(a, |own|) && AllBelow(b, |own|)
    ensures AllBelow(a + b, |own|) && Meant(own, a + b) == Meant(own, a) + Meant(own, b)
  {}

  lemma {:induction false} StrokeMeant(n: nat, stride: nat, corners: seq<Corner>, m: nat)
    requires m <= n && RolesBelow(corners, stride)
    ensures AllBelow(StrokeLocal(n, stride, corners, m), n * stride)
    ensures Meant(PointVertices(n, stride), StrokeLocal(n, stride, corners, m)) == StrokeVertices(n, corners, m)
  {
    if m > 0 {
      StrokeMeant(n, stride, corners, m - 1);
      SegmentMeant(n, stride, corners, m - 1);
      MeantSplit(PointVertices(n, stride), StrokeLocal(n, stride, corners, m - 1), SegmentLocal(n, stride, corners, m - 1));
    }
  }

  lemma PlacedSplit(base: nat, a: seq<nat>, b: seq<nat>)
    ensures Placed(base, a + b) == Placed(base, a) + Placed(base, b)
  {}

  /** One segment's indices, from the running indices of its two points. */
  function Triangles(idx1: nat, idx2: nat, corners: seq<Corner>): (s: seq<Idx>)
    ensures |s| == |corners|
  {
    seq(|corners|, j requires 0 <= j < |corners| =>
      Cast((if corners[j].second then idx2 else idx1) + corners[j].role))
  }

  lemma TrianglesPlaced(base: nat, n: nat, stride: nat, corners: seq<Corner>, i: nat, idx1: nat, idx2: nat)
    requires idx1 == base + i * stride
    requires idx2 == base + (if i + 1 == n then 0 else i + 1) * stride
    ensures Triangles(idx1, idx2, corners) == Placed(base, SegmentLocal(n, stride, corners, i))
  {}

  lemma StepStroke(base: nat, n: nat, stride: nat, corners: seq<Corner>, i: nat)
    ensures Placed(base, StrokeLocal(n, stride, corners, i + 1))
         == Placed(base, StrokeLocal(n, stride, corners, i)) + Placed(base, SegmentLocal(n, stride, corners, i))
    ensures |StrokeLocal(n, stride, corners, i + 1)| == |StrokeLocal(n, stride, corners, i)| + |corners|
  {
    PlacedSplit(base, StrokeLocal(n, stride, corners, i), SegmentLocal(n, stride, corners, i));
  }

  /** Writing b right behind a that was written at start. */
  lemma WrittenBehind<T>(before: seq<T>, start: nat, a: seq<T>, b: seq<T>, now: seq<T>)
    requires start + |a| + |b| <= |before|
    requires now == before[..start] + a + before[start + |a|..]
    ensures now[..start + |a|] + b + now[start + |a| + |b|..] == before[..start] + (a + b) + before[start + |a| + |b|..]
  {}

  /** The index loop of a polyline: the running indices follow the points and wrap to the first one. */
  method WriteSegments(list: List, n: nat, count: nat, stride: nat, corners: seq<Corner>)
    requires list.Valid() && count <= n
    requires list.idxWrite + count * |corners| <= |list.idxBuffer|
    modifies list`idxBuffer, list`idxWrite
    ensures list.Valid() && list.idxWrite == old(list.idxWrite) + count * |corners|
    ensures |StrokeLocal(n, stride, corners, count)| == count * |corners|
    ensures list.idxBuffer == old(list.idxBuffer)[..old(list.idxWrite)]
                              + Placed(list.vtxCurrentIdx, StrokeLocal(n, stride, corners, count))
                              + old(list.idxBuffer)[list.idxWrite..]
  {
    hide Tiled, Triangles, StrokeLocal, SegmentLocal, Placed;
    ghost var start, before, base := list.idxWrite, list.idxBuffer, list.vtxCurrentIdx;
    var idx1 := list.vtxCurrentIdx;
    NoStroke(base, n, stride, corners);
    for i := 0 to count
      invariant list.Valid() && |list.idxBuffer| == |before| && list.idxWrite == start + i * |corners|
      invariant |StrokeLocal(n, stride, corners, i)| == i * |corners|
      invariant idx1 == base + (if i == n then 0 else i) * stride
      invariant list.idxBuffer == before[..start] + Placed(base, StrokeLocal(n, stride, corners, i)) + before[start + i * |corners|..]
    {
      var idx2 := if i + 1 == n then list.vtxCurrentIdx else idx1 + stride;
      Distribute(i, stride);
      Distribute(i, |corners|);
      Product(i + 1, count, |corners|);
      var written := Triangles(idx1, idx2, corners);
      TrianglesPlaced(base, n, stride, corners, i, idx1, idx2);
      StepStroke(base, n, stride, corners, i);
      WrittenBehind(before, start, Placed(base, StrokeLocal(n, stride, corners, i)), written, list.idxBuffer);
      list.WriteIdx(written);
      idx1 := idx2;
    }
  }

  lemma NoStroke(base: nat, n: nat, stride: nat, corners: seq<Corner>)
    ensures StrokeLocal(n, stride, corners, 0) == [] && Placed(base, []) == []
  {}

  lemma Distribute(i: nat, s: nat)
    ensures (i + 1) * s == i * s + s
  {}

  lemma Product(i: nat, j: nat, s: nat)
    requires i <= j
    ensures i * s <= j * s
  {}

  /** The vertex loop: stride vertices for each point. */
  method WritePoints(list: List, n: nat, stride: nat)
    requires list.Valid() && list.vtxWrite + n * stride <= |list.vtxBuffer|
    modifies list`vtxBuffer, list`vtxWrite
    ensures list.Valid() && list.vtxWrite == old(list.vtxWrite) + n * stride
    ensures list.vtxBuffer == old(list.vtxBuffer)[..old(list.vtxWrite)] + PointVertices(n, stride)
                              + old(list.vtxBuffer)[list.vtxWrite..]
  {
    hide Tiled;
    ghost var start, before := list.vtxWrite, list.vtxBuffer;
    for i := 0 to n
      invariant list.Valid() && list.vtxWrite == start + i * stride && |list.vtxBuffer| == |before|
      invariant list.vtxBuffer == before[..start] + PointVertices(i, stride) + before[list.vtxWrite..]
    {
      Distribute(i, stride);
      Product(i + 1, n, stride);
      list.WriteVtx(seq(stride, r requires 0 <= r => Vertex(i, r)));
    }
  }

  // ---- Polylines ----

  /** The triangles of a segment in each anti-aliased path: textured, thin and thick. */
  const TEXTURED: seq<Corner> :=
    [Corner(true, 0), Corner(false, 0), Corner(false, 1), Corner(true, 1), Corner(false, 1), Corner(true, 0)]
  const THIN: seq<Corner> :=
    [Corner(true, 0), Corner(false, 0), Corner(false, 2), Corner(false, 2), Corner(true, 2), Corner(true, 0),
     Corner(true, 1), Corner(false, 1), Corner(false, 0), Corner(false, 0), Corner(true, 0), Corner(true, 1)]
  const THICK: seq<Corner> :=
    [Corner(true, 1), Corner(false, 1), Corner(false, 2), Corner(false, 2), Corner(true, 2), Corner(true, 1),
     Corner(true, 1), Corner(false, 1), Corner(false, 0), Corner(false, 0), Corner(true, 0), Corner(true, 1),
     Corner(true, 2), Corner(false, 2), Corner(false, 3), Corner(false, 3), Corner(true, 3), Corner(true, 2)]

  lemma Closing<T>(now: seq<T>, before: seq<T>, start: nat, a: seq<T>)
    requires start + |a| == |before| && now == before[..start] + a + before[start + |a|..]
    ensures now[..start] == before[..start] && now[start..] == a
  {}

  method StrokeSegments(list: List, n: nat, count: nat, stride: nat, corners: seq<Corner>)
    requires list.Valid() && list.Based() && HasRoom(list, n * stride, true)
    requires count <= n && RolesBelow(corners, stride)
    modifies list
    ensures Emitted(list, PointVertices(n, stride), StrokeVertices(n, corners, count))
  {
    hide Drawn, Tiled, StrokeLocal, StrokeVertices, PointVertices, Placed, Meant, DrawAll, Resolve, AllBelow;
    ghost var vtx, idx := list.vtxBuffer, list.idxBuffer;
    list.PrimReserve(count * |corners|, n * stride);
    ghost var reserved, base := list.idxBuffer, list.vtxCurrentIdx;
    ghost var unwritten := list.vtxBuffer;
    WriteSegments(list, n, count, stride, corners);
    WritePoints(list, n, stride);
    list.vtxCurrentIdx := list.vtxCurrentIdx + Cast(n * stride);
    ghost var local := StrokeLocal(n, stride, corners, count);
    Closing(list.idxBuffer, reserved, |idx|, Placed(base, local));
    Closing(list.vtxBuffer, unwritten, |vtx|, PointVertices(n, stride));
    assert list.vtxBuffer == vtx + PointVertices(n, stride) && list.idxBuffer == idx + Placed(base, local);
    StrokeMeant(n, stride, corners, count);
    Completed(list.cmdBuffer, list.cmdHeader, vtx, PointVertices(n, stride), idx, reserved, list.idxBuffer, base, local,
              old(list.Events()));
  }

  /** Four vertices of its own for each segment, when lines are not anti-aliased. */
  const QUAD: seq<Corner> := [Corner(false, 0), Corner(true, 1), Corner(true, 2), Corner(false, 3)]
  const QUAD_TRIANGLES: seq<Corner> :=
    [Corner(false, 0), Corner(true, 1), Corner(true, 2), Corner(false, 0), Corner(true, 2), Corner(false, 3)]
  const QUAD_LOCAL: seq<nat> := [0, 1, 2, 0, 2, 3]

  function QuadLocal(m: nat): (s: seq<nat>)
    ensures |s| == 6 * m && AllBelow(s, 4 * m)
  {
    if m == 0 then [] else QuadLocal(m - 1) + seq(6, j requires 0 <= j < 6 => 4 * (m - 1) + QUAD_LOCAL[j])
  }

  lemma {:induction false} QuadMeant(n: nat, m: nat, total: nat)
    requires m <= total
    ensures AllBelow(QuadLocal(m), |StrokeVertices(n, QUAD, total)|)
    ensures Meant(StrokeVertices(n, QUAD, total), QuadLocal(m)) == StrokeVertices(n, QUAD_TRIANGLES, m)
  {
    if m > 0 {
      var own, i := StrokeVertices(n, QUAD, total), m - 1;
      QuadMeant(n, i, total);
      var seg := seq(6, j requires 0 <= j < 6 => 4 * i + QUAD_LOCAL[j]);
      QuadVertices(n, i, total);
      assert AllBelow(seg, |own|);
      forall j: nat | j < 6 ensures Meant(own, seg)[j] == SegmentVertices(n, QUAD_TRIANGLES, i)[j] {
        assert own[4 * i + QUAD_LOCAL[j]] == SegmentVertices(n, QUAD, i)[QUAD_LOCAL[j]];
      }
      MeantSplit(own, QuadLocal(i), seg);
    }
  }

  lemma {:induction false} QuadVertices(n: nat, i: nat, total: nat)
    requires i < total
    ensures forall j: nat :: j < 4 ==> StrokeVertices(n, QUAD, total)[4 * i + j] == SegmentVertices(n, QUAD, i)[j]
    decreases total
  {
    if i < total - 1 {
      QuadVertices(n, i, total - 1);
    }
  }

  /** The four vertices and six indices of one segment. */
  method WriteQuad(list: List, n: nat, i: nat)
    requires list.Valid()
    requires list.vtxWrite + 4 <= |list.vtxBuffer| && list.idxWrite + 6 <= |list.idxBuffer|
    modifies list`vtxBuffer, list`vtxWrite, list`idxBuffer, list`idxWrite, list`vtxCurrentIdx
    ensures list.Valid() && list.vtxCurrentIdx == old(list.vtxCurrentIdx) + 4
    ensures list.vtxWrite == old(list.vtxWrite) + 4 && list.idxWrite == old(list.idxWrite) + 6
    ensures list.vtxBuffer == old(list.vtxBuffer)[..old(list.vtxWrite)] + SegmentVertices(n, QUAD, i) + old(list.vtxBuffer)[list.vtxWrite..]
    ensures list.idxBuffer == old(list.idxBuffer)[..old(list.idxWrite)] + Placed(old(list.vtxCurrentIdx), QUAD_LOCAL) + old(list.idxBuffer)[list.idxWrite..]
  {
    hide Drawn, Tiled;
    var i2 := if i + 1 == n then 0 else i + 1;
    var cur := list.vtxCurrentIdx;
    var quad := [Vertex(i, 0), Vertex(i2, 1), Vertex(i2, 2), Vertex(i, 3)];
    assert quad == SegmentVertices(n, QUAD, i);
    var triangles := [Cast(cur), Cast(cur + 1), Cast(cur + 2), Cast(cur), Cast(cur + 2), Cast(cur + 3)];
    assert triangles == Placed(cur, QUAD_LOCAL);
    list.WriteVtx(quad);
    list.WriteIdx(triangles);
    list.vtxCurrentIdx := list.vtxCurrentIdx + 4;
  }

  method WriteQuads(list: List, n: nat, count: nat)
    requires list.Valid()
    requires list.vtxWrite + 4 * count == |list.vtxBuffer| && list.idxWrite + 6 * count == |list.idxBuffer|
    modifies list`vtxBuffer, list`vtxWrite, list`idxBuffer, list`idxWrite, list`vtxCurrentIdx
    ensures list.Valid() && list.vtxCurrentIdx == old(list.vtxCurrentIdx) + 4 * count
    ensures list.vtxWrite == |list.vtxBuffer| && list.idxWrite == |list.idxBuffer|
    ensures list.vtxBuffer == old(list.vtxBuffer)[..old(list.vtxWrite)] + StrokeVertices(n, QUAD, count)
    ensures list.idxBuffer == old(list.idxBuffer)[..old(list.idxWrite)] + Placed(old(list.vtxCurrentIdx), QuadLocal(count))
  {
    hide Drawn, Tiled, StrokeVertices, SegmentVertices, Placed, QuadLocal;
    ghost var vtx, v0, idx, i0, base := list.vtxBuffer, list.vtxWrite, list.idxBuffer, list.idxWrite, list.vtxCurrentIdx;
    NoQuads(base, n);
    for i := 0 to count
      invariant list.Valid() && list.vtxCurrentIdx == base + 4 * i
      invariant list.vtxWrite == v0 + 4 * i && list.idxWrite == i0 + 6 * i
      invariant |list.vtxBuffer| == |vtx| && |list.idxBuffer| == |idx|
      invariant list.vtxBuffer == vtx[..v0] + StrokeVertices(n, QUAD, i) + vtx[v0 + 4 * i..]
      invariant list.idxBuffer == idx[..i0] + Placed(base, QuadLocal(i)) + idx[i0 + 6 * i..]
    {
      ghost var v, x := list.vtxBuffer, list.idxBuffer;
      NextQuad(base, n, i);
      WrittenBehind(vtx, v0, StrokeVertices(n, QUAD, i), SegmentVertices(n, QUAD, i), v);
      WrittenBehind(idx, i0, Placed(base, QuadLocal(i)), Placed(base + 4 * i, QUAD_LOCAL), x);
      WriteQuad(list, n, i);
    }
    assert vtx[v0 + 4 * count..] == [] && idx[i0 + 6 * count..] == [];
  }

  method StrokeQuads(list: List, n: nat, count: nat)
    requires list.Valid() && list.Based() && HasRoom(list, 4 * count, false)
    modifies list
    ensures Emitted(list, StrokeVertices(n, QUAD, count), StrokeVertices(n, QUAD_TRIANGLES, count))
  {
    hide Drawn, Tiled, DrawAll, StrokeVertices, Placed, QuadLocal;
    ghost var vtx, idx := list.vtxBuffer, list.idxBuffer;
    list.PrimReserve(6 * count, 4 * count);
    ghost var reserved, unwritten, base := list.idxBuffer, list.vtxBuffer, list.vtxCurrentIdx;
    ghost var own, local := StrokeVertices(n, QUAD, count), QuadLocal(count);
    WriteQuads(list, n, count);
    assert list.vtxBuffer == vtx + own;
    assert list.idxBuffer[..|idx|] == idx && list.idxBuffer[|idx|..] == Placed(base, local);
    QuadMeant(n, count, count);
    PlacedResolves(vtx, own, list.cmdHeader.vtxOffset, base, local);
    TailDrawn(list.cmdBuffer, list.cmdHeader, reserved, list.idxBuffer, |idx|, old(list.Events()));
  }

  lemma NoQuads(base: nat, n: nat)
    ensures StrokeVertices(n, QUAD, 0) == [] && Placed(base, QuadLocal(0)) == []
  {}

  lemma NextQuad(base: nat, n: nat, i: nat)
    ensures StrokeVertices(n, QUAD, i + 1) == StrokeVertices(n, QUAD, i) + SegmentVertices(n, QUAD, i)
    ensures Placed(base, QuadLocal(i + 1)) == Placed(base, QuadLocal(i)) + Placed(base + 4 * i, QUAD_LOCAL)
  {
    var seg := seq(6, j requires 0 <= j < 6 => 4 * i + QUAD_LOCAL[j]);
    PlacedSplit(base, QuadLocal(i), seg);
    assert Placed(base, seg) == Placed(base + 4 * i, QUAD_LOCAL);
  }

  datatype LinePath = Textured | Thin | Thick | Plain

  function PathOf(antiAliased: bool, useTexture: bool, thickLine: bool): LinePath {
    if !antiAliased then Plain else if useTexture then Textured else if thickLine then Thick else Thin
  }

  function SegmentCount(n: nat, closed: bool): nat { if closed || n == 0 then n else n - 1 }

  /** The vertices a polyline writes and the vertices its triangles mean, path by path. */
  function LineVertices(path: LinePath, n: nat, count: nat): seq<Vertex> {
    match path
    case Textured => PointVertices(n, 2)
    case Thin => PointVertices(n, 3)
    case Thick => PointVertices(n, 4)
    case Plain => StrokeVertices(n, QUAD, count)
  }

  function LineTriangles(path: LinePath, n: nat, count: nat): seq<Vertex> {
    match path
    case Textured => StrokeVertices(n, TEXTURED, count)
    case Thin => StrokeVertices(n, THIN, count)
    case Thick => StrokeVertices(n, THICK, count)
    case Plain => StrokeVertices(n, QUAD_TRIANGLES, count)
  }

  /** Every path of AddPolyline, open or closed, fills exactly what it reserved, and each triangle
      joins the two points of its own segment, the last one closing back to point 0. */
  method AddPolyline(list: List, pointsCount: int, transparent: bool, closed: bool, antiAliased: bool, useTexture: bool, thickLine: bool)
    requires list.Valid() && list.Based()
    requires pointsCount >= 2 ==>
               HasRoom(list, |LineVertices(PathOf(antiAliased, useTexture, thickLine), pointsCount, SegmentCount(pointsCount, closed))|,
                       antiAliased)
    modifies list
    ensures pointsCount < 2 || transparent ==> unchanged(list)
    ensures pointsCount >= 2 && !transparent ==>
              var path, count := PathOf(antiAliased, useTexture, thickLine), SegmentCount(pointsCount, closed);
              Emitted(list, LineVertices(path, pointsCount, count), LineTriangles(path, pointsCount, count))
  {
    hide Drawn, Tiled, StrokeVertices, PointVertices, Resolve;
    if pointsCount < 2 || transparent {
      return;
    }
    var count := if closed then pointsCount else pointsCount - 1;
    if antiAliased {
      if useTexture {
        StrokeSegments(list, pointsCount, count, 2, TEXTURED);
      } else if thickLine {
        StrokeSegments(list, pointsCount, count, 4, THICK);
      } else {
        StrokeSegments(list, pointsCount, count, 3, THIN);
      }
    } else {
      StrokeQuads(list, pointsCount, count);
    }
  }

  // ---- Filled convex polygons ----

  /** The triangle fan over points 0, i - 1 and i for i from 2 up to m. */
  function FanLocal(stride: nat, m: nat): (s: seq<nat>)
    ensures |s| == if m < 2 then 0 else 3 * (m - 2)
  {
    if m <= 2 then [] else FanLocal(stride, m - 1) + [At(stride, 0, 0), At(stride, m - 2, 0), At(stride, m - 1, 0)]
  }

  function FanVertices(m: nat): (s: seq<Vertex>)
    ensures |s| == if m < 2 then 0 else 3 * (m - 2)
  {
    if m <= 2 then [] else FanVertices(m - 1) + [Vertex(0, 0), Vertex(m - 2, 0), Vertex(m - 1, 0)]
  }

  lemma {:induction false} FanMeant(n: nat, stride: nat, m: nat)
    requires m <= n && stride > 0
    ensures AllBelow(FanLocal(stride, m), n * stride)
    ensures Meant(PointVertices(n, stride), FanLocal(stride, m)) == FanVertices(m)
  {
    hide At, PointVertices;
    if m > 2 {
      FanMeant(n, stride, m - 1);
      PointVertexAt(n, stride, 0, 0);
      PointVertexAt(n, stride, m - 2, 0);
      PointVertexAt(n, stride, m - 1, 0);
      var t := [At(stride, 0, 0), At(stride, m - 2, 0), At(stride, m - 1, 0)];
      assert Meant(PointVertices(n, stride), t) == [Vertex(0, 0), Vertex(m - 2, 0), Vertex(m - 1, 0)];
      MeantSplit(PointVertices(n, stride), FanLocal(stride, m - 1), t);
    }
  }

  /** The anti-aliasing fringe between each point and the one before it. */
  function Before(n: nat, i: nat): nat { if i == 0 then (if n == 0 then 0 else n - 1) else i - 1 }

  function FringeTriangles(n: nat, i: nat): (s: seq<nat>)
    ensures |s| == 6
  {
    var i0 := Before(n, i);
    [At(2, i, 0), At(2, i0, 0), At(2, i0, 1), At(2, i0, 1), At(2, i, 1), At(2, i, 0)]
  }

  function FringeLocal(n: nat, m: nat): (s: seq<nat>)
    ensures |s| == 6 * m
  {
    if m == 0 then [] else FringeLocal(n, m - 1) + FringeTriangles(n, m - 1)
  }

  function FringeVertices(n: nat, m: nat): (s: seq<Vertex>)
    ensures |s| == 6 * m
  {
    if m == 0 then [] else
      var i1, i0 := m - 1, Before(n, m - 1);
      FringeVertices(n, m - 1)
      + [Vertex(i1, 0), Vertex(i0, 0), Vertex(i0, 1), Vertex(i0, 1), Vertex(i1, 1), Vertex(i1, 0)]
  }

  lemma {:induction false} FringeMeant(n: nat, m: nat)
    requires m <= n
    ensures AllBelow(FringeLocal(n, m), n * 2)
    ensures Meant(PointVertices(n, 2), FringeLocal(n, m)) == FringeVertices(n, m)
  {
    hide At, PointVertices;
    if m > 0 {
      FringeMeant(n, m - 1);
      var i1, i0 := m - 1, Before(n, m - 1);
      PointVertexAt(n, 2, i1, 0);
      PointVertexAt(n, 2, i1, 1);
      PointVertexAt(n, 2, i0, 0);
      PointVertexAt(n, 2, i0, 1);
      assert Meant(PointVertices(n, 2), FringeTriangles(n, i1))
          == [Vertex(i1, 0), Vertex(i0, 0), Vertex(i0, 1), Vertex(i0, 1), Vertex(i1, 1), Vertex(i1, 0)];
      MeantSplit(PointVertices(n, 2), FringeLocal(n, m - 1), FringeTriangles(n, m - 1));
    }
  }

  method WriteFan(list: List, n: nat, stride: nat)
    requires list.Valid() && n >= 2 && list.idxWrite + 3 * (n - 2) <= |list.idxBuffer|
    modifies list`idxBuffer, list`idxWrite
    ensures list.Valid() && list.idxWrite == old(list.idxWrite) + 3 * (n - 2)
    ensures list.idxBuffer == old(list.idxBuffer)[..old(list.idxWrite)] + Placed(list.vtxCurrentIdx, FanLocal(stride, n))
                              + old(list.idxBuffer)[list.idxWrite..]
  {
    hide Drawn, Tiled, FanLocal, Placed;
    ghost var idx, start, base := list.idxBuffer, list.idxWrite, list.vtxCurrentIdx;
    NextFan(base, stride, 1);
    for i := 2 to n
      invariant list.Valid() && |list.idxBuffer| == |idx| && list.idxWrite == start + 3 * (i - 2)
      invariant list.idxBuffer == idx[..start] + Placed(base, FanLocal(stride, i)) + idx[start + 3 * (i - 2)..]
    {
      NextFan(base, stride, i);
      var cur := list.vtxCurrentIdx;
      var t := [Cast(cur), Cast(cur + (i - 1) * stride), Cast(cur + i * stride)];
      WrittenBehind(idx, start, Placed(base, FanLocal(stride, i)), t, list.idxBuffer);
      list.WriteIdx(t);
    }
  }

  lemma NextFan(base: nat, stride: nat, i: nat)
    requires i >= 1
    ensures i == 1 ==> Placed(base, FanLocal(stride, 2)) == []
    ensures i >= 2 ==>
              Placed(base, FanLocal(stride, i + 1)) == Placed(base, FanLocal(stride, i))
                + [Cast(base), Cast(base + (i - 1) * stride), Cast(base + i * stride)]
  {
    if i >= 2 {
      var t := [At(stride, 0, 0), At(stride, i - 1, 0), At(stride, i, 0)];
      PlacedSplit(base, FanLocal(stride, i), t);
      assert Placed(base, t) == [Cast(base), Cast(base + (i - 1) * stride), Cast(base + i * stride)];
    }
  }

  /** Two vertices and two fringe triangles per point, walking each point with its predecessor. */
  method WriteFringe(list: List, n: nat)
    requires list.Valid() && n >= 1
    requires list.vtxWrite + n * 2 <= |list.vtxBuffer| && list.idxWrite + 6 * n <= |list.idxBuffer|
    modifies list`idxBuffer, list`idxWrite, list`vtxBuffer, list`vtxWrite
    ensures list.Valid() && list.idxWrite == old(list.idxWrite) + 6 * n && list.vtxWrite == old(list.vtxWrite) + n * 2
    ensures list.vtxBuffer == old(list.vtxBuffer)[..old(list.vtxWrite)] + PointVertices(n, 2) + old(list.vtxBuffer)[list.vtxWrite..]
    ensures list.idxBuffer == old(list.idxBuffer)[..old(list.idxWrite)] + Placed(list.vtxCurrentIdx, FringeLocal(n, n))
                              + old(list.idxBuffer)[list.idxWrite..]
  {
    hide Drawn, Tiled, FringeLocal, FringeIndices, PointVertices, Placed;
    ghost var vtx, v0, idx, x0, base := list.vtxBuffer, list.vtxWrite, list.idxBuffer, list.idxWrite, list.vtxCurrentIdx;
    var i0, i1 := n - 1, 0;
    NoFringe(base, n);
    while i1 < n
      invariant i1 <= n && i0 == Before(n, i1) && list.Valid()
      invariant |list.idxBuffer| == |idx| && list.idxWrite == x0 + 6 * i1
      invariant |list.vtxBuffer| == |vtx| && list.vtxWrite == v0 + i1 * 2
      invariant list.vtxBuffer == vtx[..v0] + PointVertices(i1, 2) + vtx[v0 + i1 * 2..]
      invariant list.idxBuffer == idx[..x0] + Placed(base, FringeLocal(n, i1)) + idx[x0 + 6 * i1..]
    {
      NextPoint(i1);
      NextFringe(base, n, i1);
      WrittenBehind(vtx, v0, PointVertices(i1, 2), [Vertex(i1, 0), Vertex(i1, 1)], list.vtxBuffer);
      list.WriteVtx([Vertex(i1, 0), Vertex(i1, 1)]);
      var t := FringeIndices(list.vtxCurrentIdx, i0, i1);
      WrittenBehind(idx, x0, Placed(base, FringeLocal(n, i1)), t, list.idxBuffer);
      list.WriteIdx(t);
      i0, i1 := i1, i1 + 1;
    }
  }

  lemma NoFringe(base: nat, n: nat)
    ensures Placed(base, FringeLocal(n, 0)) == [] && PointVertices(0, 2) == []
  {}

  lemma NextPoint(i: nat)
    ensures PointVertices(i + 1, 2) == PointVertices(i, 2) + [Vertex(i, 0), Vertex(i, 1)]
  {
    assert seq(2, r requires 0 <= r => Vertex(i, r)) == [Vertex(i, 0), Vertex(i, 1)];
  }

  /** The six fringe indices of a point, as the code writes them. */
  function FringeIndices(base: nat, i0: nat, i1: nat): (s: seq<Idx>)
    ensures |s| == 6
  {
    [Cast(base + i1 * 2), Cast(base + i0 * 2), Cast(base + 1 + i0 * 2),
     Cast(base + 1 + i0 * 2), Cast(base + 1 + i1 * 2), Cast(base + i1 * 2)]
  }

  lemma FringePlaced(base: nat, n: nat, i: nat)
    ensures Placed(base, FringeTriangles(n, i)) == FringeIndices(base, Before(n, i), i)
  {}

  lemma NextFringe(base: nat, n: nat, i: nat)
    ensures Placed(base, FringeLocal(n, i + 1)) == Placed(base, FringeLocal(n, i)) + FringeIndices(base, Before(n, i), i)
  {
    hide Placed, FringeTriangles, FringeIndices;
    PlacedSplit(base, FringeLocal(n, i), FringeTriangles(n, i));
    FringePlaced(base, n, i);
  }

  lemma PlacedNothing(base: nat)
    ensures Placed(base, []) == []
  {}

  lemma FillMeant(n: nat, stride: nat, antiAliased: bool)
    requires n >= 2 && stride == if antiAliased then 2 else 1
    ensures var local := FanLocal(stride, n) + if antiAliased then FringeLocal(n, n) else [];
            AllBelow(local, n * stride)
            && Meant(PointVertices(n, stride), local)
               == FanVertices(n) + if antiAliased then FringeVertices(n, n) else []
  {
    hide Meant, FanLocal, FringeLocal, FanVertices, FringeVertices;
    FanMeant(n, stride, n);
    FringeMeant(n, n);
    if antiAliased {
      MeantSplit(PointVertices(n, stride), FanLocal(stride, n), FringeLocal(n, n));
    } else {
      assert FanLocal(stride, n) + [] == FanLocal(stride, n) && FanVertices(n) + [] == FanVertices(n);
    }
  }

  /** A filled polygon: a fan over its points and, anti-aliased, a fringe around them. */
  method AddConvexPolyFilled(list: List, pointsCount: int, transparent: bool, antiAliased: bool)
    requires list.Valid() && list.Based()
    requires pointsCount >= 3 ==> HasRoom(list, pointsCount * (if antiAliased then 2 else 1), true)
    modifies list
    ensures pointsCount < 3 || transparent ==> unchanged(list)
    ensures pointsCount >= 3 && !transparent ==>
              Emitted(list, PointVertices(pointsCount, if antiAliased then 2 else 1),
                      FanVertices(pointsCount) + if antiAliased then FringeVertices(pointsCount, pointsCount) else [])
  {
    hide Drawn, Tiled, DrawAll, FanLocal, FringeLocal, PointVertices, Placed, Meant, FanVertices, FringeVertices, Resolve, AllBelow;
    if pointsCount < 3 || transparent {
      return;
    }
    var n: nat := pointsCount;
    var stride := if antiAliased then 2 else 1;
    ghost var vtx, idx := list.vtxBuffer, list.idxBuffer;
    list.PrimReserve((n - 2) * 3 + (if antiAliased then n * 6 else 0), n * stride);
    ghost var reserved, unwritten, base := list.idxBuffer, list.vtxBuffer, list.vtxCurrentIdx;
    assert base + n * stride <= INDEX_RANGE && Cast(n * stride) == n * stride;
    hide HasRoom, Reaches, Cast;
    if !antiAliased {
      WritePoints(list, n, stride);
    }
    WriteFan(list, n, stride);
    if antiAliased {
      WriteFringe(list, n);
    }
    list.vtxCurrentIdx := list.vtxCurrentIdx + Cast(n * stride);
    ghost var fan, fringe := FanLocal(stride, n), if antiAliased then FringeLocal(n, n) else [];
    PlacedSplit(base, fan, fringe);
    PlacedNothing(base);
    assert list.idxBuffer == idx + Placed(base, fan + fringe);
    assert list.vtxBuffer == vtx + PointVertices(n, stride);
    FillMeant(n, stride, antiAliased);
    Completed(list.cmdBuffer, list.cmdHeader, vtx, PointVertices(n, stride), idx, reserved, list.idxBuffer, base,
              fan + fringe, old(list.Events()));
  }
}
