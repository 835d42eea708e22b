/** What the triangles of the primitives cover (imgui_draw.cpp): every segment of a line, every edge of an
    anti-aliasing fringe and every filled polygon is covered once, without gap or overlap. */
module DrawMeshes {
  import opened Common
  import opened DrawList
  import opened DrawPrimitives

  /** Six vertices are two triangles that together have the four corners of the band between points p and q
      and roles a and b, and that share one of its diagonals. */
  predicate CutByDiagonal(t: seq<Vertex>, p: nat, q: nat, a: nat, b: nat)
    requires |t| == 6
  {
    var first, second := {t[0], t[1], t[2]}, {t[3], t[4], t[5]};
    && first + second == {Vertex(p, a), Vertex(p, b), Vertex(q, a), Vertex(q, b)}
    && (first * second == {Vertex(p, a), Vertex(q, b)} || first * second == {Vertex(p, b), Vertex(q, a)})
  }

  /** The pairs of neighbouring roles of each anti-aliased path: the two edges of a textured line; the centre
      and either edge of a thin one; the core of a thick one and the fringe on either side. */
  function Bands(path: LinePath): seq<(nat, nat)> {
    match path
    case Textured => [(0, 1)]
    case Thin => [(0, 2), (1, 0)]
    case Thick => [(1, 2), (0, 1), (2, 3)]
    case Plain => []
  }

  function CornerVertex(n: nat, i: nat, c: Corner): Vertex { Vertex(PointOf(n, i, c), c.role) }

  lemma {:induction false} StrokeAt(n: nat, corners: seq<Corner>, m: nat, i: nat, k: nat)
    requires i < m && k < |corners|
    ensures i * |corners| + k < m * |corners|
    ensures StrokeVertices(n, corners, m)[i * |corners| + k] == CornerVertex(n, i, corners[k])
    decreases m
  {
    Distribute(m - 1, |corners|);
    if i < m - 1 {
      StrokeAt(n, corners, m - 1, i, k);
    }
  }

  /** Six corners in a row of a segment's table, in the segment's part of the triangles. */
  lemma SegmentPart(n: nat, corners: seq<Corner>, m: nat, i: nat, from: nat)
    requires i < m && from + 6 <= |corners|
    ensures i * |corners| + from + 6 <= m * |corners|
    ensures StrokeVertices(n, corners, m)[i * |corners| + from..i * |corners| + from + 6]
         == [CornerVertex(n, i, corners[from]), CornerVertex(n, i, corners[from + 1]),
             CornerVertex(n, i, corners[from + 2]), CornerVertex(n, i, corners[from + 3]),
             CornerVertex(n, i, corners[from + 4]), CornerVertex(n, i, corners[from + 5])]
  {
    hide StrokeVertices, CornerVertex;
    StrokeAt(n, corners, m, i, from);
    StrokeAt(n, corners, m, i, from + 1);
    StrokeAt(n, corners, m, i, from + 2);
    StrokeAt(n, corners, m, i, from + 3);
    StrokeAt(n, corners, m, i, from + 4);
    StrokeAt(n, corners, m, i, from + 5);
    SixInARow(StrokeVertices(n, corners, m), i * |corners| + from);
  }

  lemma SixInARow<T>(s: seq<T>, at: nat)
    requires at + 6 <= |s|
    ensures s[at..at + 6] == [s[at], s[at + 1], s[at + 2], s[at + 3], s[at + 4], s[at + 5]]
  {}

  /** Each segment of an anti-aliased line covers each of its bands with exactly two triangles, between its
      own two points; the last segment of a closed line ends at point 0. */
  lemma LineBand(path: LinePath, n: nat, count: nat, i: nat, j: nat)
    requires !path.Plain? && n >= 2 && i < count <= n && j < |Bands(path)|
    ensures var t, per := LineTriangles(path, n, count), 6 * |Bands(path)|;
            && |t| == count * per && i * per + 6 * j + 6 <= |t|
            && CutByDiagonal(t[i * per + 6 * j..i * per + 6 * j + 6], i, if i + 1 == n then 0 else i + 1,
                             Bands(path)[j].0, Bands(path)[j].1)
  {
    hide StrokeVertices;
    match path {
      case Textured => SegmentPart(n, TEXTURED, count, i, 6 * j);
      case Thin => SegmentPart(n, THIN, count, i, 6 * j);
      case Thick => SegmentPart(n, THICK, count, i, 6 * j);
    }
  }

  /** Each segment of a plain line covers the rectangle of the four vertices written for it with two
      triangles that share a diagonal. */
  lemma PlainSegment(n: nat, count: nat, i: nat)
    requires n >= 2 && i < count <= n
    ensures var t, v, q := LineTriangles(Plain, n, count), LineVertices(Plain, n, count), if i + 1 == n then 0 else i + 1;
            && |t| == 6 * count && |v| == 4 * count
            && v[4 * i..4 * i + 4] == [Vertex(i, 0), Vertex(q, 1), Vertex(q, 2), Vertex(i, 3)]
            && t[6 * i..6 * i + 6]
               == [v[4 * i], v[4 * i + 1], v[4 * i + 2], v[4 * i], v[4 * i + 2], v[4 * i + 3]]
  {
    hide StrokeVertices;
    SegmentPart(n, QUAD_TRIANGLES, count, i, 0);
    StrokeAt(n, QUAD, count, i, 0);
    StrokeAt(n, QUAD, count, i, 1);
    StrokeAt(n, QUAD, count, i, 2);
    StrokeAt(n, QUAD, count, i, 3);
  }

  /** The sizes of the reservations. */
  lemma LineSizes(n: nat, closed: bool, antiAliased: bool, useTexture: bool, thick: bool)
    ensures SegmentCount(n, closed) == if closed || n == 0 then n else n - 1
    ensures var path, count := PathOf(antiAliased, useTexture, thick), SegmentCount(n, closed);
            && |LineVertices(path, n, count)| == (if !antiAliased then 4 * count else if useTexture then 2 * n
                                                  else if thick then 4 * n else 3 * n)
            && |LineTriangles(path, n, count)| == count * (if !antiAliased || useTexture then 6 else if thick then 18 else 12)
  {}

  /** The first segment of each path, vertex by vertex. */
  lemma KnownSegments()
    ensures LineTriangles(Textured, 2, 1)
         == [Vertex(1, 0), Vertex(0, 0), Vertex(0, 1), Vertex(1, 1), Vertex(0, 1), Vertex(1, 0)]
    ensures LineTriangles(Thin, 2, 1)
         == [Vertex(1, 0), Vertex(0, 0), Vertex(0, 2), Vertex(0, 2), Vertex(1, 2), Vertex(1, 0),
             Vertex(1, 1), Vertex(0, 1), Vertex(0, 0), Vertex(0, 0), Vertex(1, 0), Vertex(1, 1)]
    ensures LineTriangles(Thick, 2, 1)
         == [Vertex(1, 1), Vertex(0, 1), Vertex(0, 2), Vertex(0, 2), Vertex(1, 2), Vertex(1, 1),
             Vertex(1, 1), Vertex(0, 1), Vertex(0, 0), Vertex(0, 0), Vertex(1, 0), Vertex(1, 1),
             Vertex(1, 2), Vertex(0, 2), Vertex(0, 3), Vertex(0, 3), Vertex(1, 3), Vertex(1, 2)]
  {
    OneSegment(TEXTURED);
    OneSegment(THIN);
    OneSegment(THICK);
  }

  lemma OneSegment(corners: seq<Corner>)
    ensures StrokeVertices(2, corners, 1) == SegmentVertices(2, corners, 0)
  {
    assert StrokeVertices(2, corners, 0) == [];
  }

  // ---- Filled polygons ----

  /** Triangle k of a fan joins the first point with the two points k + 1 and k + 2, so neighbouring triangles
      share a side and every point is reached. */
  lemma {:induction false} FanAt(m: nat, k: nat)
    requires k + 2 < m
    ensures |FanVertices(m)| == 3 * (m - 2)
    ensures FanVertices(m)[3 * k..3 * k + 3] == [Vertex(0, 0), Vertex(k + 1, 0), Vertex(k + 2, 0)]
  {
    if k + 3 < m {
      FanAt(m - 1, k);
      assert FanVertices(m)[3 * k..3 * k + 3] == FanVertices(m - 1)[3 * k..3 * k + 3];
    }
  }

  /** The fringe covers the band along every edge, the edge from the last point to the first included. */
  lemma {:induction false} FringeBand(n: nat, m: nat, i: nat)
    requires n >= 2 && i < m <= n
    ensures CutByDiagonal(FringeVertices(n, m)[6 * i..6 * i + 6], i, if i == 0 then n - 1 else i - 1, 0, 1)
    decreases m
  {
    if i < m - 1 {
      FringeBand(n, m - 1, i);
      assert FringeVertices(n, m)[6 * i..6 * i + 6] == FringeVertices(n, m - 1)[6 * i..6 * i + 6];
    } else {
      var q := if i == 0 then n - 1 else i - 1;
      assert FringeVertices(n, m)[6 * i..6 * i + 6]
          == [Vertex(i, 0), Vertex(q, 0), Vertex(q, 1), Vertex(q, 1), Vertex(i, 1), Vertex(i, 0)];
    }
  }

  /** The vertices of a shape, in the order they are written: all roles of one point, then the next point. */
  lemma PointVertexIs(n: nat, stride: nat, point: nat, role: nat)
    requires point < n && role < stride
    ensures |PointVertices(n, stride)| == n * stride && point * stride + role < n * stride
    ensures PointVertices(n, stride)[point * stride + role] == Vertex(point, role)
  {
    PointVertexAt(n, stride, point, role);
  }
}
