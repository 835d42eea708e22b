/** Whole runs over a split draw list: any interleaving of channel switches, state changes and
    primitives, then the merge. */
module DrawLayers {
  import opened Common
  import opened DrawCommands
  import opened DrawList
  import opened DrawPrimitives
  import opened DrawSplitter

  datatype Op =
    | Switch(channel: nat)
    | PushClip(rect: ClipRect, intersect: bool)
    | PopClip
    | PushTexture(texture: TextureId)
    | PopTexture
    | UserCall(callback: Callback)
    | Rectangle
    | Line(points: nat, closed: bool, antiAliased: bool, useTexture: bool, thick: bool)
    | Polygon(points: nat, antiAliased: bool)

  /** The clip rectangle and texture in force, the stacks they came from, and the vertices so far. */
  datatype Look = Look(clip: ClipRect, texture: TextureId, clips: seq<ClipRect>, textures: seq<TextureId>, vertices: nat)

  /** What a run does not change: the screen, whether the vertex offset may move, and the offset it
      starts with. */
  datatype Frame = Frame(fullscreen: ClipRect, allowVtxOffset: bool, vtxOffset: nat)

  /** A drawing operation of a run, the channel the switches before it aim it at, the look the
      operations up to it leave, and whether 16-bit indices reach all of its vertices. */
  datatype Plan = Plan(channel: nat, op: Op, look: Look, fits: bool)

  /** An operation, the channel it drew into, the header it drew under and what it drew. */
  datatype Entry = Entry(channel: nat, op: Op, header: Header, events: seq<Event>)

  /** How many vertices a shape writes. */
  function VertexCount(op: Op): nat {
    match op
    case Rectangle => 4
    case Line(n, closed, antiAliased, useTexture, thick) =>
      if n < 2 then 0 else |LineVertices(PathOf(antiAliased, useTexture, thick), n, SegmentCount(n, closed))|
    case Polygon(n, antiAliased) => if n < 3 then 0 else n * (if antiAliased then 2 else 1)
    case _ => 0
  }

  /** Whether the code casts a shape's vertex count to 16 bits. */
  predicate CountIsCast(op: Op) { op.Polygon? || (op.Line? && op.antiAliased) }

  /** Whether 16-bit indices reach every vertex of a shape. */
  predicate Fits(l: Look, frame: Frame, op: Op) {
    Reaches(frame.allowVtxOffset, l.vertices - frame.vtxOffset, VertexCount(op), CountIsCast(op))
  }

  function NextLook(l: Look, frame: Frame, op: Op): Look {
    match op
    case PushClip(rect, intersect) =>
      var c := ClipOf(rect, l.clip, intersect);
      l.(clip := c, clips := l.clips + [c])
    case PopClip =>
      if l.clips == [] then l
      else l.(clips := Front(l.clips), clip := if |l.clips| == 1 then frame.fullscreen else Last(Front(l.clips)))
    case PushTexture(texture) => l.(texture := texture, textures := l.textures + [texture])
    case PopTexture =>
      if l.textures == [] then l
      else l.(textures := Front(l.textures), texture := if |l.textures| == 1 then NO_TEXTURE else Last(Front(l.textures)))
    case _ => if Fits(l, frame, op) then l.(vertices := l.vertices + VertexCount(op)) else l
  }

  function LookAfter(ops: seq<Op>, start: Look, frame: Frame): Look {
    if ops == [] then start else NextLook(LookAfter(Front(ops), start, frame), frame, Last(ops))
  }

  function CurrentAfter(ops: seq<Op>, n: nat): nat {
    if ops == [] then 0
    else if Last(ops).Switch? && Last(ops).channel < n then Last(ops).channel
    else CurrentAfter(Front(ops), n)
  }

  function Planned(ops: seq<Op>, n: nat, start: Look, frame: Frame): seq<Plan> {
    if ops == [] then []
    else
      var plans, before := Planned(Front(ops), n, start, frame), LookAfter(Front(ops), start, frame);
      if Last(ops).Switch? then plans
      else plans + [Plan(CurrentAfter(Front(ops), n), Last(ops), LookAfter(ops, start, frame), Fits(before, frame, Last(ops)))]
  }

  ghost function LookOf(list: List): Look
    reads list
  {
    Look(list.cmdHeader.clip, list.cmdHeader.texture, list.clipRectStack, list.textureIdStack, |list.vtxBuffer|)
  }

  ghost function FrameOf(list: List): Frame
    reads list
  {
    Frame(list.fullscreen, list.allowVtxOffset, if list.allowVtxOffset then 0 else list.cmdHeader.vtxOffset)
  }

  /** The vertices a shape's triangles mean. */
  function ShapeTriangles(op: Op): seq<Vertex> {
    match op
    case Rectangle => [Vertex(0, 0), Vertex(1, 0), Vertex(2, 0), Vertex(0, 0), Vertex(2, 0), Vertex(3, 0)]
    case Line(n, closed, antiAliased, useTexture, thick) =>
      if n < 2 then []
      else LineTriangles(PathOf(antiAliased, useTexture, thick), n, SegmentCount(n, closed))
    case Polygon(n, antiAliased) =>
      if n < 3 then [] else FanVertices(n) + if antiAliased then FringeVertices(n, n) else []
    case _ => []
  }

  /** A state change draws nothing, a callback is called once, and a shape that fits draws its triangles:
      indices under one header that resolve to the vertices meant. */
  ghost predicate Performs(op: Op, fits: bool, header: Header, events: seq<Event>, vtx: seq<Vertex>) {
    if op.UserCall? then events == [Call(op.callback)]
    else exists idx :: events == DrawAll(header, idx)
                       && Resolve(vtx, header.vtxOffset, idx) == if fits then ShapeTriangles(op) else []
  }

  /** Everything a channel received, in the order it was drawn. */
  function Received(log: seq<Entry>, c: nat): seq<Event> {
    if log == [] then []
    else Received(Front(log), c) + if Last(log).channel == c then Last(log).events else []
  }

  function AllReceived(log: seq<Entry>, n: nat): (layers: seq<seq<Event>>)
    ensures |layers| == n
  {
    seq(n, c requires 0 <= c => Received(log, c))
  }

  /** The clip rectangle and texture are kept; vertices and indices only grow. */
  twostate predicate Grew(list: List)
    reads list
  {
    && list.Valid() && list.Based() && FrameOf(list) == old(FrameOf(list))
    && old(list.Events()) <= list.Events() && old(list.vtxBuffer) <= list.vtxBuffer
  }

  /** One shape that fits. */
  method DrawShape(list: List, op: Op) returns (ghost idx: seq<Idx>)
    requires list.Valid() && list.Based() && (op.Rectangle? || op.Line? || op.Polygon?) && HasRoom(list, VertexCount(op), CountIsCast(op))
    modifies list
    ensures Grew(list) && list.Events() == old(list.Events()) + DrawAll(list.cmdHeader, idx)
    ensures Resolve(list.vtxBuffer, list.cmdHeader.vtxOffset, idx) == ShapeTriangles(op)
    ensures LookOf(list) == old(LookOf(list)).(vertices := |old(list.vtxBuffer)| + VertexCount(op))
  {
    hide Drawn, Tiled, DrawAll, Resolve, LineVertices, LineTriangles, PointVertices, FanVertices, FringeVertices;
    ghost var before := list.idxBuffer;
    NothingDrawn(list.cmdHeader, list.vtxBuffer);
    match op {
      case Line(points, closed, antiAliased, useTexture, thick) =>
        AddPolyline(list, points, false, closed, antiAliased, useTexture, thick);
      case Polygon(points, antiAliased) =>
        AddConvexPolyFilled(list, points, false, antiAliased);
      case Rectangle =>
        PrimRect(list);
      case _ =>
    }
    idx := list.idxBuffer[|before|..];
  }

  /** Operations a caller may not issue are skipped: a pop of an empty stack, a shape that does not fit. */
  method Apply(list: List, op: Op)
    requires list.Valid() && list.Based() && !op.Switch?
    modifies list
    ensures Grew(list)
    ensures Performs(op, Fits(old(LookOf(list)), FrameOf(list), op), list.cmdHeader,
                     list.Events()[|old(list.Events())|..], list.vtxBuffer)
    ensures LookOf(list) == NextLook(old(LookOf(list)), FrameOf(list), op)
  {
    hide Drawn, Tiled, DrawAll, Resolve, VertexCount, HeaderChanged;
    ghost var events, idx := list.Events(), [];
    match op {
      case Switch(_) =>
      case PushClip(rect, intersect) =>
        list.PushClipRect(rect, intersect);
      case PopClip =>
        if list.clipRectStack != [] {
          list.PopClipRect();
        }
      case PushTexture(texture) =>
        list.PushTextureID(texture);
      case PopTexture =>
        if list.textureIdStack != [] {
          list.PopTextureID();
        }
      case UserCall(callback) =>
        list.AddCallback(callback);
      case _ =>
        if HasRoom(list, VertexCount(op), CountIsCast(op)) {
          idx := DrawShape(list, op);
        }
    }
    StatesWriteNothing(op);
    NothingDrawn(list.cmdHeader, list.vtxBuffer);
    if !op.UserCall? {
      assert list.Events()[|events|..] == DrawAll(list.cmdHeader, idx);
    }
  }

  lemma StatesWriteNothing(op: Op)
    ensures !(op.Rectangle? || op.Line? || op.Polygon?) ==> VertexCount(op) == 0 && ShapeTriangles(op) == []
  {}

  lemma NothingDrawn(h: Header, vtx: seq<Vertex>)
    ensures DrawAll(h, []) == [] && Resolve(vtx, h.vtxOffset, []) == []
  {}

  /** Each channel holds what it received, channel 0 behind what was drawn before the split. */
  ghost predicate Holds(layers: seq<seq<Event>>, start: seq<Event>, log: seq<Entry>) {
    forall c: nat :: c < |layers| ==> layers[c] == (if c == 0 then start else []) + Received(log, c)
  }

  lemma HoldsNext(before: seq<seq<Event>>, after: seq<seq<Event>>, start: seq<Event>, log: seq<Entry>, e: Entry)
    requires Holds(before, start, log) && |after| == |before|
    requires forall c: nat :: c < |after| ==> after[c] == before[c] + if c == e.channel then e.events else []
    ensures Holds(after, start, log + [e])
  {
    forall c: nat | c < |after| ensures after[c] == (if c == 0 then start else []) + Received(log + [e], c) {
      assert Front(log + [e]) == log;
    }
  }

  /** One operation drawn into the current channel. */
  method DrawInto(list: List, splitter: Splitter, op: Op) returns (ghost e: Entry)
    requires list.Valid() && list.Based() && !op.Switch?
    requires splitter.Valid() && splitter.count > 1
    modifies list
    ensures list.Valid() && list.Based() && old(list.vtxBuffer) <= list.vtxBuffer
    ensures e.channel == splitter.current && e.op == op && e.header == list.cmdHeader
    ensures Performs(op, Fits(old(LookOf(list)), FrameOf(list), op), e.header, e.events, list.vtxBuffer)
    ensures FrameOf(list) == old(FrameOf(list))
    ensures LookOf(list) == NextLook(old(LookOf(list)), FrameOf(list), op)
    ensures forall c: nat :: c < splitter.count ==>
              splitter.Layers(list)[c] == old(splitter.Layers(list))[c] + if c == e.channel then e.events else []
  {
    hide Performs, NextLook, Fits, Drawn, Tiled;
    ghost var events := list.Events();
    Apply(list, op);
    e := Entry(splitter.current, op, list.cmdHeader, list.Events()[|events|..]);
  }

  /** After any run between Split and Merge, the one remaining buffer draws what was drawn before the
      split and in channel 0, then channel 1, and so on, each channel in the order it was drawn. */
  method RunLayers(list: List, splitter: Splitter, channelsCount: nat, ops: seq<Op>) returns (ghost log: seq<Entry>)
    requires list.Valid() && list.Based()
    requires splitter.Valid() && splitter.count <= 1 && channelsCount >= 2
    modifies list, splitter
    ensures list.Valid() && list.Based() && splitter.Valid() && splitter.count == 1
    ensures Follows(log, Planned(ops, channelsCount, old(LookOf(list)), old(FrameOf(list))), list.vtxBuffer)
    ensures list.Events() == old(list.Events()) + Flatten(AllReceived(log, channelsCount))
  {
    hide Drawn, Tiled, Received, Performs, Follows, CurrentAfter, Flatten, Planned, LookAfter, NextLook, Fits, Holds;
    ghost var start, look, frame := list.Events(), LookOf(list), FrameOf(list);
    splitter.Split(list, channelsCount);
    log := [];
    NothingYet(splitter.Layers(list), start, channelsCount, look, frame, list.vtxBuffer);
    for i := 0 to |ops|
      invariant list.Valid() && list.Based() && splitter.Valid() && splitter.count == channelsCount
      invariant splitter.current == CurrentAfter(ops[..i], channelsCount)
      invariant FrameOf(list) == frame && LookOf(list) == LookAfter(ops[..i], look, frame)
      invariant Follows(log, Planned(ops[..i], channelsCount, look, frame), list.vtxBuffer)
      invariant Holds(splitter.Layers(list), start, log)
    {
      ghost var layers, vtx := splitter.Layers(list), list.vtxBuffer;
      assert ops[..i + 1] == ops[..i] + [ops[i]];
      PlannedNext(ops[..i], ops[i], channelsCount, look, frame);
      if ops[i].Switch? {
        if ops[i].channel < channelsCount {
          splitter.SetCurrentChannel(list, ops[i].channel);
        }
      } else {
        ghost var plans := Planned(ops[..i], channelsCount, look, frame);
        ghost var fits := Fits(LookOf(list), frame, ops[i]);
        ghost var e := DrawInto(list, splitter, ops[i]);
        HoldsNext(layers, splitter.Layers(list), start, log, e);
        FollowsNext(log, plans, Plan(e.channel, ops[i], LookOf(list), fits), vtx, list.vtxBuffer, e);
        log := log + [e];
      }
    }
    assert ops[..|ops|] == ops;
    HoldsFlat(splitter.Layers(list), start, log);
    splitter.Merge(list);
  }

  lemma HoldsFlat(layers: seq<seq<Event>>, start: seq<Event>, log: seq<Entry>)
    requires Holds(layers, start, log) && layers != []
    ensures Flatten(layers) == start + Flatten(AllReceived(log, |layers|))
  {
    hide Flatten, Received;
    StartInFront(layers, start, AllReceived(log, |layers|));
  }

  lemma NothingYet(layers: seq<seq<Event>>, start: seq<Event>, n: nat, look: Look, frame: Frame, vtx: seq<Vertex>)
    requires n > 0 && layers == [start] + seq(n - 1, _ => [])
    ensures CurrentAfter([], n) == 0 && LookAfter([], look, frame) == look
    ensures Follows([], Planned([], n, look, frame), vtx) && Holds(layers, start, [])
  {}

  lemma PlannedNext(ops: seq<Op>, op: Op, n: nat, look: Look, frame: Frame)
    ensures CurrentAfter(ops + [op], n) == if op.Switch? && op.channel < n then op.channel else CurrentAfter(ops, n)
    ensures LookAfter(ops + [op], look, frame) == NextLook(LookAfter(ops, look, frame), frame, op)
    ensures op.Switch? ==> LookAfter(ops + [op], look, frame) == LookAfter(ops, look, frame)
    ensures Planned(ops + [op], n, look, frame) ==
            if op.Switch? then Planned(ops, n, look, frame)
            else Planned(ops, n, look, frame)
                 + [Plan(CurrentAfter(ops, n), op, LookAfter(ops + [op], look, frame), Fits(LookAfter(ops, look, frame), frame, op))]
  {
    assert Front(ops + [op]) == ops;
  }

  /** A switch to a channel that exists aims everything after it there, one to any other channel is ignored,
      and no drawing operation is left out. */
  lemma SwitchAims(ops: seq<Op>, c: nat, op: Op, n: nat, look: Look, frame: Frame)
    requires !op.Switch?
    ensures var before, plans := Planned(ops, n, look, frame), Planned(ops + [Switch(c)] + [op], n, look, frame);
            && |plans| == |before| + 1 && plans[..|before|] == before && plans[|before|].op == op
            && plans[|before|].channel == if c < n then c else CurrentAfter(ops, n)
    ensures var plans := Planned(ops + [op] + [op], n, look, frame);
            |plans| >= 2 && plans[|plans| - 1].channel == plans[|plans| - 2].channel == CurrentAfter(ops, n)
    ensures CurrentAfter([], n) == 0
  {
    hide NextLook, Fits, CurrentAfter, Planned, LookAfter;
    PlannedNext(ops, Switch(c), n, look, frame);
    PlannedNext(ops + [Switch(c)], op, n, look, frame);
    PlannedNext(ops, op, n, look, frame);
    PlannedNext(ops + [op], op, n, look, frame);
    AimedFirst(n);
  }

  lemma AimedFirst(n: nat)
    ensures CurrentAfter([], n) == 0
  {}

  /** The log lists the drawing operations of the run in order, each in the channel it was aimed at,
      under the clip rectangle and texture in force, performed as it should be. */
  ghost predicate Follows(log: seq<Entry>, plans: seq<Plan>, vtx: seq<Vertex>) {
    && |log| == |plans|
    && forall k :: 0 <= k < |log| ==>
         && Kept(log[k], plans[k])
         && Performs(log[k].op, plans[k].fits, log[k].header, log[k].events, vtx)
  }

  predicate Kept(e: Entry, p: Plan) {
    e.op == p.op && e.channel == p.channel && e.header.clip == p.look.clip && e.header.texture == p.look.texture
  }

  /** Later vertices do not change what earlier indices resolve to. */
  lemma StillPerforms(e: Entry, fits: bool, vtx: seq<Vertex>, vtx': seq<Vertex>)
    requires vtx <= vtx' && Performs(e.op, fits, e.header, e.events, vtx)
    requires forall k :: 0 <= k < |ShapeTriangles(e.op)| ==> ShapeTriangles(e.op)[k] != Unwritten
    ensures Performs(e.op, fits, e.header, e.events, vtx')
  {
    if !e.op.UserCall? {
      var idx :| e.events == DrawAll(e.header, idx) && Resolve(vtx, e.header.vtxOffset, idx) == if fits then ShapeTriangles(e.op) else [];
      forall k | 0 <= k < |idx| ensures VertexAt(vtx', e.header.vtxOffset + idx[k]) == VertexAt(vtx, e.header.vtxOffset + idx[k]) {
        assert Resolve(vtx, e.header.vtxOffset, idx)[k] != Unwritten;
      }
      assert Resolve(vtx', e.header.vtxOffset, idx) == Resolve(vtx, e.header.vtxOffset, idx);
    }
  }

  lemma FollowsNext(log: seq<Entry>, plans: seq<Plan>, plan: Plan, vtx: seq<Vertex>, vtx': seq<Vertex>, e: Entry)
    requires Follows(log, plans, vtx) && vtx <= vtx' && Kept(e, plan) && Performs(e.op, plan.fits, e.header, e.events, vtx')
    ensures Follows(log + [e], plans + [plan], vtx')
  {
    hide Performs, ShapeTriangles;
    forall k | 0 <= k < |log| ensures Performs(log[k].op, plans[k].fits, log[k].header, log[k].events, vtx') {
      TrianglesWritten(log[k].op);
      StillPerforms(log[k], plans[k].fits, vtx, vtx');
    }
  }

  ghost predicate AllWritten(vs: seq<Vertex>) {
    forall k :: 0 <= k < |vs| ==> vs[k] != Unwritten
  }

  lemma {:induction false} StrokeWritten(n: nat, corners: seq<Corner>, m: nat)
    ensures AllWritten(StrokeVertices(n, corners, m))
  {
    if m > 0 {
      StrokeWritten(n, corners, m - 1);
    }
  }

  lemma {:induction false} FillWritten(n: nat, m: nat)
    ensures AllWritten(FanVertices(m)) && AllWritten(FringeVertices(n, m))
  {
    if m > 0 {
      FillWritten(n, m - 1);
    }
  }

  lemma TrianglesWritten(op: Op)
    ensures AllWritten(ShapeTriangles(op))
  {
    match op {
      case Line(n, closed, _, _, _) =>
        StrokeWritten(n, TEXTURED, SegmentCount(n, closed));
        StrokeWritten(n, THIN, SegmentCount(n, closed));
        StrokeWritten(n, THICK, SegmentCount(n, closed));
        StrokeWritten(n, QUAD_TRIANGLES, SegmentCount(n, closed));
      case Polygon(n, _) =>
        FillWritten(n, n);
      case _ =>
    }
  }

  lemma {:induction false} StartInFront<T>(layers: seq<seq<T>>, start: seq<T>, received: seq<seq<T>>)
    requires |layers| == |received| > 0
    requires forall c: nat :: c < |layers| ==> layers[c] == (if c == 0 then start else []) + received[c]
    ensures Flatten(layers) == start + Flatten(received)
    decreases |layers|
  {
    hide Flatten;
    if |layers| == 1 {
      assert layers == [layers[0]] && received == [received[0]];
      OneLayer(layers[0]);
      OneLayer(received[0]);
    } else {
      var f, g, x := Front(layers), Front(received), Last(layers);
      StartInFront(f, start, g);
      assert x == [] + Last(received) == Last(received);
      assert layers == f + [x] && received == g + [x];
      FlattenLast(f, x);
      FlattenLast(g, x);
    }
  }
}
