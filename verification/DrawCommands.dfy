/** Draw commands and what they draw. A command buffer over an index buffer stands for a sequence
    of events: one per index, with the header it is drawn under, and one per user callback. */
module DrawCommands {
  import opened Common

  datatype ClipRect = ClipRect(x: real, y: real, z: real, w: real)

  type TextureId = nat
  type Idx = n: nat | n < 0x1_0000

  /** The fields the code compares and copies as one block of memory. */
  datatype Header = Header(clip: ClipRect, texture: TextureId, vtxOffset: nat)
  datatype Callback = Callback(function_: nat, data: nat)
  datatype Cmd = Cmd(header: Header, idxOffset: nat, elemCount: nat, callback: Option<Callback>)

  datatype Event = Draw(header: Header, idx: Idx) | Call(callback: Callback)

  /** A command that neither draws nor calls back. */
  predicate Unused(c: Cmd) { c.elemCount == 0 && c.callback.None? }

  /** The commands cover indices 0 up to end, in order and without gaps; callbacks cover none. */
  predicate Tiled(cmds: seq<Cmd>, end: nat) {
    if cmds == [] then end == 0
    else
      var c := Last(cmds);
      c.idxOffset + c.elemCount == end && (c.callback.Some? ==> c.elemCount == 0) && Tiled(Front(cmds), c.idxOffset)
  }

  /** The indices of a command; a command of a tiled buffer always lies inside the indices. */
  function Elems(c: Cmd, idx: seq<Idx>): (s: seq<Idx>)
    ensures |s| == c.elemCount
  {
    if c.idxOffset + c.elemCount <= |idx| then idx[c.idxOffset..c.idxOffset + c.elemCount]
    else seq(c.elemCount, _ => 0)
  }

  function DrawAll(h: Header, s: seq<Idx>): (es: seq<Event>)
    ensures |es| == |s|
  {
    seq(|s|, k requires 0 <= k < |s| => Draw(h, s[k]))
  }

  function CmdEvents(c: Cmd, idx: seq<Idx>): seq<Event> {
    match c.callback
    case Some(cb) => [Call(cb)]
    case None => DrawAll(c.header, Elems(c, idx))
  }

  /** What a command buffer over an index buffer draws. */
  function Drawn(cmds: seq<Cmd>, idx: seq<Idx>): seq<Event> {
    if cmds == [] then [] else Drawn(Front(cmds), idx) + CmdEvents(Last(cmds), idx)
  }

  lemma Append(cmds: seq<Cmd>, c: Cmd)
    ensures Front(cmds + [c]) == cmds && Last(cmds + [c]) == c
  {}

  lemma TiledLast(front: seq<Cmd>, c: Cmd, end: nat)
    ensures Tiled(front + [c], end) <==>
            c.idxOffset + c.elemCount == end && (c.callback.Some? ==> c.elemCount == 0) && Tiled(front, c.idxOffset)
  {
    Append(front, c);
  }

  lemma {:induction false} TiledSplit(a: seq<Cmd>, b: seq<Cmd>, end: nat)
    requires b != []
    ensures Tiled(a + b, end) ==> Tiled(a, b[0].idxOffset)
    decreases |b|
  {
    if |b| == 1 {
      Append(a, b[0]);
      assert a + b == a + [b[0]];
    } else if Tiled(a + b, end) {
      assert Front(a + b) == a + Front(b);
      TiledSplit(a, Front(b), Last(a + b).idxOffset);
    }
  }

  /** A command draws its own stretch of the indices, one by one, under its header; a callback is called once
      and draws nothing. */
  lemma CommandDraws(c: Cmd, idx: seq<Idx>, k: nat)
    requires c.idxOffset + c.elemCount <= |idx|
    ensures c.callback.Some? ==> CmdEvents(c, idx) == [Call(c.callback.value)]
    ensures c.callback.None? ==> |CmdEvents(c, idx)| == c.elemCount
    ensures c.callback.None? && k < c.elemCount ==> CmdEvents(c, idx)[k] == Draw(c.header, idx[c.idxOffset + k])
  {}

  /** The indices among events. */
  function Indices(es: seq<Event>): seq<Idx> {
    if es == [] then [] else Indices(Front(es)) + if Last(es).Draw? then [Last(es).idx] else []
  }

  lemma {:induction false} IndicesSplit(a: seq<Event>, b: seq<Event>)
    ensures Indices(a + b) == Indices(a) + Indices(b)
  {
    if b == [] {
      assert a + b == a;
    } else {
      assert Front(a + b) == a + Front(b);
      IndicesSplit(a, Front(b));
    }
  }

  lemma {:induction false} IndicesOfAll(h: Header, s: seq<Idx>)
    ensures Indices(DrawAll(h, s)) == s
  {
    if s != [] {
      assert Front(DrawAll(h, s)) == DrawAll(h, Front(s));
      IndicesOfAll(h, Front(s));
    }
  }

  /** A tiled command buffer draws every index once, in the order of the index buffer. */
  lemma {:induction false} EachIndexOnce(cmds: seq<Cmd>, end: nat, idx: seq<Idx>)
    requires Tiled(cmds, end) && end <= |idx|
    ensures Indices(Drawn(cmds, idx)) == idx[..end]
  {
    hide DrawAll, Indices;
    if cmds == [] {
      NoIndices();
    } else {
      var c := Last(cmds);
      EachIndexOnce(Front(cmds), c.idxOffset, idx);
      IndicesSplit(Drawn(Front(cmds), idx), CmdEvents(c, idx));
      if c.callback.Some? {
        NoIndices();
        OneCall(c.callback.value);
      } else {
        IndicesOfAll(c.header, Elems(c, idx));
        assert idx[..end] == idx[..c.idxOffset] + Elems(c, idx);
      }
    }
  }

  lemma NoIndices()
    ensures Indices([]) == []
  {}

  lemma OneCall(cb: Callback)
    ensures Indices([Call(cb)]) == []
  {
    assert Front([Call(cb)]) == [];
  }

  lemma DrawnNothing(idx: seq<Idx>)
    ensures Drawn([], idx) == []
  {}

  lemma DrawnLast(cmds: seq<Cmd>, c: Cmd, idx: seq<Idx>)
    ensures Drawn(cmds + [c], idx) == Drawn(cmds, idx) + CmdEvents(c, idx)
    ensures Drawn([c], idx) == CmdEvents(c, idx)
  {
    hide CmdEvents;
    Append(cmds, c);
    assert Front([c]) == [] && Drawn([], idx) == [];
  }

  lemma {:induction false} DrawnSplit(a: seq<Cmd>, b: seq<Cmd>, idx: seq<Idx>)
    ensures Drawn(a + b, idx) == Drawn(a, idx) + Drawn(b, idx)
    decreases |b|
  {
    hide CmdEvents, Drawn;
    if b == [] {
      assert a + b == a;
      DrawnNothing(idx);
    } else {
      var f, c := Front(b), Last(b);
      assert b == f + [c] && a + b == (a + f) + [c];
      DrawnSplit(a, f, idx);
      DrawnLast(a + f, c, idx);
      DrawnLast(f, c, idx);
    }
  }

  /** Indices past the end of the commands do not matter. */
  lemma {:induction false} DrawnPrefix(cmds: seq<Cmd>, end: nat, idx: seq<Idx>, idx': seq<Idx>)
    requires Tiled(cmds, end) && end <= |idx| && end <= |idx'| && idx[..end] == idx'[..end]
    ensures Drawn(cmds, idx) == Drawn(cmds, idx')
    decreases |cmds|
  {
    hide DrawAll;
    if cmds != [] {
      var c := Last(cmds);
      assert idx[..c.idxOffset] == idx[..end][..c.idxOffset] == idx'[..c.idxOffset];
      DrawnPrefix(Front(cmds), c.idxOffset, idx, idx');
      assert Elems(c, idx) == idx[..end][c.idxOffset..] == Elems(c, idx');
    }
  }

  // ---- Rewrites that keep what is drawn ----

  /** Fusing two adjacent commands with equal headers keeps every index under its header. */
  function Fused(a: Cmd, b: Cmd): Cmd { a.(elemCount := a.elemCount + b.elemCount) }

  predicate Fusable(a: Cmd, b: Cmd) {
    a.header == b.header && a.callback.None? && b.callback.None? && a.idxOffset + a.elemCount == b.idxOffset
  }

  lemma FusedEvents(a: Cmd, b: Cmd, idx: seq<Idx>)
    requires Fusable(a, b) && b.idxOffset + b.elemCount <= |idx|
    ensures CmdEvents(Fused(a, b), idx) == CmdEvents(a, idx) + CmdEvents(b, idx)
  {
    assert Elems(Fused(a, b), idx) == Elems(a, idx) + Elems(b, idx);
  }

  lemma FuseKeepsDrawn(pre: seq<Cmd>, a: Cmd, b: Cmd, post: seq<Cmd>, idx: seq<Idx>)
    requires Fusable(a, b) && b.idxOffset + b.elemCount <= |idx|
    ensures Drawn(pre + [Fused(a, b)] + post, idx) == Drawn(pre + [a, b] + post, idx)
  {
    hide Drawn, CmdEvents, Fused, Fusable;
    var f := Fused(a, b);
    DrawnLast([a], b, idx);
    DrawnLast([], a, idx);
    DrawnLast([], f, idx);
    FusedEvents(a, b, idx);
    assert [a] + [b] == [a, b];
    DrawnSplit(pre, [a, b], idx);
    DrawnSplit(pre + [a, b], post, idx);
    DrawnSplit(pre, [f], idx);
    DrawnSplit(pre + [f], post, idx);
  }

  lemma {:induction false} FuseKeepsTiled(pre: seq<Cmd>, a: Cmd, b: Cmd, post: seq<Cmd>, end: nat)
    requires Fusable(a, b) && Tiled(pre + [a, b] + post, end)
    ensures Tiled(pre + [Fused(a, b)] + post, end)
    decreases |post|
  {
    var f := Fused(a, b);
    if post == [] {
      assert pre + [a, b] + post == pre + [a] + [b];
      Append(pre + [a], b);
      Append(pre, a);
      assert pre + [f] + post == pre + [f];
      Append(pre, f);
    } else {
      assert Front(pre + [a, b] + post) == pre + [a, b] + Front(post);
      assert Front(pre + [f] + post) == pre + [f] + Front(post);
      FuseKeepsTiled(pre, a, b, Front(post), Last(post).idxOffset);
    }
  }

  /** A command buffer moved behind base other indices. */
  function Shift(cmds: seq<Cmd>, base: nat): (r: seq<Cmd>)
    ensures |r| == |cmds|
  {
    seq(|cmds|, k requires 0 <= k < |cmds| => cmds[k].(idxOffset := cmds[k].idxOffset + base))
  }

  lemma ShiftEvents(c: Cmd, pre: seq<Idx>, idx: seq<Idx>)
    requires c.idxOffset + c.elemCount <= |idx|
    ensures CmdEvents(c.(idxOffset := c.idxOffset + |pre|), pre + idx) == CmdEvents(c, idx)
  {
    assert Elems(c.(idxOffset := c.idxOffset + |pre|), pre + idx) == Elems(c, idx);
  }

  lemma {:induction false} ShiftKeepsDrawn(cmds: seq<Cmd>, end: nat, pre: seq<Idx>, idx: seq<Idx>)
    requires Tiled(cmds, end) && end <= |idx|
    ensures Drawn(Shift(cmds, |pre|), pre + idx) == Drawn(cmds, idx)
    decreases |cmds|
  {
    hide CmdEvents;
    if cmds == [] {
      assert Shift(cmds, |pre|) == [];
    } else {
      assert Front(Shift(cmds, |pre|)) == Shift(Front(cmds), |pre|);
      ShiftKeepsDrawn(Front(cmds), Last(cmds).idxOffset, pre, idx);
      ShiftEvents(Last(cmds), pre, idx);
    }
  }

  lemma {:induction false} ConcatTiled(a: seq<Cmd>, b: seq<Cmd>, m: nat, n: nat)
    requires Tiled(a, m) && Tiled(b, n)
    ensures Tiled(a + Shift(b, m), m + n)
    decreases |b|
  {
    if b == [] {
      assert a + Shift(b, m) == a;
    } else {
      assert Front(a + Shift(b, m)) == a + Shift(Front(b), m);
      ConcatTiled(a, Front(b), m, Last(b).idxOffset);
    }
  }

  /** Laying one tiled buffer behind another draws the first and then the second. */
  lemma ConcatDrawn(a: seq<Cmd>, b: seq<Cmd>, idx: seq<Idx>, jdx: seq<Idx>)
    requires Tiled(a, |idx|) && Tiled(b, |jdx|)
    ensures Tiled(a + Shift(b, |idx|), |idx + jdx|)
    ensures Drawn(a + Shift(b, |idx|), idx + jdx) == Drawn(a, idx) + Drawn(b, jdx)
  {
    ConcatTiled(a, b, |idx|, |jdx|);
    DrawnPrefix(a, |idx|, idx, idx + jdx);
    ShiftKeepsDrawn(b, |jdx|, idx, jdx);
    DrawnSplit(a, Shift(b, |idx|), idx + jdx);
  }

  /** Appending an unused command, or dropping one, changes nothing drawn. */
  lemma UnusedDrawsNothing(cmds: seq<Cmd>, c: Cmd, idx: seq<Idx>)
    requires Unused(c)
    ensures Tiled(cmds + [c], |idx|) <==> Tiled(cmds, |idx|) && c.idxOffset == |idx|
    ensures Drawn(cmds + [c], idx) == Drawn(cmds, idx)
  {
    Append(cmds, c);
    assert CmdEvents(c, idx) == [];
  }
}
