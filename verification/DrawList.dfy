/** ImDrawList (imgui_draw.cpp): the state changes that open, reuse and fuse draw commands, and
    the reservation of vertices and indices. */
module DrawList {
  import opened Common
  import opened DrawCommands

  const INDEX_RANGE: nat := 0x1_0000

  /** A vertex is known by the shape point and the role in the shape it was written for. */
  datatype Vertex = Unwritten | Vertex(point: nat, role: nat)

  const NO_TEXTURE: TextureId := 0

  predicate ClipOk(c: ClipRect) { c.x <= c.z && c.y <= c.w }

  function Max(a: real, b: real): real { if a < b then b else a }

  function Min(a: real, b: real): real { if b < a then b else a }

  /** The rectangle PushClipRect installs. */
  function ClipOf(r: ClipRect, current: ClipRect, intersect: bool): (c: ClipRect)
    ensures ClipOk(c)
    ensures (intersect && r.x <= current.z && r.y <= current.w && current.x <= r.z && current.y <= r.w
             && ClipOk(r) && ClipOk(current)) ==>
              current.x <= c.x && current.y <= c.y && c.z <= current.z && c.w <= current.w
  {
    var q := if intersect then ClipRect(Max(r.x, current.x), Max(r.y, current.y), Min(r.z, current.z), Min(r.w, current.w))
             else r;
    ClipRect(q.x, q.y, Max(q.x, q.z), Max(q.y, q.w))
  }

  predicate Inside(c: ClipRect, x: real, y: real) { c.x <= x <= c.z && c.y <= y <= c.w }

  /** The installed rectangle shows exactly the points asked for, within the current rectangle if the
      two are to be intersected, as long as there is any such point (x, y). */
  lemma ClipShows(r: ClipRect, current: ClipRect, intersect: bool, x: real, y: real, u: real, v: real)
    requires Inside(r, x, y) && (intersect ==> Inside(current, x, y))
    ensures Inside(ClipOf(r, current, intersect), u, v) <==> Inside(r, u, v) && (intersect ==> Inside(current, u, v))
  {}

  /** The commands after the clip or texture of the header changed under the last of them. */
  function HeaderChanged(cmds: seq<Cmd>, h: Header, end: nat, differs: bool): seq<Cmd>
    requires cmds != []
  {
    var curr := Last(cmds);
    if curr.elemCount != 0 && differs then cmds + [Cmd(h, end, 0, None)]
    else if curr.elemCount == 0 && |cmds| > 1 && Last(Front(cmds)).header == h
            && Last(Front(cmds)).idxOffset + Last(Front(cmds)).elemCount == curr.idxOffset
            && Last(Front(cmds)).callback.None? then Front(cmds)
    else Front(cmds) + [curr.(header := h)]
  }

  /** Opening, fusing or relabelling a command for a changed header keeps the buffer tiled, keeps what
      it draws, and ends it in a command with the new header. */
  lemma HeaderChangedKeepsDrawn(cmds: seq<Cmd>, h: Header, idx: seq<Idx>, differs: bool)
    requires cmds != [] && Tiled(cmds, |idx|) && Last(cmds).callback.None?
    requires !differs ==> Last(cmds).elemCount == 0 || Last(cmds).header == h
    ensures var r := HeaderChanged(cmds, h, |idx|, differs);
            r != [] && Tiled(r, |idx|) && Last(r).callback.None? && Last(r).header == h
            && Drawn(r, idx) == Drawn(cmds, idx)
  {
    hide Drawn, Tiled;
    var front, curr := Front(cmds), Last(cmds);
    assert cmds == front + [curr];
    if curr.elemCount != 0 && differs {
      UnusedDrawsNothing(cmds, Cmd(h, |idx|, 0, None), idx);
    } else if curr.elemCount == 0 {
      TiledLast(front, curr, |idx|);
      UnusedDrawsNothing(front, curr, idx);
      UnusedDrawsNothing(front, curr.(header := h), idx);
      if front != [] && Last(front).header == h && Last(front).callback.None? {
        assert front == Front(front) + [Last(front)];
      }
    } else {
      assert curr.(header := h) == curr;
    }
  }

  /** A changed header leaves no command behind that could have been avoided: unless a command was dropped, an
      empty last command never continues the one before it under the same header. */
  lemma HeaderChangedNoWaste(cmds: seq<Cmd>, h: Header, idx: seq<Idx>)
    requires cmds != [] && Tiled(cmds, |idx|) && Last(cmds).callback.None?
    ensures var r := HeaderChanged(cmds, h, |idx|, Last(cmds).header != h);
            |r| >= |cmds| && |r| > 1 && Last(r).elemCount == 0 ==>
              Last(Front(r)).header != h || Last(Front(r)).callback.Some?
  {
    hide Drawn;
    var front, curr := Front(cmds), Last(cmds);
    assert cmds == front + [curr];
    if front != [] {
      TiledLast(front, curr, |idx|);
    }
  }

  class List {
    const fullscreen: ClipRect
    const allowVtxOffset: bool
    var cmdBuffer: seq<Cmd>
    var idxBuffer: seq<Idx>
    var vtxBuffer: seq<Vertex>
    var cmdHeader: Header
    var vtxCurrentIdx: nat
    var vtxWrite: nat
    var idxWrite: nat
    var clipRectStack: seq<ClipRect>
    var textureIdStack: seq<TextureId>

    /** The commands tile the indices. */
    ghost predicate Laid()
      reads this
    {
      Tiled(cmdBuffer, |idxBuffer|)
    }

    /** Every rectangle in use satisfies the assertion AddDrawCmd makes. */
    ghost predicate ClipsOk()
      reads this
    {
      ClipOk(fullscreen) && ClipOk(cmdHeader.clip) && forall c :: c in clipRectStack ==> ClipOk(c)
    }

    /** Between operations a command is always ready: not a callback, and under the current header. */
    ghost predicate Valid()
      reads this
    {
      && Laid() && ClipsOk()
      && cmdBuffer != [] && Last(cmdBuffer).callback.None? && Last(cmdBuffer).header == cmdHeader
    }

    ghost function Events(): seq<Event>
      reads this
    {
      Drawn(cmdBuffer, idxBuffer)
    }

    /** A new frame: everything cleared, one empty command ready. */
    constructor (fullscreen: ClipRect, allowVtxOffset: bool)
      requires ClipOk(fullscreen)
      ensures Valid() && Events() == [] && this.fullscreen == fullscreen && this.allowVtxOffset == allowVtxOffset
      ensures vtxBuffer == [] && idxBuffer == [] && vtxCurrentIdx == 0 && cmdHeader.vtxOffset == 0
      ensures clipRectStack == [] && textureIdStack == []
    {
      this.fullscreen, this.allowVtxOffset := fullscreen, allowVtxOffset;
      var zero := Header(ClipRect(0.0, 0.0, 0.0, 0.0), NO_TEXTURE, 0);
      cmdHeader := zero;
      cmdBuffer := [Cmd(zero, 0, 0, None)];
      idxBuffer, vtxBuffer := [], [];
      vtxCurrentIdx, vtxWrite, idxWrite := 0, 0, 0;
      clipRectStack, textureIdStack := [], [];
      new;
      UnusedDrawsNothing([], Cmd(zero, 0, 0, None), []);
      assert [] + [Cmd(zero, 0, 0, None)] == cmdBuffer;
    }

    method AddDrawCmd()
      requires Laid() && ClipsOk()
      modifies this`cmdBuffer
      ensures Valid() && Events() == old(Events())
      ensures cmdBuffer == old(cmdBuffer) + [Cmd(cmdHeader, |idxBuffer|, 0, None)]
    {
      var drawCmd := Cmd(cmdHeader, |idxBuffer|, 0, None);
      assert ClipOk(drawCmd.header.clip);
      UnusedDrawsNothing(cmdBuffer, drawCmd, idxBuffer);
      Append(cmdBuffer, drawCmd);
      cmdBuffer := cmdBuffer + [drawCmd];
    }

    /** Drops every trailing command that draws nothing, and nothing else. */
    method PopUnusedDrawCmd()
      requires Laid()
      modifies this`cmdBuffer
      ensures Laid() && Events() == old(Events())
      ensures cmdBuffer <= old(cmdBuffer) && (cmdBuffer != [] ==> !Unused(Last(cmdBuffer)))
      ensures forall k :: |cmdBuffer| <= k < |old(cmdBuffer)| ==> Unused(old(cmdBuffer)[k])
    {
      while |cmdBuffer| > 0
        invariant Laid() && Events() == old(Events()) && cmdBuffer <= old(cmdBuffer)
        invariant forall k :: |cmdBuffer| <= k < |old(cmdBuffer)| ==> Unused(old(cmdBuffer)[k])
      {
        var currCmd := Last(cmdBuffer);
        if currCmd.elemCount != 0 || currCmd.callback.Some? {
          return;
        }
        assert cmdBuffer == Front(cmdBuffer) + [currCmd];
        UnusedDrawsNothing(Front(cmdBuffer), currCmd, idxBuffer);
        cmdBuffer := Front(cmdBuffer);
      }
    }

    /** The callback takes its place after everything drawn so far. */
    method AddCallback(callback: Callback)
      requires Valid()
      modifies this`cmdBuffer
      ensures Valid() && Events() == old(Events()) + [Call(callback)]
    {
      if Last(cmdBuffer).elemCount != 0 {
        AddDrawCmd();
      }
      var front, currCmd := Front(cmdBuffer), Last(cmdBuffer);
      assert cmdBuffer == front + [currCmd];
      UnusedDrawsNothing(front, currCmd, idxBuffer);
      var marked := currCmd.(callback := Some(callback));
      DrawnLast(front, marked, idxBuffer);
      Append(front, marked);
      cmdBuffer := front + [marked];
      AddDrawCmd();
    }

    /** Fuses the last two commands when they match; the caller must have two. */
    method TryMergeDrawCmds()
      requires Valid() && |cmdBuffer| >= 2
      modifies this`cmdBuffer
      ensures Valid() && Events() == old(Events())
      ensures var b, a := Last(old(cmdBuffer)), Last(Front(old(cmdBuffer)));
              cmdBuffer == if Fusable(a, b) then Front(Front(old(cmdBuffer))) + [Fused(a, b)] else old(cmdBuffer)
    {
      var curr, prev := Last(cmdBuffer), Last(Front(cmdBuffer));
      var pre := Front(Front(cmdBuffer));
      if curr.header == prev.header && prev.idxOffset + prev.elemCount == curr.idxOffset
         && curr.callback.None? && prev.callback.None? {
        assert cmdBuffer == pre + [prev, curr] + [];
        FuseKeepsDrawn(pre, prev, curr, [], idxBuffer);
        FuseKeepsTiled(pre, prev, curr, [], |idxBuffer|);
        assert pre + [Fused(prev, curr)] + [] == pre + [Fused(prev, curr)];
        Append(pre, Fused(prev, curr));
        cmdBuffer := pre + [Fused(prev, curr)];
      }
    }

    /** The clip rectangle of the header has changed since the last command was opened. */
    method OnChangedClipRect()
      requires Laid() && ClipsOk() && cmdBuffer != [] && Last(cmdBuffer).callback.None?
      requires Last(cmdBuffer).header == cmdHeader.(clip := Last(cmdBuffer).header.clip)
      modifies this`cmdBuffer
      ensures Valid() && Events() == old(Events())
      ensures cmdBuffer == HeaderChanged(old(cmdBuffer), cmdHeader, |idxBuffer|, Last(old(cmdBuffer)).header.clip != cmdHeader.clip)
    {
      var curr := Last(cmdBuffer);
      HeaderChangedKeepsDrawn(cmdBuffer, cmdHeader, idxBuffer, curr.header.clip != cmdHeader.clip);
      if curr.elemCount != 0 && curr.header.clip != cmdHeader.clip {
        AddDrawCmd();
        return;
      }
      if curr.elemCount == 0 && |cmdBuffer| > 1 {
        var prev := Last(Front(cmdBuffer));
        if cmdHeader == prev.header && prev.idxOffset + prev.elemCount == curr.idxOffset && prev.callback.None? {
          cmdBuffer := Front(cmdBuffer);
          return;
        }
      }
      cmdBuffer := Front(cmdBuffer) + [curr.(header := curr.header.(clip := cmdHeader.clip))];
    }

    method OnChangedTextureID()
      requires Laid() && ClipsOk() && cmdBuffer != [] && Last(cmdBuffer).callback.None?
      requires Last(cmdBuffer).header == cmdHeader.(texture := Last(cmdBuffer).header.texture)
      modifies this`cmdBuffer
      ensures Valid() && Events() == old(Events())
      ensures cmdBuffer == HeaderChanged(old(cmdBuffer), cmdHeader, |idxBuffer|, Last(old(cmdBuffer)).header.texture != cmdHeader.texture)
    {
      var curr := Last(cmdBuffer);
      HeaderChangedKeepsDrawn(cmdBuffer, cmdHeader, idxBuffer, curr.header.texture != cmdHeader.texture);
      if curr.elemCount != 0 && curr.header.texture != cmdHeader.texture {
        AddDrawCmd();
        return;
      }
      if curr.elemCount == 0 && |cmdBuffer| > 1 {
        var prev := Last(Front(cmdBuffer));
        if cmdHeader == prev.header && prev.idxOffset + prev.elemCount == curr.idxOffset && prev.callback.None? {
          cmdBuffer := Front(cmdBuffer);
          return;
        }
      }
      cmdBuffer := Front(cmdBuffer) + [curr.(header := curr.header.(texture := cmdHeader.texture))];
    }

    method OnChangedVtxOffset()
      requires Laid() && ClipsOk() && cmdBuffer != [] && Last(cmdBuffer).callback.None?
      requires Last(cmdBuffer).header == cmdHeader.(vtxOffset := Last(cmdBuffer).header.vtxOffset)
      modifies this`cmdBuffer, this`vtxCurrentIdx
      ensures Valid() && Events() == old(Events()) && vtxCurrentIdx == 0
      ensures var curr := Last(old(cmdBuffer));
              cmdBuffer == if curr.elemCount != 0 then old(cmdBuffer) + [Cmd(cmdHeader, |idxBuffer|, 0, None)]
                           else Front(old(cmdBuffer)) + [curr.(header := cmdHeader)]
    {
      vtxCurrentIdx := 0;
      var front, curr := Front(cmdBuffer), Last(cmdBuffer);
      if curr.elemCount != 0 {
        AddDrawCmd();
        return;
      }
      assert cmdBuffer == front + [curr];
      var moved := curr.(header := curr.header.(vtxOffset := cmdHeader.vtxOffset));
      UnusedDrawsNothing(front, curr, idxBuffer);
      UnusedDrawsNothing(front, moved, idxBuffer);
      Append(front, moved);
      cmdBuffer := front + [moved];
    }

    method PushClipRect(r: ClipRect, intersect: bool)
      requires Valid()
      modifies this`cmdBuffer, this`cmdHeader, this`clipRectStack
      ensures Valid() && Events() == old(Events())
      ensures cmdHeader == old(cmdHeader).(clip := ClipOf(r, old(cmdHeader).clip, intersect))
      ensures clipRectStack == old(clipRectStack) + [cmdHeader.clip]
    {
      var cr := ClipOf(r, cmdHeader.clip, intersect);
      clipRectStack := clipRectStack + [cr];
      cmdHeader := cmdHeader.(clip := cr);
      OnChangedClipRect();
    }

    method PopClipRect()
      requires Valid() && clipRectStack != []
      modifies this`cmdBuffer, this`cmdHeader, this`clipRectStack
      ensures Valid() && Events() == old(Events())
      ensures clipRectStack == Front(old(clipRectStack))
      ensures cmdHeader == old(cmdHeader).(clip := if clipRectStack == [] then fullscreen else Last(clipRectStack))
    {
      clipRectStack := Front(clipRectStack);
      cmdHeader := cmdHeader.(clip := if clipRectStack == [] then fullscreen else Last(clipRectStack));
      OnChangedClipRect();
    }

    method PushTextureID(texture: TextureId)
      requires Valid()
      modifies this`cmdBuffer, this`cmdHeader, this`textureIdStack
      ensures Valid() && Events() == old(Events())
      ensures cmdHeader == old(cmdHeader).(texture := texture)
      ensures textureIdStack == old(textureIdStack) + [texture]
    {
      textureIdStack := textureIdStack + [texture];
      cmdHeader := cmdHeader.(texture := texture);
      OnChangedTextureID();
    }

    method PopTextureID()
      requires Valid() && textureIdStack != []
      modifies this`cmdBuffer, this`cmdHeader, this`textureIdStack
      ensures Valid() && Events() == old(Events())
      ensures textureIdStack == Front(old(textureIdStack))
      ensures cmdHeader == old(cmdHeader).(texture := if textureIdStack == [] then NO_TEXTURE else Last(textureIdStack))
    {
      textureIdStack := Front(textureIdStack);
      cmdHeader := cmdHeader.(texture := if textureIdStack == [] then NO_TEXTURE else Last(textureIdStack));
      OnChangedTextureID();
    }

    // ---- Reservations ----

    /** Where a new primitive's vertices start, as the current header and indices see it. */
    ghost predicate Based()
      reads this
    {
      cmdHeader.vtxOffset + vtxCurrentIdx == |vtxBuffer|
    }

    /** Reserves room at the end of both buffers; the new indices, whatever they hold, are drawn last
        and under the current header. The header's vertex offset moves up exactly when 16-bit indices
        would run out. */
    method PrimReserve(idxCount: nat, vtxCount: nat)
      requires Valid()
      modifies this`cmdBuffer, this`cmdHeader, this`idxBuffer, this`vtxBuffer, this`vtxCurrentIdx, this`idxWrite, this`vtxWrite
      ensures Valid()
      ensures |idxBuffer| == |old(idxBuffer)| + idxCount && idxBuffer[..|old(idxBuffer)|] == old(idxBuffer)
      ensures vtxBuffer == old(vtxBuffer) + seq(vtxCount, _ => Unwritten)
      ensures idxWrite == |old(idxBuffer)| && vtxWrite == |old(vtxBuffer)|
      ensures var moves := old(vtxCurrentIdx) + vtxCount >= 0x1_0000 && allowVtxOffset;
              && cmdHeader == (if moves then old(cmdHeader).(vtxOffset := |old(vtxBuffer)|) else old(cmdHeader))
              && vtxCurrentIdx == (if moves then 0 else old(vtxCurrentIdx))
      ensures Events() == old(Events()) + DrawAll(cmdHeader, idxBuffer[|old(idxBuffer)|..])
      ensures Last(cmdBuffer).elemCount >= idxCount
    {
      hide Drawn, DrawAll, Tiled;
      if vtxCurrentIdx + vtxCount >= INDEX_RANGE && allowVtxOffset {
        cmdHeader := cmdHeader.(vtxOffset := |vtxBuffer|);
        OnChangedVtxOffset();
      }
      var more := seq(idxCount, _ => 0);
      GrowLast(cmdBuffer, idxBuffer, more);
      var front, drawCmd := Front(cmdBuffer), Last(cmdBuffer);
      cmdBuffer := front + [drawCmd.(elemCount := drawCmd.elemCount + idxCount)];
      vtxWrite := |vtxBuffer|;
      vtxBuffer := vtxBuffer + seq(vtxCount, _ => Unwritten);
      idxWrite := |idxBuffer|;
      idxBuffer := idxBuffer + more;
      assert idxBuffer[idxWrite..] == more;
    }

    /** Gives back the end of the last reservation: exactly its last indices are no longer drawn. */
    method PrimUnreserve(idxCount: nat, vtxCount: nat)
      requires Valid() && idxCount <= Last(cmdBuffer).elemCount && vtxCount <= |vtxBuffer|
      modifies this`cmdBuffer, this`idxBuffer, this`vtxBuffer
      ensures Valid()
      ensures idxBuffer == old(idxBuffer)[..|old(idxBuffer)| - idxCount]
      ensures vtxBuffer == old(vtxBuffer)[..|old(vtxBuffer)| - vtxCount]
      ensures old(Events()) == Events() + DrawAll(cmdHeader, old(idxBuffer)[|idxBuffer|..])
    {
      hide Drawn, DrawAll, Tiled;
      ShrinkLast(cmdBuffer, idxBuffer, idxCount);
      var front, drawCmd := Front(cmdBuffer), Last(cmdBuffer);
      cmdBuffer := front + [drawCmd.(elemCount := drawCmd.elemCount - idxCount)];
      vtxBuffer := vtxBuffer[..|vtxBuffer| - vtxCount];
      idxBuffer := idxBuffer[..|idxBuffer| - idxCount];
    }

    /** Overwrites reserved indices at the write position. */
    method WriteIdx(s: seq<Idx>)
      requires Valid() && idxWrite + |s| <= |idxBuffer|
      modifies this`idxBuffer, this`idxWrite
      ensures Valid() && |idxBuffer| == |old(idxBuffer)|
      ensures idxWrite == old(idxWrite) + |s|
      ensures idxBuffer == old(idxBuffer)[..old(idxWrite)] + s + old(idxBuffer)[idxWrite..]
    {
      idxBuffer := idxBuffer[..idxWrite] + s + idxBuffer[idxWrite + |s|..];
      idxWrite := idxWrite + |s|;
    }

    method WriteVtx(s: seq<Vertex>)
      requires Valid() && vtxWrite + |s| <= |vtxBuffer|
      modifies this`vtxBuffer, this`vtxWrite
      ensures Valid() && |vtxBuffer| == |old(vtxBuffer)|
      ensures vtxWrite == old(vtxWrite) + |s|
      ensures vtxBuffer == old(vtxBuffer)[..old(vtxWrite)] + s + old(vtxBuffer)[vtxWrite..]
    {
      vtxBuffer := vtxBuffer[..vtxWrite] + s + vtxBuffer[vtxWrite + |s|..];
      vtxWrite := vtxWrite + |s|;
    }
  }

  /** Growing the last command over new indices draws them after everything else. */
  lemma ReserveDraws(front: seq<Cmd>, c: Cmd, idx: seq<Idx>, more: seq<Idx>)
    requires Tiled(front + [c], |idx|) && c.callback.None?
    ensures var grown := c.(elemCount := c.elemCount + |more|);
            Tiled(front + [grown], |idx + more|)
            && Drawn(front + [grown], idx + more) == Drawn(front + [c], idx) + DrawAll(c.header, more)
  {
    hide Drawn, DrawAll, Tiled, Elems;
    var grown := c.(elemCount := c.elemCount + |more|);
    TiledLast(front, c, |idx|);
    TiledLast(front, grown, |idx + more|);
    DrawnLast(front, c, idx);
    DrawnLast(front, grown, idx + more);
    assert (idx + more)[..c.idxOffset] == idx[..c.idxOffset];
    DrawnPrefix(front, c.idxOffset, idx, idx + more);
    ElemsGrow(c, grown, idx, more);
    DrawAllSplit(c.header, Elems(c, idx), more);
  }

  lemma ElemsGrow(c: Cmd, grown: Cmd, idx: seq<Idx>, more: seq<Idx>)
    requires c.idxOffset + c.elemCount == |idx| && grown == c.(elemCount := c.elemCount + |more|)
    ensures Elems(grown, idx + more) == Elems(c, idx) + more
  {}

  lemma ShrinkTiled(front: seq<Cmd>, c: Cmd, end: nat, m: nat)
    requires Tiled(front + [c], end) && m <= end && end - m <= c.elemCount && c.callback.None?
    ensures Tiled(front + [c.(elemCount := c.elemCount - (end - m))], m)
  {
    TiledLast(front, c, end);
    TiledLast(front, c.(elemCount := c.elemCount - (end - m)), m);
  }

  lemma GrowLast(cmds: seq<Cmd>, idx: seq<Idx>, more: seq<Idx>)
    requires cmds != [] && Tiled(cmds, |idx|) && Last(cmds).callback.None?
    ensures var c := Last(cmds);
            var r := Front(cmds) + [c.(elemCount := c.elemCount + |more|)];
            && Last(r) == c.(elemCount := c.elemCount + |more|) && Tiled(r, |idx + more|)
            && Drawn(r, idx + more) == Drawn(cmds, idx) + DrawAll(c.header, more)
  {
    hide Drawn, DrawAll, Tiled;
    assert cmds == Front(cmds) + [Last(cmds)];
    ReserveDraws(Front(cmds), Last(cmds), idx, more);
  }

  lemma ShrinkLast(cmds: seq<Cmd>, idx: seq<Idx>, n: nat)
    requires cmds != [] && Tiled(cmds, |idx|) && Last(cmds).callback.None? && n <= Last(cmds).elemCount
    ensures n <= |idx|
    ensures var c, kept := Last(cmds), idx[..|idx| - n];
            var r := Front(cmds) + [c.(elemCount := c.elemCount - n)];
            && Last(r) == c.(elemCount := c.elemCount - n) && Tiled(r, |kept|)
            && Drawn(cmds, idx) == Drawn(r, kept) + DrawAll(c.header, idx[|kept|..])
  {
    hide Drawn, DrawAll, Tiled;
    var front, c := Front(cmds), Last(cmds);
    assert cmds == front + [c];
    TiledLast(front, c, |idx|);
    ShrinkTiled(front, c, |idx|, |idx| - n);
    Regrow(front, c, c.(elemCount := c.elemCount - n), idx[..|idx| - n], idx[|idx| - n..]);
    assert idx == idx[..|idx| - n] + idx[|idx| - n..];
  }

  lemma Regrow(front: seq<Cmd>, c: Cmd, shrunk: Cmd, kept: seq<Idx>, more: seq<Idx>)
    requires Tiled(front + [shrunk], |kept|) && c.callback.None? && c.elemCount >= |more|
    requires shrunk == c.(elemCount := c.elemCount - |more|)
    ensures Drawn(front + [c], kept + more) == Drawn(front + [shrunk], kept) + DrawAll(c.header, more)
  {
    hide Drawn, DrawAll, Tiled, Elems;
    assert shrunk.(elemCount := shrunk.elemCount + |more|) == c;
    ReserveDraws(front, shrunk, kept, more);
  }

  lemma DrawAllSplit(h: Header, x: seq<Idx>, y: seq<Idx>)
    ensures DrawAll(h, x + y) == DrawAll(h, x) + DrawAll(h, y)
  {}
}
