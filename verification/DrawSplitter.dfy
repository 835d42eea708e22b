/** ImDrawListSplitter (imgui_draw.cpp): drawing into numbered channels out of order, then merging
    them into one command buffer, fusing commands that meet and rebuilding their offsets. */
module DrawSplitter {
  import opened Common
  import opened DrawCommands
  import opened DrawList

  datatype Channel = Channel(cmds: seq<Cmd>, idx: seq<Idx>)

  ghost predicate ChannelOk(ch: Channel) {
    Tiled(ch.cmds, |ch.idx|) && (ch.cmds != [] ==> Last(ch.cmds).callback.None?)
  }

  /** The layers one after another, in channel order. */
  function Flatten<T>(layers: seq<seq<T>>): seq<T> {
    if layers == [] then [] else Flatten(Front(layers)) + Last(layers)
  }

  function AllCmds(chs: seq<Channel>): seq<Cmd> {
    if chs == [] then [] else AllCmds(Front(chs)) + Last(chs).cmds
  }

  function AllIdx(chs: seq<Channel>): seq<Idx> {
    if chs == [] then [] else AllIdx(Front(chs)) + Last(chs).idx
  }

  // ---- Finding and rewriting the last command ----

  /** The last nonempty channel is j. */
  predicate LastIn(chs: seq<Channel>, j: int) {
    0 <= j < |chs| && chs[j].cmds != [] && forall k :: j < k < |chs| ==> chs[k].cmds == []
  }

  function SetLast(ch: Channel, c: Cmd): Channel
    requires ch.cmds != []
  {
    ch.(cmds := Front(ch.cmds) + [c])
  }

  lemma AddChannel(chs: seq<Channel>, ch: Channel)
    ensures AllCmds(chs + [ch]) == AllCmds(chs) + ch.cmds
    ensures AllIdx(chs + [ch]) == AllIdx(chs) + ch.idx
  {
    assert Front(chs + [ch]) == chs;
  }

  lemma LastOfSum(before: seq<Cmd>, cmds: seq<Cmd>, c: Cmd)
    requires cmds != []
    ensures Last(before + cmds) == Last(cmds)
    ensures before + (Front(cmds) + [c]) == Front(before + cmds) + [c]
  {}

  lemma {:induction false} LastLocated(chs: seq<Channel>, j: nat, c: Cmd)
    requires LastIn(chs, j)
    ensures AllCmds(chs) != [] && Last(AllCmds(chs)) == Last(chs[j].cmds)
    ensures AllCmds(chs[j := SetLast(chs[j], c)]) == Front(AllCmds(chs)) + [c]
    ensures AllIdx(chs[j := SetLast(chs[j], c)]) == AllIdx(chs)
    decreases |chs|
  {
    hide AllCmds, AllIdx;
    var chs', front, last := chs[j := SetLast(chs[j], c)], Front(chs), Last(chs);
    assert chs == front + [last];
    AddChannel(front, last);
    if j == |chs| - 1 {
      assert chs' == front + [SetLast(last, c)];
      AddChannel(front, SetLast(last, c));
      LastOfSum(AllCmds(front), last.cmds, c);
    } else {
      var front' := front[j := SetLast(chs[j], c)];
      assert chs' == front' + [last];
      AddChannel(front', last);
      LastLocated(front, j, c);
      assert AllCmds(front) + [] == AllCmds(front) && AllCmds(front') + [] == AllCmds(front');
    }
  }

  lemma {:induction false} NoneNonempty(chs: seq<Channel>)
    requires forall k :: 0 <= k < |chs| ==> chs[k].cmds == []
    ensures AllCmds(chs) == []
  {
    if chs != [] {
      NoneNonempty(Front(chs));
    }
  }

  // ---- Merging one channel ----

  /** Where each command must start when they follow each other from a given offset. */
  predicate Consecutive(cmds: seq<Cmd>, from: nat) {
    forall k: nat :: k < |cmds| ==> cmds[k].idxOffset == StartOf(cmds, k, from)
  }

  function StartOf(cmds: seq<Cmd>, k: nat, from: nat): nat
    requires k <= |cmds|
  {
    if k == 0 then from else cmds[k - 1].idxOffset + cmds[k - 1].elemCount
  }

  lemma {:induction false} TiledConsecutive(cmds: seq<Cmd>, end: nat)
    requires Tiled(cmds, end)
    ensures Consecutive(cmds, 0)
    decreases |cmds|
  {
    if cmds != [] {
      TiledConsecutive(Front(cmds), Last(cmds).idxOffset);
      if |cmds| > 1 {
        assert Last(Front(cmds)).idxOffset + Last(Front(cmds)).elemCount == Last(cmds).idxOffset;
      }
    }
  }

  lemma OffsetAt(cmds: seq<Cmd>, k: nat, from: nat)
    requires Consecutive(cmds, from) && k < |cmds|
    ensures cmds[k].idxOffset == StartOf(cmds, k, from)
  {}

  /** Rebuilds offsets by running a total, which moves every command by the same distance. */
  method Rebase(cmds: seq<Cmd>, start: nat, ghost base: nat, ghost from: nat) returns (r: seq<Cmd>, end: nat)
    requires Consecutive(cmds, from) && start == base + from
    ensures r == Shift(cmds, base)
    ensures end == base + StartOf(cmds, |cmds|, from)
  {
    hide Consecutive;
    r, end := cmds, start;
    for n := 0 to |cmds|
      invariant |r| == |cmds|
      invariant forall k :: 0 <= k < n ==> r[k] == cmds[k].(idxOffset := cmds[k].idxOffset + base)
      invariant forall k :: n <= k < |cmds| ==> r[k] == cmds[k]
      invariant end == base + StartOf(cmds, n, from)
    {
      OffsetAt(cmds, n, from);
      r := r[n := r[n].(idxOffset := end)];
      end := end + r[n].elemCount;
    }
  }

  /** What the buffers merged so far become when the next channel joins them. */
  ghost predicate Joined(merged: seq<Cmd>, idx: seq<Idx>, before: seq<Cmd>, beforeIdx: seq<Idx>, ch: Channel) {
    Tiled(merged, |idx|) && Drawn(merged, idx) == Drawn(before, beforeIdx) + Drawn(ch.cmds, ch.idx)
  }

  lemma JoinPlain(merged: seq<Cmd>, idx: seq<Idx>, ch: Channel)
    requires Tiled(merged, |idx|) && Tiled(ch.cmds, |ch.idx|)
    ensures Joined(merged + Shift(ch.cmds, |idx|), idx + ch.idx, merged, idx, ch)
  {
    ConcatDrawn(merged, ch.cmds, idx, ch.idx);
  }

  lemma JoinFused(merged: seq<Cmd>, idx: seq<Idx>, ch: Channel)
    requires Tiled(merged, |idx|) && Tiled(ch.cmds, |ch.idx|) && merged != [] && ch.cmds != []
    requires Last(merged).header == ch.cmds[0].header && Last(merged).callback.None? && ch.cmds[0].callback.None?
    ensures Joined(Front(merged) + [Fused(Last(merged), ch.cmds[0])] + Shift(ch.cmds[1..], |idx|), idx + ch.idx, merged, idx, ch)
  {
    hide Drawn, Tiled;
    JoinPlain(merged, idx, ch);
    EndOfTiled(merged, |idx|);
    TiledConsecutive(ch.cmds, |ch.idx|);
    var pre, a, rest := Front(merged), Last(merged), Shift(ch.cmds[1..], |idx|);
    var b := Shift(ch.cmds, |idx|)[0];
    assert merged + Shift(ch.cmds, |idx|) == pre + [a, b] + rest;
    assert Fused(a, b) == Fused(a, ch.cmds[0]);
    TiledInside(ch.cmds, |ch.idx|, |ch.idx|);
    assert ch.cmds[0].idxOffset == StartOf(ch.cmds, 0, 0);
    assert b.idxOffset == |idx| && ch.cmds[0].elemCount <= |ch.idx|;
    FuseKeepsDrawn(pre, a, b, rest, idx + ch.idx);
    FuseKeepsTiled(pre, a, b, rest, |idx + ch.idx|);
  }

  lemma {:induction false} TiledInside(cmds: seq<Cmd>, end: nat, n: nat)
    requires Tiled(cmds, end) && end <= n
    ensures forall k :: 0 <= k < |cmds| ==> cmds[k].idxOffset + cmds[k].elemCount <= n
    decreases |cmds|
  {
    if cmds != [] {
      TiledInside(Front(cmds), Last(cmds).idxOffset, n);
    }
  }

  /** Equivalent of PopUnusedDrawCmd for a stored channel. */
  method PopUnused(ch: Channel) returns (r: Channel)
    requires ChannelOk(ch)
    ensures Tiled(r.cmds, |r.idx|) && r.idx == ch.idx && Drawn(r.cmds, r.idx) == Drawn(ch.cmds, ch.idx)
    ensures r == if ch.cmds != [] && Unused(Last(ch.cmds)) then ch.(cmds := Front(ch.cmds)) else ch
  {
    r := ch;
    if ch.cmds != [] && Last(ch.cmds).elemCount == 0 && Last(ch.cmds).callback.None? {
      assert ch.cmds == Front(ch.cmds) + [Last(ch.cmds)];
      UnusedDrawsNothing(Front(ch.cmds), Last(ch.cmds), ch.idx);
      r := ch.(cmds := Front(ch.cmds));
    }
  }

  /** Everything the merged channels draw, channel by channel. */
  ghost function DrawnLayers(chs: seq<Channel>): (ls: seq<seq<Event>>)
    ensures |ls| == |chs|
  {
    seq(|chs|, i requires 0 <= i < |chs| => Drawn(chs[i].cmds, chs[i].idx))
  }

  /** Which of the channels merged so far holds the last command, if one does. */
  ghost predicate Tracks(chs: seq<Channel>, last: int) {
    if last == -1 then forall k :: 0 <= k < |chs| ==> chs[k].cmds == [] else LastIn(chs, last)
  }

  /** Lets the last command so far absorb the first command of the next channel when they match. */
  method FuseFirst(done: seq<Channel>, last: int, ch: Channel) returns (done': seq<Channel>, ch': Channel, fused: bool)
    requires Tracks(done, last)
    ensures Tracks(done', last) && |done'| == |done| && AllIdx(done') == AllIdx(done) && ch'.idx == ch.idx
    ensures !fused ==> done' == done && ch' == ch
    ensures fused <==> ch.cmds != [] && AllCmds(done) != []
                       && Last(AllCmds(done)).header == ch.cmds[0].header
                       && Last(AllCmds(done)).callback.None? && ch.cmds[0].callback.None?
    ensures fused ==> ch'.cmds == ch.cmds[1..]
                      && AllCmds(done') == Front(AllCmds(done)) + [Fused(Last(AllCmds(done)), ch.cmds[0])]
  {
    done', ch', fused := done, ch, false;
    if last == -1 {
      NoneNonempty(done);
    } else if ch.cmds != [] {
      var lastCmd, nextCmd := Last(done[last].cmds), ch.cmds[0];
      LastLocated(done, last, Fused(lastCmd, nextCmd));
      if lastCmd.header == nextCmd.header && lastCmd.callback.None? && nextCmd.callback.None? {
        done' := done[last := SetLast(done[last], Fused(lastCmd, nextCmd))];
        ch' := ch.(cmds := ch.cmds[1..]);
        fused := true;
      }
    }
  }

  /** One round of the merge loop: the channel loses a trailing unused command, may lose its first
      command to the last one before it, and gets its offsets rebuilt. */
  method MergeOne(done: seq<Channel>, last: int, idxOffset: nat, ch: Channel)
    returns (done': seq<Channel>, last': int, idxOffset': nat)
    requires ChannelOk(ch) && Tiled(AllCmds(done), |AllIdx(done)|) && idxOffset == |AllIdx(done)|
    requires Tracks(done, last)
    ensures |done'| == |done| + 1 && Tracks(done', last') && idxOffset' == |AllIdx(done')|
    ensures Joined(AllCmds(done'), AllIdx(done'), AllCmds(done), AllIdx(done), ch)
  {
    hide Drawn, Tiled, AllCmds, AllIdx, Consecutive, Joined;
    ghost var idx := AllIdx(done);
    var popped := PopUnused(ch);
    var front, rest, fused := FuseFirst(done, last, popped);
    ghost var from := if fused then popped.cmds[0].elemCount else 0;
    idxOffset' := idxOffset + if fused then popped.cmds[0].elemCount else 0;
    RestConsecutive(popped, fused);
    if fused {
      JoinFused(AllCmds(done), idx, popped);
    } else {
      JoinPlain(AllCmds(done), idx, popped);
    }
    var rebased;
    rebased, idxOffset' := Rebase(rest.cmds, idxOffset', |idx|, from);
    rest := rest.(cmds := rebased);
    done' := front + [rest];
    last' := if rest.cmds != [] then |front| else last;
    AddChannel(front, rest);
    SameJoin(AllCmds(done'), AllIdx(done'), AllCmds(done), idx, popped, ch);
  }

  lemma SameJoin(merged: seq<Cmd>, all: seq<Idx>, before: seq<Cmd>, idx: seq<Idx>, popped: Channel, ch: Channel)
    requires Joined(merged, all, before, idx, popped) && Drawn(popped.cmds, popped.idx) == Drawn(ch.cmds, ch.idx)
    ensures Joined(merged, all, before, idx, ch)
  {}

  /** The commands left after an optional fusion still follow each other, and end with the channel. */
  lemma RestConsecutive(ch: Channel, fused: bool)
    requires Tiled(ch.cmds, |ch.idx|) && (fused ==> ch.cmds != [])
    ensures var rest := if fused then ch.cmds[1..] else ch.cmds;
            var from := if fused then ch.cmds[0].elemCount else 0;
            Consecutive(rest, from) && StartOf(rest, |rest|, from) == |ch.idx|
  {
    TiledConsecutive(ch.cmds, |ch.idx|);
    EndOfTiled(ch.cmds, |ch.idx|);
    if fused {
      var rest, from := ch.cmds[1..], ch.cmds[0].elemCount;
      assert ch.cmds[0].idxOffset == StartOf(ch.cmds, 0, 0);
      forall k: nat | k < |rest| ensures rest[k].idxOffset == StartOf(rest, k, from) {
        assert rest[k].idxOffset == ch.cmds[k + 1].idxOffset == StartOf(ch.cmds, k + 1, 0);
      }
    }
  }

  lemma EndOfTiled(cmds: seq<Cmd>, end: nat)
    requires Tiled(cmds, end)
    ensures end == if cmds == [] then 0 else Last(cmds).idxOffset + Last(cmds).elemCount
  {}

  lemma FlattenLast<T>(layers: seq<seq<T>>, last: seq<T>)
    ensures Flatten(layers + [last]) == Flatten(layers) + last
  {
    assert Front(layers + [last]) == layers;
  }

  /** The merge of channel buffers, the first already without trailing unused commands. */
  method MergeChannels(chs: seq<Channel>) returns (cmds: seq<Cmd>, idx: seq<Idx>)
    requires chs != [] && Tiled(chs[0].cmds, |chs[0].idx|)
    requires forall i :: 1 <= i < |chs| ==> ChannelOk(chs[i])
    ensures Tiled(cmds, |idx|) && Drawn(cmds, idx) == Flatten(DrawnLayers(chs))
  {
    hide Drawn, Tiled, AllCmds, AllIdx, Joined, Flatten;
    var done := [chs[0]];
    var last := if chs[0].cmds != [] then 0 else -1;
    var idxOffset := if chs[0].cmds != [] then Last(chs[0].cmds).idxOffset + Last(chs[0].cmds).elemCount else 0;
    EndOfTiled(chs[0].cmds, |chs[0].idx|);
    OneChannel(chs[0]);
    OneLayer(Drawn(chs[0].cmds, chs[0].idx));
    assert DrawnLayers(chs)[..1] == [Drawn(chs[0].cmds, chs[0].idx)];
    for i := 1 to |chs|
      invariant |done| == i && Tracks(done, last)
      invariant Tiled(AllCmds(done), |AllIdx(done)|) && idxOffset == |AllIdx(done)|
      invariant Drawn(AllCmds(done), AllIdx(done)) == Flatten(DrawnLayers(chs)[..i])
    {
      ghost var before := done;
      done, last, idxOffset := MergeOne(done, last, idxOffset, chs[i]);
      JoinedMeans(AllCmds(done), AllIdx(done), AllCmds(before), AllIdx(before), chs[i]);
      FlattenLast(DrawnLayers(chs)[..i], Drawn(chs[i].cmds, chs[i].idx));
      assert DrawnLayers(chs)[..i + 1] == DrawnLayers(chs)[..i] + [Drawn(chs[i].cmds, chs[i].idx)];
    }
    assert DrawnLayers(chs)[..|chs|] == DrawnLayers(chs);
    cmds, idx := WriteOut(done);
  }

  lemma JoinedMeans(merged: seq<Cmd>, idx: seq<Idx>, before: seq<Cmd>, beforeIdx: seq<Idx>, ch: Channel)
    requires Joined(merged, idx, before, beforeIdx, ch)
    ensures Tiled(merged, |idx|) && Drawn(merged, idx) == Drawn(before, beforeIdx) + Drawn(ch.cmds, ch.idx)
  {}

  lemma OneChannel(ch: Channel)
    ensures AllCmds([ch]) == ch.cmds && AllIdx([ch]) == ch.idx
  {
    AddChannel([], ch);
    assert [] + [ch] == [ch] && [] + ch.cmds == ch.cmds && [] + ch.idx == ch.idx;
  }

  lemma OneLayer<T>(layer: seq<T>)
    ensures Flatten([layer]) == layer
  {
    FlattenLast([], layer);
    assert [] + [layer] == [layer] && [] + layer == layer;
  }

  /** Copies the commands and indices of every channel behind each other. */
  method WriteOut(chs: seq<Channel>) returns (cmds: seq<Cmd>, idx: seq<Idx>)
    ensures cmds == AllCmds(chs) && idx == AllIdx(chs)
  {
    cmds, idx := [], [];
    for i := 0 to |chs|
      invariant cmds == AllCmds(chs[..i]) && idx == AllIdx(chs[..i])
    {
      AddChannel(chs[..i], chs[i]);
      assert chs[..i + 1] == chs[..i] + [chs[i]];
      cmds, idx := cmds + chs[i].cmds, idx + chs[i].idx;
    }
    assert chs[..|chs|] == chs;
  }

  /** Reuses the last command if it is empty, or opens a new one, so that it carries the header. */
  method MakeReady(list: List)
    requires list.Laid() && list.ClipsOk() && (list.cmdBuffer != [] ==> Last(list.cmdBuffer).callback.None?)
    modifies list`cmdBuffer
    ensures list.Valid() && list.Events() == old(list.Events())
  {
    hide Drawn;
    if list.cmdBuffer == [] {
      list.AddDrawCmd();
    } else if Last(list.cmdBuffer).elemCount == 0 {
      var front, curr := Front(list.cmdBuffer), Last(list.cmdBuffer);
      assert list.cmdBuffer == front + [curr];
      UnusedDrawsNothing(front, curr, list.idxBuffer);
      UnusedDrawsNothing(front, curr.(header := list.cmdHeader), list.idxBuffer);
      Append(front, curr.(header := list.cmdHeader));
      list.cmdBuffer := front + [curr.(header := list.cmdHeader)];
    } else if Last(list.cmdBuffer).header != list.cmdHeader {
      list.AddDrawCmd();
    }
  }

  class Splitter {
    var current: nat
    var count: nat
    var channels: seq<Channel>

    ghost predicate Valid()
      reads this
    {
      && (if count <= 1 then current == 0 else current < count <= |channels|)
      && forall i :: 0 <= i < count && i != current ==> i < |channels| && ChannelOk(channels[i])
    }

    /** What each channel has drawn so far; the current one lives in the draw list itself. */
    ghost function Layers(list: List): (ls: seq<seq<Event>>)
      requires Valid()
      reads this, list
      ensures |ls| == count
    {
      var chs, cur, events := channels, current, list.Events();
      seq(count, i requires 0 <= i && (i == cur || i < |chs|) =>
        if i == cur then events else Drawn(chs[i].cmds, chs[i].idx))
    }

    constructor ()
      ensures Valid() && count == 0
    {
      current, count, channels := 0, 0, [];
    }

    /** Everything drawn before the split stays in channel 0; the others start empty. */
    method Split(list: List, channelsCount: nat)
      requires Valid() && count <= 1 && channelsCount >= 1
      modifies this
      ensures Valid() && count == channelsCount && current == 0
      ensures Layers(list) == [list.Events()] + seq(channelsCount - 1, _ => [])
    {
      var oldChannelsCount := |channels|;
      if oldChannelsCount < channelsCount {
        channels := channels + seq(channelsCount - oldChannelsCount, _ => Channel([], []));
      }
      count := channelsCount;
      channels := channels[0 := Channel([], [])];
      for i := 1 to channelsCount
        invariant count == channelsCount <= |channels| && current == 0
        invariant forall k :: 1 <= k < i ==> channels[k] == Channel([], [])
      {
        channels := channels[i := Channel([], [])];
      }
    }

    /** Swaps buffers; no channel's drawing changes, and the list is ready under the current header. */
    method SetCurrentChannel(list: List, idx: nat)
      requires Valid() && list.Valid() && idx < count
      modifies this`current, this`channels, list`cmdBuffer, list`idxBuffer, list`idxWrite
      ensures Valid() && list.Valid() && current == idx && count == old(count)
      ensures Layers(list) == old(Layers(list))
    {
      hide Drawn, Tiled;
      if current == idx {
        return;
      }
      ghost var layers := Layers(list);
      channels := channels[current := Channel(list.cmdBuffer, list.idxBuffer)];
      current := idx;
      list.cmdBuffer, list.idxBuffer := channels[idx].cmds, channels[idx].idx;
      list.idxWrite := |list.idxBuffer|;
      assert list.Events() == layers[idx];
      MakeReady(list);
      assert forall i :: 0 <= i < count ==> Layers(list)[i] == layers[i];
    }

    /** Merging leaves one buffer that draws the channels one after another, in channel order. */
    method Merge(list: List)
      requires Valid() && list.Valid()
      modifies this, list`cmdBuffer, list`idxBuffer, list`idxWrite
      ensures Valid() && list.Valid() && count <= 1
      ensures old(count) <= 1 ==> unchanged(this) && unchanged(list)
      ensures old(count) > 1 ==> count == 1 && list.Events() == Flatten(old(Layers(list)))
    {
      hide Drawn, Tiled, Flatten, Unused;
      if count <= 1 {
        return;
      }
      ghost var layers := Layers(list);
      SetCurrentChannel(list, 0);
      list.PopUnusedDrawCmd();
      var chs := [Channel(list.cmdBuffer, list.idxBuffer)] + channels[1..count];
      assert DrawnLayers(chs) == layers by {
        forall i | 0 <= i < count ensures DrawnLayers(chs)[i] == layers[i] {
          assert layers[i] == Layers(list)[i];
        }
      }
      var cmds, idx := MergeChannels(chs);
      list.cmdBuffer, list.idxBuffer := cmds, idx;
      list.idxWrite := |idx|;
      if list.cmdBuffer == [] || Last(list.cmdBuffer).callback.Some? {
        list.AddDrawCmd();
      }
      MakeReady(list);
      count := 1;
    }
  }
}
