# Verification of the Mafia game client, server and driver

A Dafny model of the logic of this repository that is hardest to get right, with proofs over all
inputs, all runs or all reachable states. Objects that the program updates in place are classes here,
loops are loops, and every such method is proved against a function or a predicate that the lemmas are
about.

- Draw lists (`DrawCommands`, `DrawList`, `DrawSplitter`, `DrawPrimitives`, `DrawMeshes`, `DrawLayers`): the command
  buffer of the user interface is rewritten all the time: commands are opened, relabelled, dropped,
  fused, stored in channels and merged. A buffer stands for the sequence of what it draws, one event
  per index with the header it is drawn under. Every rewrite is shown to keep that sequence, and a run
  of any operations over split channels is shown to merge into the channels' sequences in channel order,
  every 16-bit index reaching the vertex it was written for, and the triangles covering their shapes.
- Embedded data (`LzDecoder`, `Adler32`, `ArcPath`, `GlyphRanges`): the font decompressor accepts
  exactly the streams of its format, its checksum with deferred reduction is Adler-32, the arc sampler
  fills exactly what it reserves, and code point sets survive their range form.
- Code integrity (`Crc32`, `CodeIntegrity`): the table-driven CRC is the bit-serial one, and a change
  within four consecutive bytes of a monitored section is always caught.
- Packets (`XxHash32`, `CompactReader`, `PacketCodec`): the four-lane hash is XXH32 and is injective in
  every aligned word and trailing byte; packets and string lists survive the wire exactly under the
  conditions stated.
- Game server (`MafiaGame`, `MafiaRules`): cached counters, vote counts, night actions and phases over every
  run, exactly the nights the server does not survive, and the rules of the game as its players know them.
- Hardware identity (`Smbios`, `SmbiosTexts`): the table walk inverts printing of well-formed tables and reads
  nothing behind them, and the texts are the numbers of the fields they name.
- Shared resources (`ObjectPool`, `AlertRing`): the blocking pool over all interleavings of its atomic
  steps, and the ring of alerts that is drained whole.

The main reference definitions are tied to something outside themselves: a closed form, an inverse, a set,
or a published value.

`Common` and `Words` hold shared definitions and the byte and word types.
`dafny verify dfyconfig.toml` checks everything.

Where the code and its documentation differ, the model follows the code: one Mafia among six players
(`DedicatedGameMode.h` line 102 speaks of two), and processor identifiers joined by a comma and a space
(`GetHardware.h` line 22 says comma-separated). Promises that turned out to hold only under a condition
are stated with the exact condition: section sizes above 2^32 - 256 (`CodeIntegrity.CoverageExact`), an
alert index just past its wrap (`AlertRing.DeliversLastExactly`), strings that do not survive the wire
(`PacketCodec.VectorRoundTrip`), sets with code point zero (`GlyphRanges.RoundTrip`), night targets the
server does not check (`MafiaGame.KillKeepsCounts` for the counters, `MafiaGame.ReportGuard` for the
report on which the night can crash), tables and buffers the hardware queries leave
(`Smbios.GetMainboardSerial`, `Smbios.GetCPUInfo`) and double releases
(`ObjectPool.ReleaseKeepsPartition`).

## Model

| member | source | states |
|---|---|---|
| DrawCommands.TiledSplit | DirectX11 Client/Client/Client/Dependencies/Imgui/imgui_draw.cpp:435-445 | a prefix of a tiled command buffer is tiled up to where the rest begins |
| DrawCommands.DrawnSplit | DirectX11 Client/Client/Client/Dependencies/Imgui/imgui_draw.cpp:1751-1776 | what two command buffers draw one after the other is the first drawing followed by the second |
| DrawCommands.CommandDraws | DirectX11 Client/Client/Client/Dependencies/Imgui/imgui_draw.cpp:435-475 | a command draws its own stretch of the indices, one by one, under its header; a callback is called once |
| DrawCommands.EachIndexOnce | DirectX11 Client/Client/Client/Dependencies/Imgui/imgui_draw.cpp:618-641 | a tiled command buffer draws every index exactly once, in the order of the index buffer |
| DrawCommands.DrawnPrefix | DirectX11 Client/Client/Client/Dependencies/Imgui/imgui_draw.cpp:618-641 | commands draw the same whatever lies in the index buffer behind the indices they tile |
| DrawCommands.FusedEvents | DirectX11 Client/Client/Client/Dependencies/Imgui/imgui_draw.cpp:483-494 | one fused command draws the same index under the same header, one by one, as the two it replaces |
| DrawCommands.FuseKeepsDrawn | DirectX11 Client/Client/Client/Dependencies/Imgui/imgui_draw.cpp:483-494 | fusing two adjacent commands anywhere in a buffer keeps the whole drawn sequence |
| DrawCommands.FuseKeepsTiled | DirectX11 Client/Client/Client/Dependencies/Imgui/imgui_draw.cpp:483-494 | fusing two adjacent commands keeps the buffer tiling its indices exactly |
| DrawCommands.ShiftKeepsDrawn | DirectX11 Client/Client/Client/Dependencies/Imgui/imgui_draw.cpp:1728-1749 | commands moved behind other indices by rebuilding their offsets draw what they drew |
| DrawCommands.ConcatTiled | DirectX11 Client/Client/Client/Dependencies/Imgui/imgui_draw.cpp:1728-1776 | rebased channels laid behind each other tile the joined index buffer |
| DrawCommands.ConcatDrawn | DirectX11 Client/Client/Client/Dependencies/Imgui/imgui_draw.cpp:1728-1776 | rebased channels laid behind each other draw first the one and then the other |
| DrawCommands.UnusedDrawsNothing | DirectX11 Client/Client/Client/Dependencies/Imgui/imgui_draw.cpp:449-458 | a command with no elements and no callback can be added or dropped at the end, and only there, without changing tiling or drawing |
| DrawList.ClipOf | DirectX11 Client/Client/Client/Dependencies/Imgui/imgui_draw.cpp:570-584 | a pushed clip rectangle is never inverted, and lies inside the current one when intersection is asked for and they meet |
| DrawList.ClipShows | DirectX11 Client/Client/Client/Dependencies/Imgui/imgui_draw.cpp:570-584 | the installed rectangle shows exactly the points of the pushed one, within the current one when intersected, if there are any |
| DrawList.HeaderChangedKeepsDrawn | DirectX11 Client/Client/Client/Dependencies/Imgui/imgui_draw.cpp:497-541 | opening, fusing away or relabelling the last command for a changed header keeps the drawing and ends the buffer in a ready command under the new header |
| DrawList.HeaderChangedNoWaste | DirectX11 Client/Client/Client/Dependencies/Imgui/imgui_draw.cpp:497-541 | unless a command was dropped, the last command is not an empty one that continues the one before it under the same header |
| DrawList.List.constructor | DirectX11 Client/Client/Client/Dependencies/Imgui/imgui_draw.cpp:385-408 | a new frame draws nothing and has one ready command |
| DrawList.List.AddDrawCmd | DirectX11 Client/Client/Client/Dependencies/Imgui/imgui_draw.cpp:435-445 | appends exactly one empty command under the current header, starting at the end of the indices; nothing drawn changes |
| DrawList.List.PopUnusedDrawCmd | DirectX11 Client/Client/Client/Dependencies/Imgui/imgui_draw.cpp:449-458 | removes every trailing unused command and no other; nothing drawn changes |
| DrawList.List.AddCallback | DirectX11 Client/Client/Client/Dependencies/Imgui/imgui_draw.cpp:460-475 | the callback takes its place after everything drawn so far, exactly once, and a ready command follows |
| DrawList.List.TryMergeDrawCmds | DirectX11 Client/Client/Client/Dependencies/Imgui/imgui_draw.cpp:483-494 | fuses the last two commands exactly when headers are equal, offsets sequential and neither is a callback; nothing drawn changes |
| DrawList.List.OnChangedClipRect | DirectX11 Client/Client/Client/Dependencies/Imgui/imgui_draw.cpp:497-518 | a clip change never changes the header of an index already drawn; the new state is stated exactly |
| DrawList.List.OnChangedTextureID | DirectX11 Client/Client/Client/Dependencies/Imgui/imgui_draw.cpp:520-541 | a texture change never changes the header of an index already drawn; the new state is stated exactly |
| DrawList.List.OnChangedVtxOffset | DirectX11 Client/Client/Client/Dependencies/Imgui/imgui_draw.cpp:543-557 | an offset change restarts local indices at zero and never changes the header of an index already drawn |
| DrawList.List.PushClipRect | DirectX11 Client/Client/Client/Dependencies/Imgui/imgui_draw.cpp:570-587 | the header and stack get the installed rectangle; drawing is kept and a ready command carries the header |
| DrawList.List.PopClipRect | DirectX11 Client/Client/Client/Dependencies/Imgui/imgui_draw.cpp:594-599 | the header returns to the rectangle below, or to the full screen; drawing is kept |
| DrawList.List.PushTextureID | DirectX11 Client/Client/Client/Dependencies/Imgui/imgui_draw.cpp:601-606 | the header and stack get the texture; drawing is kept |
| DrawList.List.PopTextureID | DirectX11 Client/Client/Client/Dependencies/Imgui/imgui_draw.cpp:608-613 | the header returns to the texture below, or to none; drawing is kept |
| DrawList.List.PrimReserve | DirectX11 Client/Client/Client/Dependencies/Imgui/imgui_draw.cpp:618-641 | both buffers grow by exactly the counts asked for, the new indices are drawn last under the current header, and the vertex offset moves exactly when 16-bit indices would run out |
| DrawList.List.PrimUnreserve | DirectX11 Client/Client/Client/Dependencies/Imgui/imgui_draw.cpp:644-652 | exactly the last reserved indices and vertices go, and the drawing loses exactly those indices |
| DrawList.List.WriteIdx | DirectX11 Client/Client/Client/Dependencies/Imgui/imgui_draw.cpp:655-668 | overwrites the reserved indices at the write position and nothing else |
| DrawList.List.WriteVtx | DirectX11 Client/Client/Client/Dependencies/Imgui/imgui_draw.cpp:655-668 | overwrites the reserved vertices at the write position and nothing else |
| DrawList.ReserveDraws | DirectX11 Client/Client/Client/Dependencies/Imgui/imgui_draw.cpp:633-640 | growing the last command over new indices draws them after everything else, under its header |
| DrawList.GrowLast | DirectX11 Client/Client/Client/Dependencies/Imgui/imgui_draw.cpp:633-640 | the same for the last command of any ready buffer, which stays tiled |
| DrawSplitter.LastLocated | DirectX11 Client/Client/Client/Dependencies/Imgui/imgui_draw.cpp:1720-1733 | the last command of all merged channels is found in the last nonempty channel, and rewriting it there rewrites it in the whole |
| DrawSplitter.TiledConsecutive | DirectX11 Client/Client/Client/Dependencies/Imgui/imgui_draw.cpp:1744-1748 | in a tiled buffer every command starts where the one before it ends |
| DrawSplitter.Rebase | DirectX11 Client/Client/Client/Dependencies/Imgui/imgui_draw.cpp:1744-1748 | recomputing offsets with a running total moves every command of a channel by one and the same distance |
| DrawSplitter.JoinPlain | DirectX11 Client/Client/Client/Dependencies/Imgui/imgui_draw.cpp:1728-1749 | a channel that cannot fuse joins the merged buffers with its drawing last |
| DrawSplitter.JoinFused | DirectX11 Client/Client/Client/Dependencies/Imgui/imgui_draw.cpp:1734-1743 | a channel whose first command fuses into the last merged one joins with its drawing last, offsets rebuilt and tiling exact |
| DrawSplitter.PopUnused | DirectX11 Client/Client/Client/Dependencies/Imgui/imgui_draw.cpp:1729-1732 | a stored channel loses at most its one trailing unused command and draws the same |
| DrawSplitter.FuseFirst | DirectX11 Client/Client/Client/Dependencies/Imgui/imgui_draw.cpp:1733-1743 | fuses across the channel border exactly when headers are equal and neither command is a callback, whatever the offsets were |
| DrawSplitter.MergeOne | DirectX11 Client/Client/Client/Dependencies/Imgui/imgui_draw.cpp:1727-1749 | one round of the merge keeps tiling and appends exactly that channel's drawing |
| DrawSplitter.RestConsecutive | DirectX11 Client/Client/Client/Dependencies/Imgui/imgui_draw.cpp:1738-1748 | after the fused command is dropped the remaining offsets are still consecutive and end with the channel |
| DrawSplitter.MergeChannels | DirectX11 Client/Client/Client/Dependencies/Imgui/imgui_draw.cpp:1713-1776 | the merged buffers tile exactly and draw the channels one after another in channel order |
| DrawSplitter.WriteOut | DirectX11 Client/Client/Client/Dependencies/Imgui/imgui_draw.cpp:1751-1768 | the copies are the commands and indices of all channels in order |
| DrawSplitter.MakeReady | DirectX11 Client/Client/Client/Dependencies/Imgui/imgui_draw.cpp:1770-1780 | a buffer ends in a ready command under the current header without changing its drawing |
| DrawSplitter.Splitter.Split | DirectX11 Client/Client/Client/Dependencies/Imgui/imgui_draw.cpp:1683-1711 | channel 0 keeps what was drawn before, the other channels start empty |
| DrawSplitter.Splitter.SetCurrentChannel | DirectX11 Client/Client/Client/Dependencies/Imgui/imgui_draw.cpp:1784-1806 | swapping buffers changes the drawing of no channel and leaves the list ready |
| DrawSplitter.Splitter.Merge | DirectX11 Client/Client/Client/Dependencies/Imgui/imgui_draw.cpp:1713-1782 | after a merge the list draws the layers one after another in channel order, as one valid buffer; with at most one channel nothing changes |
| DrawPrimitives.PlacedResolves | DirectX11 Client/Client/Client/Dependencies/Imgui/imgui_draw.cpp:655-668 | while base plus count fits 16 bits every written index resolves to the vertex meant |
| DrawPrimitives.CastExact | DirectX11 Client/Client/Client/Dependencies/Imgui/imgui_draw.cpp:618-641 | the 16-bit casts are faithful to every vertex of a shape if and only if its last vertex number fits 16 bits |
| DrawPrimitives.ReachesExactly | DirectX11 Client/Client/Client/Dependencies/Imgui/imgui_draw.cpp:618-641 | the check whether a shape fits holds if and only if no cast to 16 bits changes one of its vertex numbers, nor its vertex count where that is cast |
| DrawPrimitives.TailDrawn | DirectX11 Client/Client/Client/Dependencies/Imgui/imgui_draw.cpp:618-641 | filling in reserved indices replaces exactly the end of what is drawn |
| DrawPrimitives.Completed | DirectX11 Client/Client/Client/Dependencies/Imgui/imgui_draw.cpp:618-641 | a primitive that filled its reservation exactly is drawn last with every index resolving to the vertex meant |
| DrawPrimitives.PrimRect | DirectX11 Client/Client/Client/Dependencies/Imgui/imgui_draw.cpp:655-668 | a rectangle reserves and writes 4 vertices and 6 indices, forming its two triangles from its own vertices |
| DrawPrimitives.SegmentMeant | DirectX11 Client/Client/Client/Dependencies/Imgui/imgui_draw.cpp:789-905 | the indices of one line segment name the meant corners at both its end points, with the wrap-around of a closed line |
| DrawPrimitives.StrokeMeant | DirectX11 Client/Client/Client/Dependencies/Imgui/imgui_draw.cpp:789-905 | the same for all segments, in order |
| DrawPrimitives.WriteSegments | DirectX11 Client/Client/Client/Dependencies/Imgui/imgui_draw.cpp:789-905 | the segment loop, whose running vertex index wraps on the last segment of a closed line, writes exactly those indices |
| DrawPrimitives.WritePoints | DirectX11 Client/Client/Client/Dependencies/Imgui/imgui_draw.cpp:806-905 | the point loop writes exactly the vertices of each point in order |
| DrawPrimitives.StrokeSegments | DirectX11 Client/Client/Client/Dependencies/Imgui/imgui_draw.cpp:708-905 | an anti-aliased stroke writes exactly what it reserved; every index resolves to a vertex of its own |
| DrawPrimitives.QuadMeant | DirectX11 Client/Client/Client/Dependencies/Imgui/imgui_draw.cpp:909-955 | the four vertices of each unshared segment are joined into its two triangles |
| DrawPrimitives.WriteQuads | DirectX11 Client/Client/Client/Dependencies/Imgui/imgui_draw.cpp:909-955 | the loop of the plain stroke writes four vertices and six indices per segment, in order |
| DrawPrimitives.StrokeQuads | DirectX11 Client/Client/Client/Dependencies/Imgui/imgui_draw.cpp:909-955 | a plain stroke writes exactly what it reserved; every index resolves to a vertex of its own |
| DrawPrimitives.AddPolyline | DirectX11 Client/Client/Client/Dependencies/Imgui/imgui_draw.cpp:708-956 | all four paths, open or closed: reservation filled exactly, triangles those of the path; too few points or a transparent colour change nothing |
| DrawPrimitives.FanMeant | DirectX11 Client/Client/Client/Dependencies/Imgui/imgui_draw.cpp:982-984 | the fan's indices name the first point and successive pairs of points |
| DrawPrimitives.FringeMeant | DirectX11 Client/Client/Client/Dependencies/Imgui/imgui_draw.cpp:1006-1029 | the fringe's indices name the inner and outer vertices of each point and the one before it |
| DrawPrimitives.WriteFan | DirectX11 Client/Client/Client/Dependencies/Imgui/imgui_draw.cpp:978-1043 | the fan loop writes exactly the fan's indices |
| DrawPrimitives.WriteFringe | DirectX11 Client/Client/Client/Dependencies/Imgui/imgui_draw.cpp:1006-1029 | the fringe loop writes both vertices of each point and the six indices back to its predecessor, the first to the last |
| DrawPrimitives.AddConvexPolyFilled | DirectX11 Client/Client/Client/Dependencies/Imgui/imgui_draw.cpp:966-1046 | both paths: reservation filled exactly, fan (and fringe) triangles over the shape's own vertices; too few points or a transparent colour change nothing |
| DrawMeshes.LineBand | DirectX11 Client/Client/Client/Dependencies/Imgui/imgui_draw.cpp:785-922 | each segment of an anti-aliased line covers each band between neighbouring vertex rows with two triangles that share one diagonal, between its own two points, closing back to point 0 |
| DrawMeshes.PlainSegment | DirectX11 Client/Client/Client/Dependencies/Imgui/imgui_draw.cpp:938-960 | each segment of a plain line covers the four vertices written for it with two triangles that share one diagonal |
| DrawMeshes.LineSizes | DirectX11 Client/Client/Client/Dependencies/Imgui/imgui_draw.cpp:713-739 | how many vertices and indices each path of a polyline takes, for open and closed lines |
| DrawMeshes.KnownSegments | DirectX11 Client/Client/Client/Dependencies/Imgui/imgui_draw.cpp:804-922 | the first segment of each anti-aliased path, index by index |
| DrawMeshes.FanAt | DirectX11 Client/Client/Client/Dependencies/Imgui/imgui_draw.cpp:985-1043 | triangle k of a filled polygon joins its first point with points k + 1 and k + 2 |
| DrawMeshes.FringeBand | DirectX11 Client/Client/Client/Dependencies/Imgui/imgui_draw.cpp:1003-1025 | the fringe covers the band along every edge, the closing one included, with two triangles that share one diagonal |
| DrawMeshes.PointVertexIs | DirectX11 Client/Client/Client/Dependencies/Imgui/imgui_draw.cpp:842-928 | the vertices of a shape stand in the order of its points, and for each point in the order of their roles |
| DrawLayers.Apply | DirectX11 Client/Client/Client/Dependencies/Imgui/imgui_draw.cpp:435-1046 | any one operation, with or without a movable vertex offset, keeps the list valid, draws exactly its triangles, its callback or nothing, and leaves the clip and texture state its pushes and pops call for |
| DrawLayers.DrawShape | DirectX11 Client/Client/Client/Dependencies/Imgui/imgui_draw.cpp:655-1046 | one shape that fits is drawn last, as exactly its triangles, and nothing else of the list's state changes |
| DrawLayers.StillPerforms | DirectX11 Client/Client/Client/Dependencies/Imgui/imgui_draw.cpp:618-641 | vertices written later never change what an earlier index resolves to |
| DrawLayers.SwitchAims | DirectX11 Client/Client/Client/Dependencies/Imgui/imgui_draw.cpp:1784-1806 | a switch to a channel that exists aims everything after it there, another is ignored, and no drawing operation is left out |
| DrawLayers.TrianglesWritten | DirectX11 Client/Client/Client/Dependencies/Imgui/imgui_draw.cpp:708-1046 | no triangle of any shape means an unwritten vertex |
| DrawLayers.DrawInto | DirectX11 Client/Client/Client/Dependencies/Imgui/imgui_draw.cpp:1683-1806 | drawing into the current channel adds to that channel only |
| DrawLayers.RunLayers | DirectX11 Client/Client/Client/Dependencies/Imgui/imgui_draw.cpp:1683-1806 | for every run of channel switches, state changes and shapes after a split, with or without a movable vertex offset, the merged buffer draws what was there before, then each channel in channel order, every operation in its own channel, order, clip rectangle, texture and meaning |
| DrawLayers.StartInFront | DirectX11 Client/Client/Client/Dependencies/Imgui/imgui_draw.cpp:1713-1776 | what was drawn before the split comes out in front of everything the channels received |
| LzDecoder.CopyMatch | DirectX11 Client/Client/Client/Dependencies/Imgui/imgui_draw.cpp:3968-3975 | a match extends the output by its length and keeps what was written |
| LzDecoder.MatchIsPeriodic | DirectX11 Client/Client/Client/Dependencies/Imgui/imgui_draw.cpp:3968-3975 | an overlapping match repeats the bytes dist back, including those it is producing |
| LzDecoder.TokenWrites | DirectX11 Client/Client/Client/Dependencies/Imgui/imgui_draw.cpp:3965-3986 | a literal run puts its bytes behind the output in their order; a match starts with the byte dist back and is refused exactly when there is none |
| LzDecoder.ReadEncoded | DirectX11 Client/Client/Client/Dependencies/Imgui/imgui_draw.cpp:3990-4003 | reading the opcode bytes of any form of any token, wherever they lie, gives that token and its end |
| LzDecoder.KnownMatches | DirectX11 Client/Client/Client/Dependencies/Imgui/imgui_draw.cpp:3991-3996 | the three short match forms on bytes that tell every field apart |
| LzDecoder.KnownLongMatches | DirectX11 Client/Client/Client/Dependencies/Imgui/imgui_draw.cpp:3997-4003 | the three long match forms on bytes that tell every field apart |
| LzDecoder.KnownLiterals | DirectX11 Client/Client/Client/Dependencies/Imgui/imgui_draw.cpp:3995-4001 | the three literal forms: which bytes they copy |
| LzDecoder.KnownLongLiterals | DirectX11 Client/Client/Client/Dependencies/Imgui/imgui_draw.cpp:3999-4001 | where literal runs of more than 256 bytes end |
| LzDecoder.StoredStream | DirectX11 Client/Client/Client/Dependencies/Imgui/imgui_draw.cpp:4038-4068 | the bytes of a complete stream with one literal run, from signature to checksum, decode to that run |
| LzDecoder.ReadIsEncoded | DirectX11 Client/Client/Client/Dependencies/Imgui/imgui_draw.cpp:3990-4003 | whatever the opcode dispatch reads as a token is the encoding of a token in range |
| LzDecoder.DecodeComplete | DirectX11 Client/Client/Client/Dependencies/Imgui/imgui_draw.cpp:4038-4068 | every complete stream decodes to what its tokens mean |
| LzDecoder.DecodeSound | DirectX11 Client/Client/Client/Dependencies/Imgui/imgui_draw.cpp:4038-4068 | whatever decodes is a complete stream whose tokens mean the output |
| LzDecoder.AcceptsExactlyStreams | DirectX11 Client/Client/Client/Dependencies/Imgui/imgui_draw.cpp:4038-4068 | the decoder accepts exactly the streams made of header, token encodings, end marker and matching checksum |
| LzDecoder.StbMatch | DirectX11 Client/Client/Client/Dependencies/Imgui/imgui_draw.cpp:3968-3975 | copies left to right, only from bytes already written; anything past the barrier or before the start writes nothing and fails |
| LzDecoder.StbLit | DirectX11 Client/Client/Client/Dependencies/Imgui/imgui_draw.cpp:3977-3983 | copies the literal bytes at the write position, or fails without writing when they pass the barrier |
| LzDecoder.StbDecompressToken | DirectX11 Client/Client/Client/Dependencies/Imgui/imgui_draw.cpp:3990-4003 | consumes and applies one token, or leaves everything as it was when there is none |
| LzDecoder.StbDecompress | DirectX11 Client/Client/Client/Dependencies/Imgui/imgui_draw.cpp:4038-4068 | terminates; returns the declared length exactly when the input decodes, with the output in the array, else zero; never writes past the declared length |
| Adler32.NoOverflow | DirectX11 Client/Client/Client/Dependencies/Imgui/imgui_draw.cpp:4013-4029 | within a block of 5552 bytes neither sum overflows 32 bits, whatever 16-bit sums it starts from |
| Adler32.LateReduction | DirectX11 Client/Client/Client/Dependencies/Imgui/imgui_draw.cpp:4013-4033 | reducing once at the end of a block equals reducing after every byte |
| Adler32.AdlerSplit | DirectX11 Client/Client/Client/Dependencies/Imgui/imgui_draw.cpp:4007-4036 | the checksum of a buffer is that of its parts in sequence |
| Adler32.ChecksumClosed | DirectX11 Client/Client/Client/Dependencies/Imgui/imgui_draw.cpp:4007-4036 | the checksum is one plus the sum of the bytes below and the sum of all partial sums above, both modulo 65521 |
| Adler32.ChecksumContinues | DirectX11 Client/Client/Client/Dependencies/Imgui/imgui_draw.cpp:4007-4036 | a checksum continued over a second buffer is that of both |
| Adler32.KnownChecksum | DirectX11 Client/Client/Client/Dependencies/Imgui/imgui_draw.cpp:4007-4036 | the checksum of the three bytes of abc is 024D0127 |
| Adler32.ReducedStart | DirectX11 Client/Client/Client/Dependencies/Imgui/imgui_draw.cpp:4007-4036 | unreduced starting sums make no difference once a byte is added |
| Adler32.Accumulate | DirectX11 Client/Client/Client/Dependencies/Imgui/imgui_draw.cpp:4014-4024 | one unrolled addition is the exact, unwrapped sum |
| Adler32.SumBlock | DirectX11 Client/Client/Client/Dependencies/Imgui/imgui_draw.cpp:4013-4029 | eight at a time, then one at a time, adds every byte of the block once |
| Adler32.BlockStep | DirectX11 Client/Client/Client/Dependencies/Imgui/imgui_draw.cpp:4011-4034 | one block, empty or not, and its late reduction is the per-byte checksum of the block |
| Adler32.StbAdler32 | DirectX11 Client/Client/Client/Dependencies/Imgui/imgui_draw.cpp:4007-4036 | equals the per-byte Adler-32 of section 2.2 of RFC 1950 for every buffer and every starting value, and terminates although the first block may be empty |
| ArcPath.NormalizedIsMod | DirectX11 Client/Client/Client/Dependencies/Imgui/imgui_draw.cpp:1104-1131 | the normalisation of a sample number by truncated remainder and correction is its residue |
| ArcPath.DistancesFit | DirectX11 Client/Client/Client/Dependencies/Imgui/imgui_draw.cpp:1073-1091 | with the shortened first step exactly the reserved points stay inside the range, and without remainder the last one ends it |
| ArcPath.StepMeaning | DirectX11 Client/Client/Client/Dependencies/Imgui/imgui_draw.cpp:1056-1064 | the step is the one asked for within 1 to 12, else that of the segment count within the same bounds |
| ArcPath.EvenEnds | DirectX11 Client/Client/Client/Dependencies/Imgui/imgui_draw.cpp:1073-1082 | the shortened first step and what is left for the last one differ by at most one |
| ArcPath.PlacesEven | DirectX11 Client/Client/Client/Dependencies/Imgui/imgui_draw.cpp:1066-1137 | the points go from one end of the range to the other in full steps, except for a first and a last step that are as even as can be |
| ArcPath.ArcShape | DirectX11 Client/Client/Client/Dependencies/Imgui/imgui_draw.cpp:1088-1137 | each point of an arc is the table sample at its distance from the start, towards the end |
| ArcPath.LastSample | DirectX11 Client/Client/Client/Dependencies/Imgui/imgui_draw.cpp:1124-1132 | without remainder the last point is the end of the arc modulo the table |
| ArcPath.CountSamples | DirectX11 Client/Client/Client/Dependencies/Imgui/imgui_draw.cpp:1073-1091 | the number of points reserved, the first step and whether an extra end point is needed |
| ArcPath.Path.ArcToFastEx | DirectX11 Client/Client/Client/Dependencies/Imgui/imgui_draw.cpp:1048-1137 | for every pair of ends, direction and step the points appended are exactly those reserved: evenly stepped samples inside the range, then the end |
| ArcPath.FillForward | DirectX11 Client/Client/Client/Dependencies/Imgui/imgui_draw.cpp:1100-1110 | the upward loop writes exactly those samples, every table index in range |
| ArcPath.FillBackward | DirectX11 Client/Client/Client/Dependencies/Imgui/imgui_draw.cpp:1111-1121 | the downward loop writes exactly those samples, every table index in range |
| GlyphRanges.SetThenGet | DirectX11 Client/Client/Client/Dependencies/Imgui/imgui.h:2753-2760 | setting one code point's bit sets that code point and leaves every other as it was, through the 32-bit words |
| GlyphRanges.Builder.SetBit | DirectX11 Client/Client/Client/Dependencies/Imgui/imgui.h:2759-2759 | adds exactly one code point to the set |
| GlyphRanges.Builder.AddInterval | DirectX11 Client/Client/Client/Dependencies/Imgui/imgui_draw.cpp:3094-3095 | adds exactly the code points of the range |
| GlyphRanges.Builder.AddRanges | DirectX11 Client/Client/Client/Dependencies/Imgui/imgui_draw.cpp:3091-3096 | adds exactly the code points the terminated list covers |
| GlyphRanges.Builder.EndOfRun | DirectX11 Client/Client/Client/Dependencies/Imgui/imgui_draw.cpp:3102-3105 | finds the last member of the run |
| GlyphRanges.Builder.BuildRanges | DirectX11 Client/Client/Client/Dependencies/Imgui/imgui_draw.cpp:3098-3110 | outputs the maximal ranges of the set and the terminator |
| GlyphRanges.RangesCover | DirectX11 Client/Client/Client/Dependencies/Imgui/imgui_draw.cpp:3091-3110 | the ranges built from a set cover exactly its members |
| GlyphRanges.RoundTrip | DirectX11 Client/Client/Client/Dependencies/Imgui/imgui_draw.cpp:3091-3110 | rebuilding restores every set without code point zero; a set with it restores to nothing |
| GlyphRanges.RangesSorted | DirectX11 Client/Client/Client/Dependencies/Imgui/imgui_draw.cpp:3098-3110 | the ranges are sorted, disjoint and never adjacent |
| GlyphRanges.WholePlane | DirectX11 Client/Client/Client/Dependencies/Imgui/imgui_draw.cpp:3098-3110 | all code points but zero give the one range from 1 to FFFF and the terminator, which restore them |
| Crc32.BitStepLinear | DirectX11 Client/AntiCheatd/AntiCheat/crc/crc.c:29-37 | one clock of the register is linear over exclusive or |
| Crc32.BitStepsLinear | DirectX11 Client/AntiCheatd/AntiCheat/crc/crc.c:29-37 | so are any number of clocks |
| Crc32.TableSplit | DirectX11 Client/AntiCheatd/AntiCheat/crc/crc.c:56-60 | eight clocks are the low byte's table entry over the rest shifted down |
| Crc32.BytesAreBits | DirectX11 Client/AntiCheatd/AntiCheat/crc/crc.c:48-63 | eight clocks per byte feed the message bit by bit, least significant first |
| Crc32.TableStep | DirectX11 Client/AntiCheatd/AntiCheat/crc/crc.c:56-60 | one table step is one byte step, for every register and byte |
| Crc32.Engine.InitializeTable | DirectX11 Client/AntiCheatd/AntiCheat/crc/crc.c:23-43 | every entry is eight clocks of its index; a second call changes nothing |
| Crc32.Engine.Calculate | DirectX11 Client/AntiCheatd/AntiCheat/crc/crc.c:48-63 | equals the bit-serial CRC with polynomial EDB88320 (section 8 of RFC 1952) of the bytes given, on the first call or a later one |
| Crc32.Residue | DirectX11 Client/AntiCheatd/AntiCheat/crc/crc.c:48-63 | a message followed by its own checksum, least significant byte first, has the checksum 2144DF1C whatever it is |
| Crc32.CheckValue | DirectX11 Client/AntiCheatd/AntiCheat/crc/crc.c:48-63 | the digits 1 to 9 have the published check value CBF43926 |
| Crc32.AgreeAfter | DirectX11 Client/AntiCheatd/AntiCheat/crc/crc.c:48-63 | registers that agree after up to three more bytes differed before them only in that many low bytes |
| Crc32.FirstDifference | DirectX11 Client/AntiCheatd/AntiCheat/crc/crc.c:48-63 | a single different byte disturbs the top byte of the register, whatever came before |
| Crc32.FeedInjective | DirectX11 Client/AntiCheatd/AntiCheat/crc/crc.c:48-63 | registers that differ stay different under equal bytes, however many |
| Crc32.BurstDetected | DirectX11 Client/AntiCheatd/AntiCheat/crc/crc.c:48-63 | equal-length buffers that differ only within four consecutive bytes have different checksums, for all lengths and positions |
| CodeIntegrity.ChunksTile | DirectX11 Client/AntiCheatd/AntiCheat/crc/crc.c:260-326 | chunks follow each other without gap or overlap and the last one ends the section |
| CodeIntegrity.ByteInChunk | DirectX11 Client/AntiCheatd/AntiCheat/crc/crc.c:260-326 | every byte lies in the chunk its offset names |
| CodeIntegrity.CoverageExact | DirectX11 Client/AntiCheatd/AntiCheat/crc/crc.c:260-326 | chunks cover a section if and only if its size is at most 2^32 - 256; a larger one has no chunk at all |
| CodeIntegrity.HashAt | DirectX11 Client/AntiCheatd/AntiCheat/crc/crc.c:294-326 | the place of a section's chunk in the flat list of checksums |
| CodeIntegrity.UnchangedVerifies | DirectX11 Client/AntiCheatd/AntiCheat/crc/crc.c:354-434 | memory equal to the recorded memory in every section that is scanned verifies |
| CodeIntegrity.TamperingCaught | DirectX11 Client/AntiCheatd/AntiCheat/crc/crc.c:354-434 | a change inside any four consecutive bytes of a section, across a chunk border or not, never verifies, whatever else changed |
| CodeIntegrity.TamperingCaughtExactly | DirectX11 Client/AntiCheatd/AntiCheat/crc/crc.c:354-434 | when nothing else changed, a change inside four consecutive bytes of a section is caught if and only if the section is at most 2^32 - 256 bytes |
| CodeIntegrity.ReadProcessMemory | DirectX11 Client/AntiCheatd/AntiCheat/crc/crc.c:68-97 | fills the buffer from readable memory or reports failure |
| CodeIntegrity.HashChunk | DirectX11 Client/AntiCheatd/AntiCheat/crc/crc.c:299-322 | the checksum of one chunk, or nothing if it cannot be read |
| CodeIntegrity.SectionTotals | DirectX11 Client/AntiCheatd/AntiCheat/crc/crc.c:260-266 | the 32-bit chunk total of up to two sections never wraps; the byte total is the true one modulo 2^32 |
| CodeIntegrity.RecordHashes | DirectX11 Client/AntiCheatd/AntiCheat/crc/crc.c:294-326 | writes the checksum of every chunk of every section in order, each once and inside the array, or fails at the first unreadable chunk |
| CodeIntegrity.CompareHashes | DirectX11 Client/AntiCheatd/AntiCheat/crc/crc.c:380-423 | walks the same chunks in the same order and answers exactly whether all agree |
| CodeIntegrity.Guard.AddCrc | DirectX11 Client/AntiCheatd/AntiCheat/crc/crc.c:224-349 | on success the record holds exactly the checksums of the process; on failure no other record changes and at most the free slot's pid was written |
| CodeIntegrity.Guard.ComputeProcessCodeHash | DirectX11 Client/AntiCheatd/AntiCheat/crc/crc.c:354-434 | the verdict is exactly whether the process still verifies against its record |
| CodeIntegrity.Guard.AddProtectedProcess | DirectX11 Client/AntiCheatd/AntiCheat/ProcessGuard/ProcessGuard.c:219-247 | each process is registered once, at most ten are, the record table never overflows, and a process that can be recorded gets a record of exactly its checksums |
| AlertRing.Queue.AddSecurityAlert | DirectX11 Client/AntiCheatd/AntiCheat/ProcessGuard/ProcessGuard.c:179-193 | after any history the ring holds, slot by slot, the last alert written there |
| AlertRing.Queue.GetAlertQueue | DirectX11 Client/AntiCheatd/AntiCheat/ProcessGuard/ProcessGuard.c:252-271 | a successful drain hands over the whole ring and empties it; a refused one changes nothing |
| AlertRing.RingNext | DirectX11 Client/AntiCheatd/AntiCheat/ProcessGuard/ProcessGuard.c:179-193 | one more alert changes exactly the slot of its sequence number |
| AlertRing.NameCopied | DirectX11 Client/AntiCheatd/AntiCheat/ProcessGuard/ProcessGuard.c:179-193 | a name is copied up to 15 characters |
| AlertRing.InWindow | DirectX11 Client/AntiCheatd/AntiCheat/ProcessGuard/ProcessGuard.c:179-193 | each of the last hundred alerts is still in its slot |
| AlertRing.BeforeWindow | DirectX11 Client/AntiCheatd/AntiCheat/ProcessGuard/ProcessGuard.c:179-193 | no earlier alert is |
| AlertRing.DeliversLastExactly | DirectX11 Client/AntiCheatd/AntiCheat/ProcessGuard/ProcessGuard.c:179-271 | a drain delivers exactly the last min(n, 100) alerts if and only if the 32-bit index never wrapped or is at least 100 past its wrap |
| AlertRing.OncePerDrain | DirectX11 Client/AntiCheatd/AntiCheat/ProcessGuard/ProcessGuard.c:252-271 | no alert fills two slots of one drain |
| AlertRing.Run | DirectX11 Client/AntiCheatd/AntiCheat/ProcessGuard/ProcessGuard.c:179-271 | over every run the alerts raised split in order into one batch per successful drain and those still waiting, so no alert is delivered by two drains |
| AlertRing.DrainContents | DirectX11 Client/AntiCheatd/AntiCheat/ProcessGuard/ProcessGuard.c:179-271 | without a wrap, which alert each slot of a drain holds |
| XxHash32.RunLanes | Unreal 5.4 Client/MafiaGame/Source/MafiaGame/XXHash32.cpp:20-44 | the interleaved four-lane loop leaves each lane as its own fold and stops after the last whole stripe |
| XxHash32.RunWords | Unreal 5.4 Client/MafiaGame/Source/MafiaGame/XXHash32.cpp:52-58 | the word loop folds exactly the whole words after the stripes |
| XxHash32.RunBytes | Unreal 5.4 Client/MafiaGame/Source/MafiaGame/XXHash32.cpp:63-69 | the byte loop folds exactly the bytes after the words |
| XxHash32.Hash | Unreal 5.4 Client/MafiaGame/Source/MafiaGame/XXHash32.cpp:13-81 | equals the XXH32 fold of the xxHash specification for every length and seed |
| XxHash32.KnownSentence | Unreal 5.4 Client/MafiaGame/Source/MafiaGame/XXHash32.cpp:13-81 | the published hash of a sentence of 39 bytes: two stripes, one word, three bytes |
| XxHash32.KnownEmpty | Unreal 5.4 Client/MafiaGame/Source/MafiaGame/XXHash32.cpp:13-81 | the published hashes of the empty input, with seed 0 and with seed 9E3779B1 |
| XxHash32.SeedMovesLanes | Unreal 5.4 Client/MafiaGame/Source/MafiaGame/XXHash32.cpp:20-30 | the seed moves every lane by its own value |
| XxHash32.RoundInjective | Unreal 5.4 Client/MafiaGame/Source/MafiaGame/XXHash32.cpp:20-36 | a lane round determines the lane from the word and the word from the lane |
| XxHash32.WordStepInjective | Unreal 5.4 Client/MafiaGame/Source/MafiaGame/XXHash32.cpp:52-58 | so does a word step of the tail |
| XxHash32.ByteStepInjective | Unreal 5.4 Client/MafiaGame/Source/MafiaGame/XXHash32.cpp:61-66 | so does a byte step of the tail |
| XxHash32.RotlInjective | Unreal 5.4 Client/MafiaGame/Source/MafiaGame/XXHash32.h:16-40 | rotations lose nothing |
| XxHash32.XorShiftsInjective | Unreal 5.4 Client/MafiaGame/Source/MafiaGame/XXHash32.cpp:69-73 | the shifts of the final mix lose nothing |
| XxHash32.MixInjective | Unreal 5.4 Client/MafiaGame/Source/MafiaGame/XXHash32.cpp:69-75 | the final mix is injective |
| XxHash32.ReadInjective | Unreal 5.4 Client/MafiaGame/Source/MafiaGame/XXHash32.h:16-40 | a little-endian read determines its four bytes |
| XxHash32.ReadEffect | Unreal 5.4 Client/MafiaGame/Source/MafiaGame/XXHash32.cpp:20-58 | of all words read, exactly the changed unit's differs |
| XxHash32.LaneEffect | Unreal 5.4 Client/MafiaGame/Source/MafiaGame/XXHash32.cpp:20-44 | exactly the lane that reads the changed word ends different |
| XxHash32.TailWordsEffect | Unreal 5.4 Client/MafiaGame/Source/MafiaGame/XXHash32.cpp:52-58 | the word tail differs exactly if the change lies before its end |
| XxHash32.TailBytesEffect | Unreal 5.4 Client/MafiaGame/Source/MafiaGame/XXHash32.cpp:61-66 | the byte tail differs exactly if the change lies before its end |
| XxHash32.ConvergeEffect | Unreal 5.4 Client/MafiaGame/Source/MafiaGame/XXHash32.cpp:40-44 | lanes that differ in one place converge to different words |
| XxHash32.StartEffect | Unreal 5.4 Client/MafiaGame/Source/MafiaGame/XXHash32.cpp:20-47 | the state before the tail differs exactly if the change lies in the stripes |
| XxHash32.UnitChangeDetected | Unreal 5.4 Client/MafiaGame/Source/MafiaGame/XXHash32.cpp:13-81 | two inputs that differ in one aligned word or one trailing byte have different hashes, for every seed and length |
| CompactReader.StringRead | Unreal 5.4 Client/MafiaGame/Source/MafiaGame/CompactBinaryReader.cpp:135-168 | a nonempty string is exactly the bytes its prefix counts with the cursor behind them; an empty one moves the cursor past the prefix at most |
| CompactReader.EachString | Unreal 5.4 Client/MafiaGame/Source/MafiaGame/CompactBinaryReader.cpp:174-180 | each string of a list is the one read where the strings before it end |
| CompactReader.Reader.Init | Unreal 5.4 Client/MafiaGame/Source/MafiaGame/CompactBinaryReader.cpp:30-37 | the reader stands at the start of exactly the payload given |
| CompactReader.Reader.Clear | Unreal 5.4 Client/MafiaGame/Source/MafiaGame/CompactBinaryReader.cpp:18-25 | the reader holds nothing |
| CompactReader.Reader.ReadUInt8 | Unreal 5.4 Client/MafiaGame/Source/MafiaGame/CompactBinaryReader.cpp:50-58 | value and cursor are those of the payload's next byte; a short payload leaves the cursor |
| CompactReader.Reader.ReadUInt16 | Unreal 5.4 Client/MafiaGame/Source/MafiaGame/CompactBinaryReader.cpp:63-75 | the same for two little-endian bytes |
| CompactReader.Reader.ReadInt16 | Unreal 5.4 Client/MafiaGame/Source/MafiaGame/CompactBinaryReader.cpp:80-91 | the same, in two's complement |
| CompactReader.Reader.ReadUInt32 | Unreal 5.4 Client/MafiaGame/Source/MafiaGame/CompactBinaryReader.cpp:96-111 | the same for four little-endian bytes |
| CompactReader.Reader.ReadInt32 | Unreal 5.4 Client/MafiaGame/Source/MafiaGame/CompactBinaryReader.cpp:116-120 | the same, in two's complement |
| CompactReader.Reader.ReadString | Unreal 5.4 Client/MafiaGame/Source/MafiaGame/CompactBinaryReader.cpp:135-168 | a refused string (missing bytes or over 100) is empty and still consumes its length prefix |
| CompactReader.Reader.ReadStringArray | Unreal 5.4 Client/MafiaGame/Source/MafiaGame/CompactBinaryReader.cpp:174-180 | a count byte and that many strings in order |
| CompactReader.OffsetAfterAll | Unreal 5.4 Client/MafiaGame/Source/MafiaGame/CompactBinaryReader.cpp:42-180 | no sequence of reads, whatever the bytes, moves the cursor past the payload |
| PacketCodec.SerializeUInt16 | Unreal 5.4 Client/MafiaGame/Source/MafiaGame/OptimizedBinaryPacketSerializer.cpp:73-77 | writes the two low bytes at the offset and nothing else |
| PacketCodec.SerializeUInt32 | Unreal 5.4 Client/MafiaGame/Source/MafiaGame/OptimizedBinaryPacketSerializer.cpp:90-96 | writes the four low bytes at the offset and nothing else |
| PacketCodec.SerializeString | Unreal 5.4 Client/MafiaGame/Source/MafiaGame/OptimizedBinaryPacketSerializer.cpp:43-57 | writes the 16-bit length and the UTF-8 bytes at the offset and nothing else |
| PacketCodec.SerializeStringVector | Unreal 5.4 Client/MafiaGame/Source/MafiaGame/OptimizedBinaryPacketSerializer.cpp:121-128 | writes the 8-bit count and every string at the offset and nothing else |
| PacketCodec.WrapPacketWithXXHash | Unreal 5.4 Client/MafiaGame/Source/MafiaGame/OptimizedBinaryPacketSerializer.cpp:15-31 | the header space becomes the header of the payload behind it; the payload and what follows stay |
| PacketCodec.ChangePacket | Unreal 5.4 Client/MafiaGame/Source/MafiaGame/OptimizedBinaryPacketSerializer.cpp:133-139 | only the type byte changes |
| PacketCodec.ParseSecurePacket | Unreal 5.4 Client/MafiaGame/Source/MafiaGame/OptimizedBinaryPacketSerializer.cpp:144-187 | accepts exactly the packets whose magic, version, size, hash and type check, and sets the reader to exactly the payload |
| PacketCodec.SignedRoundTrip | Unreal 5.4 Client/MafiaGame/Source/MafiaGame/OptimizedBinaryPacketSerializer.cpp:67-86 | every 16- and 32-bit signed value survives writing and reading |
| PacketCodec.NumberRoundTrip | Unreal 5.4 Client/MafiaGame/Source/MafiaGame/OptimizedBinaryPacketSerializer.cpp:67-96 | 8-, 16- and 32-bit numbers read back from wherever they were written |
| PacketCodec.LittleDigits | Unreal 5.4 Client/MafiaGame/Source/MafiaGame/OptimizedBinaryPacketSerializer.cpp:67-96 | each byte of an encoded number is its digit to base 256, the lowest first |
| PacketCodec.Utf8Spells | Unreal 5.4 Client/MafiaGame/Source/MafiaGame/OptimizedBinaryPacketSerializer.cpp:43-57 | each character becomes its shortest UTF-8 form, lead byte and continuation bytes spelling its code point (section 3 of RFC 3629) |
| PacketCodec.PacketLayout | Unreal 5.4 Client/MafiaGame/Source/MafiaGame/OptimizedBinaryPacketSerializer.cpp:15-31 | the twelve header bytes: 40 23, version 2, type, size and hash, lowest bytes first |
| PacketCodec.AcceptsExactlyPackets | Unreal 5.4 Client/MafiaGame/Source/MafiaGame/OptimizedBinaryPacketSerializer.cpp:144-187 | the parser accepts exactly what the writer writes under a type below 200, followed by anything |
| PacketCodec.WrappedParses | Unreal 5.4 Client/MafiaGame/Source/MafiaGame/OptimizedBinaryPacketSerializer.cpp:15-187 | a wrapped packet, whatever follows it, is accepted if and only if its type is below 200, and parses to its payload |
| PacketCodec.ChangeOnlyType | Unreal 5.4 Client/MafiaGame/Source/MafiaGame/OptimizedBinaryPacketSerializer.cpp:133-187 | changing the type of an accepted packet changes the reported type only, and it stays accepted if and only if the new type is below 200 |
| PacketCodec.CorruptionRejected | Unreal 5.4 Client/MafiaGame/Source/MafiaGame/OptimizedBinaryPacketSerializer.cpp:144-187 | an accepted packet with one aligned word or one trailing byte of its payload corrupted is rejected |
| PacketCodec.StringRoundTrip | Unreal 5.4 Client/MafiaGame/Source/MafiaGame/OptimizedBinaryPacketSerializer.cpp:43-57 | a string reads back if and only if it is ASCII of at most 100 bytes; the cursor then stands right after it |
| PacketCodec.FirstBadString | Unreal 5.4 Client/MafiaGame/Source/MafiaGame/OptimizedBinaryPacketSerializer.cpp:121-128 | one string that does not survive spoils the list, whatever follows |
| PacketCodec.VectorRoundTrip | Unreal 5.4 Client/MafiaGame/Source/MafiaGame/OptimizedBinaryPacketSerializer.cpp:121-128 | a list reads back if and only if it has at most 255 entries, each ASCII of at most 100 bytes; the cursor then ends at the end of the payload |
| PacketCodec.PacketRoundTrip | Unreal 5.4 Client/MafiaGame/Source/MafiaGame/OptimizedBinaryPacketSerializer.cpp:15-187 | such a list, wrapped under a valid type and followed by any bytes, is accepted and read back whole |
| MafiaGame.TeamsAddUp | Unreal 5.4 Client/MafiaGame/Source/MafiaGame/DedicatedGameMode.cpp:671-695 | the living are the living Mafia and the living others |
| MafiaGame.ShuffleDeals | Unreal 5.4 Client/MafiaGame/Source/MafiaGame/DedicatedGameMode.cpp:252-276 | any shuffle deals exactly one Mafia, one Police, one Detective and three Citizens to six registered players |
| MafiaGame.TallyNext | Unreal 5.4 Client/MafiaGame/Source/MafiaGame/DedicatedGameMode.cpp:593-617 | a new accepted vote moves exactly one vote, from the voter's last choice to the new one |
| MafiaGame.TwoTallies | Unreal 5.4 Client/MafiaGame/Source/MafiaGame/DedicatedGameMode.cpp:622-650 | two candidates together never have more votes than there are living players |
| MafiaGame.MajorityIsAlone | Unreal 5.4 Client/MafiaGame/Source/MafiaGame/DedicatedGameMode.cpp:626-645 | reaching the majority leaves no tie |
| MafiaGame.KillKeepsCounts | Unreal 5.4 Client/MafiaGame/Source/MafiaGame/DedicatedGameMode.cpp:533-541 | correct counters stay correct through a night kill if and only if the target names no player, or a living one that is not Mafia |
| MafiaGame.KillChoiceFair | Unreal 5.4 Client/MafiaGame/Source/MafiaGame/DedicatedGameMode.cpp:513-528 | the chosen target is fair when every living Mafia's is |
| MafiaGame.ReportGuard | Unreal 5.4 Client/MafiaGame/Source/MafiaGame/DedicatedGameMode.cpp:564-569 | while only players act, the report to the Detective dereferences a null player, so that the night never ends, if and only if the player watched named a target nobody has |
| MafiaGame.StrangerStopsNight | Unreal 5.4 Client/MafiaGame/Source/MafiaGame/DedicatedGameMode.cpp:482-588 | from any sound night: once a player has named a target nobody has and the only Detective watches that player, both accepted by the server, the end of the night crashes it |
| MafiaGame.StrangerExample | Unreal 5.4 Client/MafiaGame/Source/MafiaGame/DedicatedGameMode.cpp:482-588 | it happens in the first night of a six-player game when the Police names a stranger and the Detective watches the Police |
| MafiaGame.KnownKept | Unreal 5.4 Client/MafiaGame/Source/MafiaGame/DedicatedGameMode.cpp:482-500 | through every run whose night actions name players the recorded targets name players |
| MafiaGame.KnownNeverCrashes | Unreal 5.4 Client/MafiaGame/Source/MafiaGame/DedicatedGameMode.cpp:564-588 | a night whose recorded targets all name players can be reported |
| MafiaGame.VoteCounted | Unreal 5.4 Client/MafiaGame/Source/MafiaGame/DedicatedGameMode.cpp:593-617 | after an accepted vote every count is the number of players whose latest accepted vote names its holder; the clamp at zero is never reached |
| MafiaGame.ExecutionCounted | Unreal 5.4 Client/MafiaGame/Source/MafiaGame/DedicatedGameMode.cpp:427-455 | an execution's counter updates give the true counts, for either team |
| MafiaGame.NightKeepsSettled | Unreal 5.4 Client/MafiaGame/Source/MafiaGame/DedicatedGameMode.cpp:505-588 | a fair night leaves one living Mafia, at least two living players and true counters |
| MafiaGame.MajorityFound | Unreal 5.4 Client/MafiaGame/Source/MafiaGame/DedicatedGameMode.cpp:622-650 | the vote loop's maximum has the majority exactly when some player has, and then it is untied |
| MafiaGame.GameMode.FindPlayerStateByHash | Unreal 5.4 Client/MafiaGame/Source/MafiaGame/DedicatedGameMode.cpp:697-705 | the loop finds the first match |
| MafiaGame.GameMode.Shuffle | Unreal 5.4 Client/MafiaGame/Source/MafiaGame/DedicatedGameMode.cpp:252-257 | whatever the rolls, the indices stay a permutation |
| MafiaGame.GameMode.AssignJobs | Unreal 5.4 Client/MafiaGame/Source/MafiaGame/DedicatedGameMode.cpp:245-289 | other than six registered hashes change nothing; six registered players get the full set of jobs and counters equal to the true counts, 1, 5 and 6 |
| MafiaGame.GameMode.StartGame | Unreal 5.4 Client/MafiaGame/Source/MafiaGame/DedicatedGameMode.cpp:310-315 | day one begins with a morning, everyone alive and the counters as dealt |
| MafiaGame.GameMode.AutoStart | Unreal 5.4 Client/MafiaGame/Source/MafiaGame/DedicatedGameMode.cpp:141-160 | from the last login to the first morning |
| MafiaGame.GameMode.CheckWinCondition | Unreal 5.4 Client/MafiaGame/Source/MafiaGame/DedicatedGameMode.cpp:671-695 | the game ends exactly with no Mafia left, or one Mafia among two living |
| MafiaGame.GameMode.StartMorningPhase | Unreal 5.4 Client/MafiaGame/Source/MafiaGame/DedicatedGameMode.cpp:345-361 | it returns if and only if it is the first morning or the report to the Detective can be made; then the night's kill and counters are applied, targets and actions cleared, and the game ends exactly when two living remain; the first morning changes nothing |
| MafiaGame.GameMode.ProcessNightResults | Unreal 5.4 Client/MafiaGame/Source/MafiaGame/DedicatedGameMode.cpp:505-588 | players, counters and night actions after any night, fair or not, and whom the Detective is told the watched player visited; where that lookup is of a player that does not exist it stops with the kill applied and nothing cleared |
| MafiaGame.GameMode.StartVotingPhase | Unreal 5.4 Client/MafiaGame/Source/MafiaGame/DedicatedGameMode.cpp:366-390 | all counts and the vote map start empty and agree; nothing else about a player changes |
| MafiaGame.GameMode.ServerCastVote | Unreal 5.4 Client/MafiaGame/Source/MafiaGame/DedicatedGameMode.cpp:593-617 | a vote is accepted exactly in the voting phase from one living player for another or the same; all counts keep agreeing with the accepted votes |
| MafiaGame.GameMode.ReplaceVote | Unreal 5.4 Client/MafiaGame/Source/MafiaGame/DedicatedGameMode.cpp:602-616 | the counts after taking back the old vote and adding the new one |
| MafiaGame.GameMode.Standing | Unreal 5.4 Client/MafiaGame/Source/MafiaGame/DedicatedGameMode.cpp:626-640 | the most votes a living player has, one who has them, and how many do |
| MafiaGame.GameMode.ProcessVotingResults | Unreal 5.4 Client/MafiaGame/Source/MafiaGame/DedicatedGameMode.cpp:622-656 | last words follow if and only if more than half of the living currently vote for one living player, who is the one named; else the next night |
| MafiaGame.GameMode.ProcessExecution | Unreal 5.4 Client/MafiaGame/Source/MafiaGame/DedicatedGameMode.cpp:427-460 | the named player dies, counters follow, and the citizens win exactly if it was the Mafia |
| MafiaGame.GameMode.ServerProcessNightAction | Unreal 5.4 Client/MafiaGame/Source/MafiaGame/DedicatedGameMode.cpp:482-500 | a target is stored exactly at night for a living player with a night ability; fair targets keep the game valid |
| MafiaGame.GameMode.OnPhaseTimeEnd | Unreal 5.4 Client/MafiaGame/Source/MafiaGame/DedicatedGameMode.cpp:465-477 | a timeout returns unless it ends a night whose report cannot be made; it then keeps the game valid and takes the one step its phase calls for: a night kills exactly the chosen target, an execution exactly the player named, a morning or a vote nobody, and a vote names the player with the majority |
| MafiaGame.GameMode.Handle | Unreal 5.4 Client/MafiaGame/Source/MafiaGame/DedicatedGameMode.cpp:310-695 | every event, except the end of a night whose report cannot be made, keeps the game valid and has exactly the effect on phase, votes, night actions, counters, players and the player named that the rules give it |
| MafiaGame.GameMode.Play | Unreal 5.4 Client/MafiaGame/Source/MafiaGame/DedicatedGameMode.cpp:310-695 | over every run with fair night targets, in every state up to its end or to the first night whose report cannot be made: the counters are the true counts, a running game has one living Mafia and at least three living players, vote counts are those of the latest accepted votes, and whoever speaks last words has the votes of more than half of the living; every step does exactly what its event calls for; the run stops early only at such a night, and never if all night targets name players |
| MafiaRules.CountIsSize | Unreal 5.4 Client/MafiaGame/Source/MafiaGame/DedicatedGameMode.cpp:427-455 | the counted living, of everyone or of a team, are the size of that set of players |
| MafiaRules.TallyIsSize | Unreal 5.4 Client/MafiaGame/Source/MafiaGame/DedicatedGameMode.cpp:593-617 | a tally is the size of the set of players whose latest accepted vote it is |
| MafiaRules.DealtOnce | Unreal 5.4 Client/MafiaGame/Source/MafiaGame/DedicatedGameMode.cpp:245-289 | each job with a night ability belongs to exactly one player, and everybody else is a Citizen |
| MafiaRules.WhoActs | Unreal 5.4 Client/MafiaGame/Source/MafiaGame/MafiaPlayerState.cpp:58-68 | at night exactly the living Mafia, Police and Detective act: their target is recorded and nothing else changes |
| MafiaRules.MafiaKills | Unreal 5.4 Client/MafiaGame/Source/MafiaGame/DedicatedGameMode.cpp:482-588 | when the Mafia names a living player of the other team and the night ends, exactly that player dies, the counters follow and all targets are forgotten |
| MafiaRules.DetectiveHears | Unreal 5.4 Client/MafiaGame/Source/MafiaGame/DedicatedGameMode.cpp:564-569 | the Detective hears whom the watched player named, or that the player named nobody |
| MafiaRules.WhoVotes | Unreal 5.4 Client/MafiaGame/Source/MafiaGame/DedicatedGameMode.cpp:593-617 | exactly the living vote, for the living: the voter's choice becomes the one named, who has one vote more unless named before |
| MafiaRules.ChosenIsExecuted | Unreal 5.4 Client/MafiaGame/Source/MafiaGame/DedicatedGameMode.cpp:427-656 | a player named by more than half of the living speaks last words and is dead after them, and nobody else dies |
| MafiaRules.NobodyChosen | Unreal 5.4 Client/MafiaGame/Source/MafiaGame/DedicatedGameMode.cpp:622-656 | if nobody is named by more than half of the living, night falls and nobody dies |
| MafiaRules.WhatFollows | Unreal 5.4 Client/MafiaGame/Source/MafiaGame/DedicatedGameMode.cpp:345-695 | which phase follows which, when the game ends and who has won |
| Smbios.SkipRun | DirectX11 Client/AntiCheatd/AntiCheat/GetHardware/GetHardware.c:96-99 | the scan passes every byte that is not zero |
| Smbios.SkipStrings | DirectX11 Client/AntiCheatd/AntiCheat/GetHardware/GetHardware.c:96-100 | the scan passes every string of a well-formed area and stops at its closing double zero, never inside |
| Smbios.NextPrinted | DirectX11 Client/AntiCheatd/AntiCheat/GetHardware/GetHardware.c:94-100 | from the start of a printed structure the walk goes exactly to its end |
| Smbios.WalkPrinted | DirectX11 Client/AntiCheatd/AntiCheat/GetHardware/GetHardware.c:75-101 | over every well-formed table the walk visits exactly the printed structures, in order, and stops |
| Smbios.StartsPrinted | DirectX11 Client/AntiCheatd/AntiCheat/GetHardware/GetHardware.c:75-101 | each structure is printed where the walk looks for it |
| Smbios.QueriesStayInside | DirectX11 Client/AntiCheatd/AntiCheat/GetHardware/GetHardware.c:75-217 | on a well-formed table no header, field or scan of either query reads behind its end |
| Smbios.CutOffOverreads | DirectX11 Client/AntiCheatd/AntiCheat/GetHardware/GetHardware.c:94-100 | a table cut off before its last zero makes the scan read behind it |
| Smbios.HexInjective | DirectX11 Client/AntiCheatd/AntiCheat/GetHardware/GetHardware.c:186-193 | different identifiers have different texts |
| Smbios.UuidTextInjective | DirectX11 Client/AntiCheatd/AntiCheat/GetHardware/GetHardware.c:83-89 | different UUIDs have different texts |
| Smbios.CpuTextInjective | DirectX11 Client/AntiCheatd/AntiCheat/GetHardware/GetHardware.c:186-193 | different processor identifiers have different texts, so comparing texts removes exactly the duplicates |
| Smbios.ReadPrinted | DirectX11 Client/AntiCheatd/AntiCheat/GetHardware/GetHardware.c:77-198 | the fields read at the visited positions are the structures' own |
| Smbios.StoreKeepsFirst | DirectX11 Client/AntiCheatd/AntiCheat/GetHardware/GetHardware.c:195-209 | keeping what is new while there is room keeps the first eight different texts in first-seen order |
| Smbios.FirstSeenTexts | DirectX11 Client/AntiCheatd/AntiCheat/GetHardware/GetHardware.c:195-209 | removing duplicate texts removes exactly the duplicate identifiers |
| Smbios.JoinFits | DirectX11 Client/AntiCheatd/AntiCheat/GetHardware/GetHardware.c:219-230 | the joined text is whole if and only if it and its closing zero fit the buffer |
| Smbios.JoinStaysInside | DirectX11 Client/AntiCheatd/AntiCheat/GetHardware/GetHardware.c:219-230 | every write of the join stays inside the buffer if and only if its size is at least 3 or there are no more identifiers than bytes |
| Smbios.SerialOfTable | DirectX11 Client/AntiCheatd/AntiCheat/GetHardware/GetHardware.c:75-107 | on a well-formed table the serial query reads only the table, and its text is the first system structure's UUID, or NONE |
| Smbios.CpuReportOfTable | DirectX11 Client/AntiCheatd/AntiCheat/GetHardware/GetHardware.c:180-238 | on a well-formed table the processor query reads only the table, and its text is the first eight different identifiers in first-seen order with comma and space between, or NONE, if and only if the buffer has room for them and a closing zero |
| Smbios.CopyText | DirectX11 Client/AntiCheatd/AntiCheat/GetHardware/GetHardware.c:83-107 | a bounded copy leaves the clipped text and zeros |
| Smbios.GetMainboardSerial | DirectX11 Client/AntiCheatd/AntiCheat/GetHardware/GetHardware.c:16-111 | on any mapped table: it reads behind the table exactly if a step or field before the first system structure's end does, and otherwise the buffer holds the text of that structure, and the walk ends |
| Smbios.NextStructure | DirectX11 Client/AntiCheatd/AntiCheat/GetHardware/GetHardware.c:94-101 | the scan loop ends at the next position of the walk, unless it would read behind the table |
| Smbios.CollectCpus | DirectX11 Client/AntiCheatd/AntiCheat/GetHardware/GetHardware.c:180-217 | on any mapped table: it reads behind the table exactly if a step or processor field does, and otherwise stores the first eight different texts the walk meets |
| Smbios.GetCPUInfo | DirectX11 Client/AntiCheatd/AntiCheat/GetHardware/GetHardware.c:117-240 | for any mapped table and buffer: exactly when it reads behind the table, exactly when it writes behind the buffer, and otherwise status and contents of the buffer |
| Smbios.JoinIds | DirectX11 Client/AntiCheatd/AntiCheat/GetHardware/GetHardware.c:219-230 | the join in place, with the source's unsigned room check: it writes behind the buffer exactly if that is of one or two bytes and there are more identifiers than bytes |
| SmbiosTexts.KnownStructure | DirectX11 Client/AntiCheatd/AntiCheat/GetHardware/GetHardware.c:75-101 | how a structure stands in memory: type, length, handle, fields, strings and their zeros |
| SmbiosTexts.HexSpells | DirectX11 Client/AntiCheatd/AntiCheat/GetHardware/GetHardware.c:83-89 | the digits of a text, read as a hexadecimal number, are the bytes it was made from |
| SmbiosTexts.CpuTextSpells | DirectX11 Client/AntiCheatd/AntiCheat/GetHardware/GetHardware.c:186-193 | the text of a processor identifier is the little-endian number of its eight bytes |
| SmbiosTexts.UuidTextSpells | DirectX11 Client/AntiCheatd/AntiCheat/GetHardware/GetHardware.c:83-89 | the text of a UUID is the number of its sixteen bytes in order, in groups of 8, 4, 4, 4 and 12 digits |
| SmbiosTexts.FirstSystemNamed | DirectX11 Client/AntiCheatd/AntiCheat/GetHardware/GetHardware.c:75-92 | the serial text is that of the UUID field of the first structure of type 1, whatever stands around it |
| SmbiosTexts.NoSystemNamed | DirectX11 Client/AntiCheatd/AntiCheat/GetHardware/GetHardware.c:103-107 | without such a structure it is NONE |
| SmbiosTexts.ProcessorNamed | DirectX11 Client/AntiCheatd/AntiCheat/GetHardware/GetHardware.c:180-193 | the processor identifiers are the identifier fields of the structures of type 4, in table order |
| SmbiosTexts.FirstSeenOrdered | DirectX11 Client/AntiCheatd/AntiCheat/GetHardware/GetHardware.c:195-209 | removing duplicates keeps each identifier once, in the order in which they are met |
| SmbiosTexts.EightKept | DirectX11 Client/AntiCheatd/AntiCheat/GetHardware/GetHardware.c:205-209 | the first eight are kept |
| SmbiosTexts.CommasAt | DirectX11 Client/AntiCheatd/AntiCheat/GetHardware/GetHardware.c:219-230 | in the joined text identifier k stands at 18 * k, with a comma and a space behind each but the last |
| SmbiosTexts.JoinedTooSmall | DirectX11 Client/AntiCheatd/AntiCheat/GetHardware/GetHardware.c:219-230 | a buffer with room for one identifier only still gets a separator for each further one |
| ObjectPool.TakeKeeps | LinuxServer/RoutingServerForAuth/RoutingServerForAuth/MemoryPool/MemoryPool.cpp:65-74 | taking the front object or blocking keeps the invariant |
| ObjectPool.ReleaseKeepsPartition | LinuxServer/RoutingServerForAuth/RoutingServerForAuth/MemoryPool/MemoryPool.cpp:106-118 | releasing keeps the partition if and only if the object is one still borrowed |
| ObjectPool.PushKeeps | LinuxServer/RoutingServerForAuth/RoutingServerForAuth/MemoryPool/MemoryPool.cpp:112-116 | pushing keeps the invariant |
| ObjectPool.NotifyKeeps | LinuxServer/RoutingServerForAuth/RoutingServerForAuth/MemoryPool/MemoryPool.cpp:117-117 | a notification keeps the invariant, sent to a waiting thread or to nobody |
| ObjectPool.StepKeeps | LinuxServer/RoutingServerForAuth/RoutingServerForAuth/MemoryPool/MemoryPool.cpp:65-118 | so does every atomic step, spurious wake-ups included |
| ObjectPool.StartInv | LinuxServer/RoutingServerForAuth/RoutingServerForAuth/MemoryPool/MemoryPool.cpp:32-56 | the initialised pool satisfies the invariant |
| ObjectPool.RunKeeps | LinuxServer/RoutingServerForAuth/RoutingServerForAuth/MemoryPool/MemoryPool.cpp:32-118 | over every interleaving: the invariant holds at the end of every run |
| ObjectPool.Reachable | LinuxServer/RoutingServerForAuth/RoutingServerForAuth/MemoryPool/MemoryPool.cpp:32-118 | in every reachable state each object is in exactly one of queue, borrowers and releasers; a waiting thread means no more free objects than wake-ups under way; no free object holds a client's data |
| ObjectPool.TakesUnshared | LinuxServer/RoutingServerForAuth/RoutingServerForAuth/MemoryPool/MemoryPool.cpp:65-74 | what a thread takes nobody else holds |
| ObjectPool.Quiescent | LinuxServer/RoutingServerForAuth/RoutingServerForAuth/MemoryPool/MemoryPool.cpp:65-118 | with no wake-up under way a waiting thread means an empty queue, and if every object is back nobody waits |
| ObjectPool.FirstInFirstOut | LinuxServer/RoutingServerForAuth/RoutingServerForAuth/MemoryPool/MemoryPool.cpp:65-118 | over every run the objects taken, then those still queued, are those queued at first, then those returned: first in, first out |
| ObjectPool.KnownRun | LinuxServer/RoutingServerForAuth/RoutingServerForAuth/MemoryPool/MemoryPool.cpp:65-118 | with one object and two threads the second waits for the first to return it, is woken and gets it |
| ObjectPool.Pool.constructor | LinuxServer/RoutingServerForAuth/RoutingServerForAuth/MemoryPool/MemoryPool.cpp:32-56 | the initialisation loop makes and queues every object once |
| ObjectPool.Pool.TakeFront | LinuxServer/RoutingServerForAuth/RoutingServerForAuth/MemoryPool/MemoryPool.cpp:65-74 | the locked part of acquire is that step, and hands out an unshared, clean object |
| ObjectPool.Pool.Clear | LinuxServer/RoutingServerForAuth/RoutingServerForAuth/MemoryPool/MemoryPool.cpp:106-111 | release before the lock is that step |
| ObjectPool.Pool.PushBack | LinuxServer/RoutingServerForAuth/RoutingServerForAuth/MemoryPool/MemoryPool.cpp:112-116 | the locked part of release is that step |

## Left out

- DrawPrimitives.PrimRect: reserves its own 4 vertices and 6 indices, which in the source its callers do just before calling it.
- DrawLayers.RunLayers: a pop of an empty stack is skipped, and so is a shape whose vertices 16-bit indices cannot all reach (more than 65536 of its own or, when the vertex offset may not move, since the offset; exactly 65536 of its own where the code casts that count to 16 bits), since the source requires its callers not to issue them.
- DrawList.List.PrimReserve: 32-bit overflow of buffer sizes and offsets is not modelled.
- DrawList.List.PrimUnreserve: the counts may not exceed what the last command and the vertex buffer hold, as callers giving back part of a reservation respect.
- ArcPath.Path.ArcToFastEx: the automatic segment count is any positive number; 32-bit overflow of sample numbers is not modelled.
- LzDecoder.StbDecompress: the input is memory without an end, as the source's pointer is; 32-bit wrap of the output pointer and the assertions, compiled out, are not modelled, nor the input lower barrier check of literals, which never fires.
- GlyphRanges.Builder.AddRanges: the list must be terminated, which the source relies on.
- CodeIntegrity.Guard.AddCrc: finding the process, its image and its sections is a parameter; reading the executable's headers is not modelled.
- CodeIntegrity.Guard.AddProtectedProcess: protection is never disabled again in a session; integrity threads and callbacks are not modelled.
- AlertRing.Queue.AddSecurityAlert: the spin lock makes each operation atomic, so runs are sequences of operations.
- XxHash32.UnitChangeDetected: says nothing about changes of more than one aligned word or trailing byte, which can collide.
- CompactReader.Reader.ReadStringArray: the body of the source is cut off at its last line; a count byte and that many string reads are modelled, as its header describes.
- CompactReader.Reader.ReadString: each byte becomes the character of its value, so only ASCII text survives.
- CompactReader and PacketCodec: floats, booleans and bit flags.
- MafiaGame.GameMode.Play: players stay connected, and a living Mafia targets a living player of the other team or nobody that exists; the server checks neither. A run ends where the server dereferences a null pointer.
- MafiaGame.GameMode.ProcessNightResults: the police report, which changes no state and checks for a player that does not exist; the wording and delivery of the detective's report.
- MafiaGame.GameMode.AssignJobs: the players are values in one sequence, not separate actors; hashes are compared exactly, not ignoring case; random rolls are arbitrary choices.
- MafiaGame.GameMode.StartMorningPhase: timers are single nondeterministic events; light, movement, chat, last words' text and notifications are not modelled.
- Smbios.GetCPUInfo: what memory holds after a write past a buffer of one or two bytes; the callers pass 256.
- Smbios.GetMainboardSerial: finding the entry point and mapping memory; what happens after a read behind the mapped table.
- Smbios.WalkPrinted: well-formed means that system and processor structures hold the fields read from them.
- ObjectPool.Reachable: each holder releases what it borrowed, once; the mutex makes the locked parts atomic, and a notification wakes a waiting thread when there is one.
- ObjectPool.Pool.constructor: initialisation runs once, before any thread uses the pool.
- The hardware message, whose two sides declare different layouts, sockets, services, memory mapping and kernel callbacks.
- Geometry of any kind: positions, normals, curves, texture coordinates, colours, text; the truetype and rectangle packing libraries.
- Clip rectangles are compared as real numbers, the source compares their bytes; it treats zero and negative zero as different, which here are one.
