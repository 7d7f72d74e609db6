# Receive-side graphics pipeline of sccm-rc: model and proofs

sccm-rc shows a remote desktop that arrives as bulk-compressed fast-path updates. This project models the way
from those bytes to the pixels on the viewer's frame, and proves exactly when nothing is lost, repeated, reordered or left
unshown on the way:

- **Bulk decompression** (`Mppc`, `MppcPeer`, `MppcFacts`): the bit-level MPPC decoder over its persistent 64K history.
  Streams have a recursive meaning (`Run`, `After`, `Plain`); the decoder's loops over its array are proved to compute
  it, and a peer that compresses at will is proved to stay in lockstep with it over sessions of any length.
  `MppcReference`, `MppcRefinement` and `MppcAcceptance` do the same for the C decoder with its 32-bit accumulator and
  prefetch word, and prove that it accepts what a peer sends and that the two agree packet by packet. Section 3.1.8.4.2 of MS-RDPBCGR and the length code of RFC 2118.
- **Fast path** (`FastPath`, `Pipeline`, `Delivery`): multi-update PDUs are decompressed, rebuilt, queued, fed back and reassembled.
  Section 2.2.9.1.2 of MS-RDPBCGR.
- **Drawing orders** (`Fields`, `Orders`, `OrderLayouts`, `OrderRoundTrip`, `Bitmaps`, `Glyphs`, `TextRuns`, `Lines`,
  `Rects`, `Pictures`, `ScreenCopy`, `Canvas`, `Render`, `OrderPixels`, `TextPixels`, `Footprint`, `CacheOrders`, `Processor`): the delta-coded order stream with its sticky state, the caches, the painters and the
  processor that ties them together. A stream parses to actions, actions have a meaning on pictures, and the processor's
  interleaved, mutating loops are proved to compute parse-then-execute. What stands in which byte of an order and what each
  order leaves on each pixel is stated in literal positions, widths and colours beside it. Sections 2.2.2.2.1.1.2 and 2.2.2.2.1.2 of
  MS-RDPEGDI.
- **Dirty regions** (`Composite`, `Mirror`): dirty rectangle, region, composite frame, pending region, the viewer's
  incremental copy and its texture upload. The cheap view is proved to agree with the full frame on every run.
- **From end to end** (`Screen`): the closing theorem puts the stages together, from PDU bytes to the texture.
- **Around it**: the rewriter of nested lengths in a DemandActive frame (`CapabilityFix`), the cancel-safe deframer
  (`Deframer`), the desync detector (`Desync`) and the civil dates of the audit log (`Civil`).

Classes and loops stand where the program has them (`MppcDecompressor`, `BitStream`, `Receiver`, `Cursor`, `OrderCanvas`,
`GlyphCache`, `BitmapCache`, `OrderProcessor`, `CompositeFrame`, `FrameSink`, `Connection`, `Detector`); each is tied by its
contracts to a function, and the properties are proved about the functions. `Arith`, `Bits`, `BitOps`, `Options` and
`Tables` are shared ground. `dafny verify dfyconfig.toml` checks everything.

## What the proofs settle

- **Screen copy.** The comment at canvas.rs:292-294 promises an overlap-safe copy. The direction chosen at lines 305-306
  reads pixels already overwritten, in all four overlapping directions. `ScreenCopy.CodedIsSimultaneousIff` gives the exact
  condition under which the code keeps the promise, `Canvas.OrderCanvas.CopyRect` what it paints otherwise (a smear), and
  `CopyRectOpposite` proves that the opposite direction keeps it always.
- **Reading past the data.** `bits_left` is an unsigned subtraction. Once a last token has read past the data it wraps and
  the loop does not stop until the window is full (`MppcFacts.OverReadFillsWindow`). The single byte 0x80 does it
  (`OneByteFillsWindow`); `StopsInDataIff` gives the exact condition. Padding under eight bits never gets there
  (`MppcPeer.RunTokens`).
- **Offset zero.** The C decoder copies a byte onto itself where the Rust decoder stops; apart from that, every packet
  the C decoder accepts is decoded alike (`MppcRefinement.AcceptedRunsAgree`).
- **Updates that are not read.** Empty plaintexts behind a compression header are dropped on rebuilding, and of a PDU without
  compressed updates only the first update is read (`Pipeline.PlainPduReadsFirstOnly`). `Delivery.EndToEnd` gives the exact
  condition on whole runs: the messages arrive if and only if all that is not read are empty middle fragments. Two messages
  damaged at their ends can come out as one that was never sent (`Delivery.DamagedMessagesSplice`). The comment at
  rdp.rs:1992-1993 speaks of SINGLE fragments; the code keeps the fragmentation bits, and so does the model.
- **Derived depths.** A Rev2 bitmap whose depth id names no depth gets one from its byte count. A raw 15-bit tile is taken for
  16 bits (`CacheOrders.ExactDataDepthIff`).
- **Lines.** 32 bits are enough for all lines with coordinates up to 357913941, a third of 2^30, and for no wider range
  (`Lines.LinesFitIff`).
- **Unions of rectangles.** A union saturates when a rectangle lies too far off, and then misses pixels
  (`Rects.UnionCoversIff`).
- **Reactivation.** A reactivation to the size the viewer already shows clears the composite without a pending region
  (`Composite.ReactivationAgreesIff`).
- **Failed updates.** Orders drawn before an update fails reach the canvas but not the composite
  (`Mirror.FailedUpdateStaysHidden`). `Mirror.FailedUpdateLevelIff` says exactly which failing updates do no harm, and
  `Mirror.DifferencesAreStale` where composite and canvas can differ after any run. As long as updates decode, both stay
  equal (`Mirror.CompositeIsCanvas`).
- **Left edges.** The composite clamps a region's left edge to its right one, the viewer does not
  (`Composite.AlwaysShownIff`).
- **Nested lengths.** The one-byte MCS form is not patched (`CapabilityFix.McsStaysRightIff`).
- **Fragment escapes.** The comment at primary.rs:251-255 says that they are not rendered yet; the code replays them, and
  the model follows the code.

## Model

| member | source | states |
|---|---|---|
| `Mppc.MppcDecompressor.Decompress` | crates/sccm-rc-protocol/src/mppc.rs:52-126 | Decompressing any packet gives the plaintext and leaves the history array and write position that the stream semantics `Plain` and `After` define, flags and uncompressed packets included |
| `Mppc.MppcDecompressor.DecodeStream` | crates/sccm-rc-protocol/src/mppc.rs:76-125 | The token loop, written over the array, computes the recursive run of the stream and returns exactly the cells between old and new write position |
| `Mppc.MppcDecompressor.CopyWithin` | crates/sccm-rc-protocol/src/mppc.rs:110-121 | The byte-by-byte overlapping copy on the array is the forward copy `CopyLinear` |
| `Mppc.ReadToken` | crates/sccm-rc-protocol/src/mppc.rs:78-107 | The bit reader decodes the token that stands at its bit position and advances by the width of its code word |
| `Mppc.DecodeOffset` | crates/sccm-rc-protocol/src/mppc.rs:131-147 | The four offset classes are read with their bases and widths |
| `Mppc.DecodeLength` | crates/sccm-rc-protocol/src/mppc.rs:150-168 | A run of ones, cut at 30, selects the field width and base of the length |
| `Mppc.BitReader.ReadBits` | crates/sccm-rc-protocol/src/mppc.rs:187-216 | Reading n bits yields the big-endian value of the next n stream bits, zeros past the end |
| `MppcFacts.GuardFailsIff` | crates/sccm-rc-protocol/src/mppc.rs:76 | The loop's guard fails exactly in the last eight bit positions of the data: not before, where a token still fits, and not behind, where the subtraction wraps |
| `Mppc.RunFrame` | crates/sccm-rc-protocol/src/mppc.rs:73-125 | For arbitrary input, cells outside the old-to-new write range stay unchanged |
| `MppcFacts.PacketWritesItsPlaintext` | crates/sccm-rc-protocol/src/mppc.rs:52-126 | For any bytes at all: the plaintext is the history between the reset and the new write position, all other cells are unchanged, the position stays within 64K and the upper 64K stays zero |
| `MppcFacts.CopyIsPeriodic` | crates/sccm-rc-protocol/src/mppc.rs:108-121 | A copy from behind the write position extends the window periodically, overlap included |
| `MppcFacts.CopyAheadReadsBeforeCall` | crates/sccm-rc-protocol/src/mppc.rs:108-121 | A copy met in a packet's run whose masked source lies at or ahead of the write position leaves in the final history the bytes that stood at its source before the call |
| `MppcFacts.OverReadFillsWindow` | crates/sccm-rc-protocol/src/mppc.rs:76-107 | Once a token has run past the data, the wrapped bit count never ends the loop: the rest of the window is filled with zeros |
| `MppcFacts.StopsInDataIff` | crates/sccm-rc-protocol/src/mppc.rs:76-107 | A packet is decoded without reading past its data if and only if walking its code words and adding up their spans from the write position meets a full window or an unfit copy, or the walk ends inside the data; otherwise the write position ends at 64K |
| `MppcFacts.OneByteFillsWindow` | crates/sccm-rc-protocol/src/mppc.rs:76-107 | The one-byte packet 0x80 writes 128 and then zeros to the end of the window, from any state with room |
| `MppcPeer.TokenDecodes` | crates/sccm-rc-protocol/src/mppc.rs:78-107 | Unique decodability: wherever a token's code word stands in a stream the decoder reads that token and its width |
| `MppcPeer.DistanceDecodes` | crates/sccm-rc-protocol/src/mppc.rs:131-147 | Every distance up to 65535 is read back from its code word |
| `MppcPeer.LengthDecodes` | crates/sccm-rc-protocol/src/mppc.rs:150-168 | Every length from 3 to 65535 is read back from its code word |
| `MppcPeer.RunTokens` | crates/sccm-rc-protocol/src/mppc.rs:73-125 | Decoding a zero-padded token stream writes the plaintext the tokens factor, and the padding (under 8 bits) yields no token |
| `MppcPeer.PacketLockstep` | crates/sccm-rc-protocol/src/mppc.rs:52-126 | For every packet a peer may send (any factorisation, any flags) the plaintext comes back and both windows and positions agree again |
| `MppcPeer.SessionLockstep` | crates/sccm-rc-protocol/src/mppc.rs:52-126 | Over sessions of any length every plaintext is returned in order and the decoder agrees with the peer before and after every packet |
| `MppcPeer.FreshInStep` | crates/sccm-rc-protocol/src/mppc.rs:38-44 | A new decoder agrees with a new peer |
| `MppcReference.BitStream.Fetch` | experiments/mppc_ref.c:44-51 | Loading a word gives the next 32 stream bits, zero-extended |
| `MppcReference.BitStream.Shift` | experiments/mppc_ref.c:53-76 | After a shift of up to 31 bits, refills included, the accumulator again holds the next 32 stream bits and the prefetch word the bits behind them |
| `MppcReference.LengthRow` | experiments/mppc_ref.c:120-157 | Each masked row of the length table applies exactly for its run of ones and reads the field of the bit-by-bit decoder |
| `MppcReference.RefLengthIs` | experiments/mppc_ref.c:120-157 | The masked length table reads the same length, and rejects exactly the runs of fifteen or more ones |
| `MppcRefinement.SameTokens` | experiments/mppc_ref.c:112-160 | From its 32-bit words the reference reads the same token as the bit-by-bit decoder and rejects exactly a copy whose length code begins with fifteen or more ones, a length of 65536 or more |
| `MppcRefinement.AcceptedRunsAgree` | experiments/mppc_ref.c:108-173 | Whenever the reference accepts a packet, both decoders end in the same history and position if and only if the packet met no copy with offset zero |
| `MppcRefinement.PacketRefinement` | experiments/mppc_ref.c:100-173 | Of every accepted packet, flags included, equal histories give the same plaintext, history and pointer, if no copy with offset zero is met |
| `MppcRefinement.MppcContext.Decompress` | experiments/mppc_ref.c:100-173 | The reference decoder over its buffer computes the reference run; on rejection it returns the code and the stored pointer stays where the flags left it |
| `MppcAcceptance.AcceptedIff` | experiments/mppc_ref.c:108-173 | For any bytes, the reference accepts a run if and only if its code words meet no full window, no copy of 65536 bytes or more and none that crosses the window's end while its 32-bit count leaves eight bits |
| `MppcAcceptance.PacketAccepted` | experiments/mppc_ref.c:100-173 | The reference accepts every packet a peer may send, any factorisation and any flags, returns its plaintext and is in step with the peer afterwards, in the very state of the Rust decoder |
| `MppcAcceptance.SessionAccepted` | experiments/mppc_ref.c:100-173 | So it does over sessions of any length, packet after packet |
| `FastPath.LengthFaithfulIff` | crates/sccm-rc-core/src/rdp.rs:1920-1933 | The length a rebuilt header declares is the real one if and only if the frame is under 0x8000 bytes |
| `FastPath.RebuiltBytes` | crates/sccm-rc-core/src/rdp.rs:1994-2008 | A rebuilt update byte by byte: the length header, code and fragmentation without the compression bits, the plaintext and its length; nothing for an empty or over-long plaintext |
| `FastPath.RebuiltFramesAreFixedPoints` | crates/sccm-rc-core/src/rdp.rs:1977-2083 | Whatever bytes arrive, every frame handed on or queued passes through when fed back, with decompressor and queue unchanged: nothing is decompressed twice |
| `FastPath.Receiver.MaybeDecompress` | crates/sccm-rc-core/src/rdp.rs:1977-2083 | The loop over a PDU's updates hands on the first rebuilt frame, appends the others to the queue, and leaves the decompressor state that its pieces define |
| `FastPath.Receiver.ReassembleOrders` | crates/sccm-rc-core/src/rdp.rs:2104-2134 | Buffer, active flag and result of one fragment |
| `FastPath.Receiver.Turn` | crates/sccm-rc-core/src/rdp.rs:1438-1439 | A queued frame takes priority over the network; one turn of the loop updates queue, decompressor and assembly together |
| `Pipeline.DrainQueue` | crates/sccm-rc-core/src/rdp.rs:1438-1439 | Queued frames are all delivered, in order and without touching the decompressor, before the next network frame |
| `Pipeline.PduRebuilt` | crates/sccm-rc-core/src/rdp.rs:1994-2083 | The updates of a PDU come out as one plaintext frame each, in order, and the decompressor stays in step with the peer |
| `Pipeline.RunDelivers` | crates/sccm-rc-core/src/rdp.rs:1648-1664 | For every run of PDUs, with and without compressed updates, the streams delivered are the reassembly of the updates read, and the queue ends empty |
| `Pipeline.CutAllReassembles` | crates/sccm-rc-core/src/rdp.rs:2104-2134 | SINGLE and FIRST NEXT* LAST fragments of any messages reassemble to those messages |
| `Pipeline.FrameParsesIff` | crates/sccm-rc-core/src/rdp.rs:2088-2102 | A rebuilt frame reads as its update if and only if its text is short enough for a faithful length field |
| `Delivery.AllDeliver` | crates/sccm-rc-core/src/rdp.rs:2104-2134 | A run of messages never makes more deliveries than messages, and fewer if a FIRST, LAST or SINGLE is not read |
| `Delivery.AllHold` | crates/sccm-rc-core/src/rdp.rs:2104-2134 | With all of those read every message comes out with what was read of it, and unharmed if and only if only empty fragments were left out |
| `Delivery.EndToEnd` | crates/sccm-rc-core/src/rdp.rs:1977-2134 | Over every run of PDUs, compressed or plain, order streams cut into fragments come out byte-identical, once each, in wire order, if and only if every order update that is not read (an empty one dropped, or one behind the first of a plain PDU) is an empty NEXT |
| `Delivery.DeliveredIffEndsNonempty` | crates/sccm-rc-core/src/rdp.rs:1994-1997 | Of messages whose fragments are all compressed, all arrive if and only if none begins or ends with an empty fragment |
| `Delivery.DamagedMessagesSplice` | crates/sccm-rc-core/src/rdp.rs:1994-1997 | A message whose empty LAST is dropped and the next one, whose empty FIRST is dropped, come out as one message that was never sent |
| `Pipeline.PlainPduReadsFirstOnly` | crates/sccm-rc-core/src/rdp.rs:2088-2102 | Of a PDU without compressed updates only the first update is read, whatever kind it is and whatever is being assembled |
| `Rects.ClipExact` | crates/sccm-rc-orders/src/canvas.rs:206-214 | For all rectangles, a pixel is in the saturating clip if and only if it is in the canvas, the destination and the bounds |
| `Rects.InclusiveExactIff` | crates/sccm-rc-orders/src/canvas.rs:34-43 | Inclusive bounds keep their meaning exactly when neither extent saturates or one is empty |
| `Rects.UnionCovers` | crates/sccm-rc-orders/src/canvas.rs:72-89 | A union of rectangles within 2^30 - 1 covers both and stays within |
| `Rects.UnionLeast` | crates/sccm-rc-orders/src/canvas.rs:72-89 | ... and is the least rectangle that covers both |
| `Rects.UnionCoversIff` | crates/sccm-rc-orders/src/canvas.rs:72-89 | Of rectangles whose edges fit 32 bits, the saturating union covers both if and only if its extents fit as well |
| `ScreenCopy.CodedScan` | crates/sccm-rc-orders/src/canvas.rs:295-331 | Scanned in the coded direction, every pixel takes the colour smeared from the first point outside the copied window |
| `ScreenCopy.CodedIsSimultaneousIff` | crates/sccm-rc-orders/src/canvas.rs:292-331 | On all canvas contents the coded copy is the documented overlap-safe one if and only if window and source do not overlap (or nothing moves) |
| `ScreenCopy.IntendedScan` | crates/sccm-rc-orders/src/canvas.rs:292-294 | Scanned in the opposite direction the copy is the simultaneous one, overlap or not |
| `Canvas.OrderCanvas.CopyRect` | crates/sccm-rc-orders/src/canvas.rs:295-331 | The in-place copy loop paints the smear of the coded direction inside the clip and nothing else |
| `Canvas.OrderCanvas.CopyRectOpposite` | crates/sccm-rc-orders/src/canvas.rs:292-331 | With the opposite direction the in-place loop gives every in-canvas pixel its source's colour before the call |
| `Canvas.OrderCanvas.FillRect` | crates/sccm-rc-orders/src/canvas.rs:216-230 | Exactly the clipped pixels take the colour |
| `Canvas.OrderCanvas.BlitGlyph` | crates/sccm-rc-orders/src/canvas.rs:234-262 | Exactly the clipped pixels with a set glyph bit take the colour, missing bytes reading as zero |
| `Canvas.OrderCanvas.DstRop` | crates/sccm-rc-orders/src/canvas.rs:267-290 | Blackness, whiteness and inversion of exactly the clipped pixels; other raster operations paint nothing |
| `Canvas.OrderCanvas.BlitBitmap` | crates/sccm-rc-orders/src/canvas.rs:335-357 | Clipped pixels with a source pixel take it opaquely, the others stay |
| `Lines.StepsInvariant` | crates/sccm-rc-orders/src/primary.rs:694-726 | After any number of turns the longer axis has advanced every turn and the shorter one is the ideal rounded to the nearest, at exactly half to the later; neither overshoots |
| `Lines.PointsFromStartToEnd` | crates/sccm-rc-orders/src/primary.rs:694-726 | The points run from start to end inside the bounding box and only the last is the end |
| `Lines.OnLineIff` | crates/sccm-rc-orders/src/primary.rs:694-726 | A pixel is visited if and only if it lies on the rounded ideal line from start to end, told without the loop |
| `Lines.PointsDistinct` | crates/sccm-rc-orders/src/primary.rs:694-726 | No point is visited twice, so exactly max(dx, dy) + 1 are |
| `Lines.LinesFitIff` | crates/sccm-rc-orders/src/primary.rs:702-726 | All lines with coordinates from -b to b are drawn with 32-bit values only (differences, errors, doubled errors, points) if and only if b is at most 357913941 |
| `Lines.OverflowBeyondBound` | crates/sccm-rc-orders/src/primary.rs:702-726 | One more, and the line from (-b, 0) to (b, 1) leaves 32 bits when it steps aside at its middle |
| `Lines.DrawLine` | crates/sccm-rc-orders/src/primary.rs:694-726 | The loop terminates and paints exactly the clipped points of the line |
| `Lines.LineWithinBox` | crates/sccm-rc-orders/src/primary.rs:238-252 | The rectangle a line reports is the box of its end points and covers all it painted, wherever its extents are below 2^31 - 1 |
| `Glyphs.ProcessGlyphBytes` | crates/sccm-rc-orders/src/primary.rs:283-375 | The run on the mutable canvas and cache, with fragments stored and replayed, paints the glyphs of the recursive run in order, leaves its pen and fragments and reports the joined rectangle; `TextRuns.BytesLaw` says where those glyphs stand |
| `Glyphs.AdvanceRoundTrip` | crates/sccm-rc-orders/src/primary.rs:260-276 | Every advance is read back from its one-byte form or from the two bytes behind the escape |
| `Glyphs.RunWithinDirty` | crates/sccm-rc-orders/src/primary.rs:283-375 | The rectangle of a run covers every pixel it changed, nested fragments included |
| `Glyphs.ReplayIsMacroExpansion` | crates/sccm-rc-orders/src/primary.rs:320-345 | With a fixed advance and no stores, a run paints and moves the pen as the escape-free run of its depth-limited expansion does |
| `TextRuns.RunIsRead` | crates/sccm-rc-orders/src/primary.rs:259-375 | The bytes of an encoded run ask for exactly its glyphs, stores and replays, and a fragment stored holds the last bytes sent before its escape |
| `TextRuns.BytesLaw` | crates/sccm-rc-orders/src/primary.rs:283-375 | For any bytes, pen and fragment cache: each painted glyph stands at the pen's start plus the sum of the advances before it plus its bearing, at the baseline plus its bearing, and the pen ends behind all advances, replays unfolded eight deep |
| `TextRuns.RunLaw` | crates/sccm-rc-orders/src/primary.rs:283-375 | The same for every encoded run over glyphs, stores and replays, with fixed and with sent advances |
| `TextRuns.PlainRun` | crates/sccm-rc-orders/src/primary.rs:283-375 | Without replays the steps are the items: cached glyphs at the sums of the advances before them, and under each id the last bytes before the last escape for it |
| `TextRuns.FixedPitch` | crates/sccm-rc-orders/src/primary.rs:283-375 | With a fixed advance c, the k-th of a run of cached indices stands at x + k * c plus its bearing, and the pen ends at x + n * c |
| `Tables.LookupInserted` | crates/sccm-rc-orders/src/cache.rs:39-69 | An inserted entry is found in its cell and every other cell is unchanged |
| `Fields.Cursor.Bytes` | crates/sccm-rc-orders/src/cursor.rs:84-90 | Bytes are taken whole or, with fewer left, none and an error with both counts |
| `Fields.ReadField` | crates/sccm-rc-orders/src/header.rs:102-132 | Absolute and delta coordinates, bytes, words, colours, brush data and length-prefixed text as the order decoders read them |
| `Fields.DecodeOrder` | crates/sccm-rc-orders/src/primary.rs:32-236 | The flagged fields of an order are read in wire order into its sticky values; an error keeps what was read before it |
| `Fields.KindRoundTrip` | crates/sccm-rc-orders/src/header.rs:102-132 | Every encodable field value, absolute or delta, is read back exactly |
| `Fields.OrderFieldsRoundTrip` | crates/sccm-rc-orders/src/primary.rs:32-236 | Whatever unchanged fields an encoder leaves out or sends as deltas, all values of the order are rebuilt and reading stops at its end |
| `OrderLayouts.DstBltFields` | crates/sccm-rc-orders/src/primary.rs:32-39 | DSTBLT under any field flags: which flag bit announces which bytes, where they stand, which value they give (destination, raster operation), and where the order ends; fields without their flag keep their sticky value |
| `OrderLayouts.DstBltWhole` | crates/sccm-rc-orders/src/primary.rs:32-39 | DSTBLT written out byte by byte with literal type, flag bytes and offsets, all fields absolute: every value at its position, and the position behind the order |
| `OrderLayouts.PatBltFields` | crates/sccm-rc-orders/src/primary.rs:177-194 | PATBLT under any field flags: which flag bit announces which bytes, where they stand, which value they give (rectangle, raster operation, colours, brush), and where the order ends; fields without their flag keep their sticky value |
| `OrderLayouts.PatBltWhole` | crates/sccm-rc-orders/src/primary.rs:177-194 | PATBLT written out byte by byte with literal type, flag bytes and offsets, all fields absolute: every value at its position, and the position behind the order |
| `OrderLayouts.ScrBltFields` | crates/sccm-rc-orders/src/primary.rs:94-103 | SCRBLT under any field flags: which flag bit announces which bytes, where they stand, which value they give (rectangle, raster operation, source point), and where the order ends; fields without their flag keep their sticky value |
| `OrderLayouts.ScrBltWhole` | crates/sccm-rc-orders/src/primary.rs:94-103 | SCRBLT written out byte by byte with literal type, flag bytes and offsets, all fields absolute: every value at its position, and the position behind the order |
| `OrderLayouts.LineToFields` | crates/sccm-rc-orders/src/primary.rs:224-236 | LINE_TO under any field flags: which flag bit announces which bytes, where they stand, which value they give (back mode, end points, back colour, pen), and where the order ends; fields without their flag keep their sticky value |
| `OrderLayouts.LineToWhole` | crates/sccm-rc-orders/src/primary.rs:224-236 | LINE_TO written out byte by byte with literal type, flag bytes and offsets, all fields absolute: every value at its position, and the position behind the order |
| `OrderLayouts.OpaqueRectFields` | crates/sccm-rc-orders/src/primary.rs:60-71 | OPAQUE_RECT under any field flags: which flag bit announces which bytes, where they stand, which value they give (rectangle, then red, green and blue), and where the order ends; fields without their flag keep their sticky value |
| `OrderLayouts.OpaqueRectWhole` | crates/sccm-rc-orders/src/primary.rs:60-71 | OPAQUE_RECT written out byte by byte with literal type, flag bytes and offsets, all fields absolute: every value at its position, and the position behind the order |
| `OrderLayouts.MemBltFields` | crates/sccm-rc-orders/src/primary.rs:129-140 | MEMBLT under any field flags: which flag bit announces which bytes, where they stand, which value they give (16-bit cache id, rectangle, raster operation, source point, 16-bit index), and where the order ends; fields without their flag keep their sticky value |
| `OrderLayouts.MemBltWhole` | crates/sccm-rc-orders/src/primary.rs:129-140 | MEMBLT written out byte by byte with literal type, flag bytes and offsets, all fields absolute: every value at its position, and the position behind the order |
| `OrderLayouts.FastTextFields` | crates/sccm-rc-orders/src/primary.rs:527-549 | FAST_INDEX and FAST_GLYPH under any field flags: which flag bit announces which bytes, where they stand, which value they give (cache id, advance and accelerator under one flag, colours, boxes, pen, data), and where the order ends; fields without their flag keep their sticky value |
| `OrderLayouts.FastIndexWhole` | crates/sccm-rc-orders/src/primary.rs:527-549 | FAST_INDEX written out byte by byte with literal type, flag bytes and offsets, all fields absolute: every value at its position, and the position behind the order |
| `OrderLayouts.FastGlyphWhole` | crates/sccm-rc-orders/src/primary.rs:604-625 | FAST_GLYPH written out byte by byte with literal type, flag bytes and offsets, all fields absolute: every value at its position, and the position behind the order |
| `OrderLayouts.GlyphIndexFields` | crates/sccm-rc-orders/src/primary.rs:446-473 | GLYPH_INDEX under any field flags: which flag bit announces which bytes, where they stand, which value they give (the full text order), and where the order ends; fields without their flag keep their sticky value |
| `OrderLayouts.GlyphIndexWhole` | crates/sccm-rc-orders/src/primary.rs:446-473 | GLYPH_INDEX written out byte by byte with literal type, flag bytes and offsets, all fields absolute: every value at its position, and the position behind the order |
| `OrderLayouts.DeltaIsSignedByte` | crates/sccm-rc-orders/src/header.rs:116-132 | A coordinate sent as a delta is one signed byte added to the value before |
| `OrderRoundTrip.FlagsRoundTrip` | crates/sccm-rc-orders/src/header.rs:79-100 | Field flags of any byte count are read back |
| `OrderRoundTrip.BoundsRoundTrip` | crates/sccm-rc-orders/src/header.rs:159-182 | Any mix of absolute, delta and kept edges gives the encoder's bounds |
| `OrderRoundTrip.PrimaryRoundTrip` | crates/sccm-rc-orders/src/processor.rs:191-263 | One primary order, reusing type and bounds and dropping flag bytes at will, is rebuilt exactly and leaves the encoder's sticky state |
| `OrderRoundTrip.SecondaryRoundTrip` | crates/sccm-rc-orders/src/processor.rs:157-172 | A secondary order is stepped over by its declared length whatever it holds |
| `OrderRoundTrip.StreamRoundTrip` | crates/sccm-rc-orders/src/processor.rs:96-155 | Every stream of primary, secondary and sized alternate orders parses to the orders sent, in order, with the encoder's sticky state and counts, whether or not its secondary orders apply |
| `Bitmaps.DecodeTile` | crates/sccm-rc-orders/src/bitmap.rs:16-85 | The row and pixel loops build the upright picture, with the size guard and the error of short data |
| `Bitmaps.TileUpright` | crates/sccm-rc-orders/src/bitmap.rs:58-81 | Picture pixel (x, y) is wire pixel (x, h-1-y), opaque |
| `Bitmaps.WaitingListSeparate` | crates/sccm-rc-orders/src/cache.rs:39-69 | A waiting-list tile is found under its own id and alters no explicit cell; an explicit tile alters its own cell only |
| `Bitmaps.Take2RoundTrip` | crates/sccm-rc-orders/src/secondary.rs:118-127 | Every value below 0x8000 is read back from its one- or two-byte form |
| `Bitmaps.Take4RoundTrip` | crates/sccm-rc-orders/src/secondary.rs:129-139 | Every value is read back from each of the one- to four-byte forms it fits in |
| `CacheOrders.Rev1RoundTrip` | crates/sccm-rc-orders/src/secondary.rs:77-109 | The header and data of a Rev1 bitmap order, with or without compression header, are read back as sent |
| `CacheOrders.Rev2RoundTrip` | crates/sccm-rc-orders/src/secondary.rs:143-200 | The header and data of a Rev2 bitmap order, with any of its optional parts and length forms, are read back as sent, at the decoder's depth |
| `CacheOrders.DerivedDepthIff` | crates/sccm-rc-orders/src/secondary.rs:174-186 | When the depth id names none, the decoder's depth is the sender's if and only if, compressed, it is 16 bits and, raw, the data holds that many bits a pixel and not one more |
| `CacheOrders.ExactDataDepthIff` | crates/sccm-rc-orders/src/secondary.rs:174-186 | For raw tiles without padding that is every depth but 15 bits, which is taken for 16 |
| `CacheOrders.TileStored` | crates/sccm-rc-orders/src/secondary.rs:77-200 | After a bitmap order whose bytes are delivered (those of the data, or what the codec makes of them at 8, 15, 16 or 24 bits), the tile sent is in the cell or waiting slot it was sent to, and every other place is unchanged |
| `CacheOrders.TileDropped` | crates/sccm-rc-orders/src/bitmap.rs:16-56 | A tile that the codec does not decompress, of a size that is not stored or with too few bytes leaves every cell as it was |
| `CacheOrders.Pixel565` | crates/sccm-rc-orders/src/color.rs:5-24 | Sixteen bits pack five of red, six of green and five of blue, each widened by repeating its top bits |
| `CacheOrders.Pixel555` | crates/sccm-rc-orders/src/color.rs:27-32 | Fifteen bits pack five of each, and the top bit does not matter |
| `CacheOrders.GlyphRoundTrip` | crates/sccm-rc-orders/src/secondary.rs:58-72 | Every glyph, its bits padded, is read back from its code |
| `CacheOrders.GlyphsStored` | crates/sccm-rc-orders/src/secondary.rs:55-75 | After a glyph order every glyph sent is in its cell, the last one where a cell was sent twice, and everything else is unchanged |
| `CacheOrders.SentTileLandsUpright` | crates/sccm-rc-orders/src/secondary.rs:77-200 | From a bitmap order's bytes to the canvas: a MemBlt from its cell shows at each covered pixel the pixel of the delivered bytes that belongs there, rows counted from the bottom, and leaves the others |
| `Bitmaps.ApplyTo` | crates/sccm-rc-orders/src/secondary.rs:25-75 | The cache methods change the tables as the order's semantics says; a failing order only by glyphs already inserted |
| `Bitmaps.ApplyValid` | crates/sccm-rc-orders/src/secondary.rs:25-200 | The cached pictures stay well-formed whatever a secondary order holds |
| `Render.DrawCovers` | crates/sccm-rc-orders/src/primary.rs:41-680 | For each of the nine order types, the rectangle returned covers every canvas pixel the order changed; lines need to be drawn in 32 bits |
| `Render.BoundedIsDrawable` | crates/sccm-rc-orders/src/primary.rs:702-726 | All lines within 357913941 of the origin are |
| `Render.TileLandsUpright` | crates/sccm-rc-orders/src/primary.rs:147-158 | An uncompressed tile drawn by MemBlt puts wire pixel (sx, h-1-sy) at the mapped position of every clipped pixel and leaves the others |
| `Render.FillPixels` | crates/sccm-rc-orders/src/primary.rs:73-79 | An opaque rectangle or a pattern fill sets exactly its clipped pixels to its colour, black or white, and leaves all others |
| `Render.InvertTwice` | crates/sccm-rc-orders/src/primary.rs:41-47 | Inverting a rectangle twice gives its colours back and touches nothing else |
| `Render.ScreenCopyPixels` | crates/sccm-rc-orders/src/primary.rs:105-112 | A screen copy without overlap gives every clipped pixel with a source on the canvas that source's earlier colour and leaves all others |
| `Render.LinePixels` | crates/sccm-rc-orders/src/primary.rs:238-248 | A line sets exactly its clipped points to the pen colour |
| `Render.DrawKeepsValid` | crates/sccm-rc-orders/src/primary.rs:41-680 | Canvas size and caches stay well-formed under every order |
| `OrderPixels.BoundsAreInclusive` | crates/sccm-rc-orders/src/header.rs:184-187 | Bounds clip to the pixels between their edges, all four included |
| `OrderPixels.DstBltPixels` | crates/sccm-rc-orders/src/primary.rs:41-47 | By literal fields: the pixels of the rectangle inside the clip become black, white or inverted, or stay under any other raster operation; all others stay |
| `OrderPixels.OpaqueRectPixels` | crates/sccm-rc-orders/src/primary.rs:73-79 | They take the red, green and blue fields; all others stay |
| `OrderPixels.PatBltPixels` | crates/sccm-rc-orders/src/primary.rs:196-206 | They become black, white or the fore colour; all others stay |
| `OrderPixels.ScrBltPixels` | crates/sccm-rc-orders/src/primary.rs:105-112 | Where source and destination do not overlap they take the colours the source had before, as far as it lies on the canvas; all others stay |
| `OrderPixels.MemBltPixels` | crates/sccm-rc-orders/src/primary.rs:143-158 | They take the pixels of the tile cached under the low byte of the cache id, the source point on the corner, as far as the tile reaches; all others stay |
| `OrderPixels.LineToPixels` | crates/sccm-rc-orders/src/primary.rs:238-248 | Exactly the pixels of the rounded ideal line inside the clip take the pen colour |
| `TextPixels.GlyphBitIsInk` | crates/sccm-rc-orders/src/canvas.rs:234-262 | Glyph rows are whole bytes, read from the most significant bit on |
| `TextPixels.GlyphIndexPixels` | crates/sccm-rc-orders/src/primary.rs:475-508 | By literal fields: a pixel under a set glyph bit inside the clip takes the fore colour, any other inside box and clip, edges included, the back colour, all others stay; fragments and glyph cache as the run leaves them |
| `TextPixels.FastIndexPixels` | crates/sccm-rc-orders/src/primary.rs:551-584 | The same for the compact order |
| `TextPixels.FastGlyphPixels` | crates/sccm-rc-orders/src/primary.rs:629-690 | The same for its one glyph: with nine bytes of data or more read from them and put in its cell, no other cell changing, with less the cached one |
| `Processor.OrderProcessor.ProcessOrders` | crates/sccm-rc-orders/src/processor.rs:96-155 | Interleaved decoding and drawing on the mutable canvas, caches and sticky fields does what parsing the whole update and then executing its actions does, errors included |
| `Processor.OrderProcessor.ParsePrimary` | crates/sccm-rc-orders/src/processor.rs:191-263 | Type, flags, bounds and fields update the sticky state, up to the first error |
| `Processor.OrderProcessor.DrawPrimary` | crates/sccm-rc-orders/src/processor.rs:216-263 | The drawing loops realise the drawing semantics of each order type and return its rectangle |
| `Processor.OrderProcessor.Secondary` | crates/sccm-rc-orders/src/processor.rs:157-189 | The declared length delimits the payload; whether it applies does not matter to the stream |
| `Processor.OrderProcessor.ReadBounds` | crates/sccm-rc-orders/src/header.rs:159-182 | Edges are updated one by one; an error keeps those already read |
| `Processor.ReadFieldFlags` | crates/sccm-rc-orders/src/header.rs:79-100 | The flag loop reads the little-endian flags of the bytes present |
| `Processor.AllCovered` | crates/sccm-rc-orders/src/processor.rs:96-155 | The union of the reported rectangles covers everything a sequence of actions changed |
| `Processor.DirtyRegionSound` | crates/sccm-rc-orders/src/processor.rs:96-155 | Whenever an update returns Ok every changed canvas pixel lies in the returned rectangle, and orders plus skipped never exceeds the declared count |
| `Processor.ShortStreamsAreBounded` | crates/sccm-rc-orders/src/header.rs:116-132 | A byte of stream moves a line coordinate by at most 128, so the bound on line coordinates holds from a fresh state for 2.7 million bytes |
| `Footprint.OrderPaintsExactly` | crates/sccm-rc-orders/src/primary.rs:41-680 | Each of the nine order types makes exactly the pixels of its footprint, told from fields, caches and canvas size, opaque and leaves all others alone |
| `Footprint.StreamPaintsExactly` | crates/sccm-rc-orders/src/processor.rs:96-155 | A stream makes exactly the pixels that some action of it paints opaque and leaves all others alone |
| `Footprint.SamePixels` | crates/sccm-rc-orders/src/processor.rs:96-155 | Which pixels a stream paints does not depend on what the canvas shows |
| `Composite.CompositeFrame.Blit` | crates/sccm-rc-core/src/rdp.rs:1177-1195 | Copies exactly the clamped region's pixels; a source of another size is skipped |
| `Composite.FrameSink.OnGraphicsUpdate` | crates/sccm-rc-viewer/src/main.rs:311-361 | Full copy on first frame, size change or resync; otherwise the region's rows, with the dirty region grown by them |
| `Composite.GraphicsLoop.Flush` | crates/sccm-rc-core/src/rdp.rs:1447-1451 | Flushing the pending region makes the viewer's frame equal to the composite |
| `Composite.UpdateKeeps` | crates/sccm-rc-core/src/rdp.rs:1705-1708 | After any update every pixel where the viewer differs from the composite lies in the pending region |
| `Composite.FlushRestores` | crates/sccm-rc-core/src/rdp.rs:1618-1624 | Every flush, incremental or full, restores equality, and its row slices are in range |
| `Composite.RepaintShows` | crates/sccm-rc-viewer/src/main.rs:2116-2126 | Uploading all or the dirty rows makes the texture equal to the viewer's frame |
| `Composite.ReactivationAgreesIff` | crates/sccm-rc-core/src/rdp.rs:1849-1853 | A reactivation keeps the agreement if and only if the viewer's frame has another size or is blank |
| `Composite.RunAgrees` | crates/sccm-rc-core/src/rdp.rs:1795-1804 | In every run of updates, flushes, repaints and reactivations of another size, differences lie in the pending region, and a flush and repaint show the whole composite |
| `Composite.AlwaysShownIff` | crates/sccm-rc-viewer/src/main.rs:330-343 | The viewer does not clamp the left edge: a region is shown whatever it paints if and only if its left edge does not lie beyond the last column copied |
| `Mirror.RegionCovers` | crates/sccm-rc-core/src/rdp.rs:2151-2162 | The clamped inclusive region reaches every canvas pixel of the dirty rectangle |
| `Mirror.RegionExact` | crates/sccm-rc-core/src/rdp.rs:2151-2162 | Of the canvas it reaches, if the dirty rectangle holds any pixel of it, no other pixels |
| `Mirror.DrawnMirrors` | crates/sccm-rc-core/src/rdp.rs:1705-1708 | After an update that decodes, composite and canvas differ only where they did before, outside the update's region |
| `Mirror.TurnDiffers` | crates/sccm-rc-core/src/rdp.rs:1693-1748 | After any update, composite and canvas differ only where a failing update has drawn or where they did before, outside a decoding update's region |
| `Mirror.DifferencesAreStale` | crates/sccm-rc-core/src/rdp.rs:1693-1748 | Over every run, failing updates included: each pixel where composite and canvas differ lies in the dirty rectangle of a failed update and in the region of no decoding update since |
| `Mirror.CompositeIsCanvas` | crates/sccm-rc-core/src/rdp.rs:1693-1708 | So for every run of updates that decode, the composite stays equal to the canvas and a flush and repaint put on screen exactly what was drawn |
| `Screen.StreamsDecode` | crates/sccm-rc-orders/src/processor.rs:96-155 | Encoded order streams, one update each, all decode, end in the encoder's state and together have the effect of their orders |
| `Screen.OrdersReachTheScreen` | crates/sccm-rc-core/src/rdp.rs:1648-1708 | From PDU bytes to the screen: if every order update that is not read is an empty NEXT, a flush and a repaint show exactly the canvas that the encoded orders draw |
| `Mirror.FailedUpdateLevelIff` | crates/sccm-rc-core/src/rdp.rs:1734-1748 | A failing update keeps composite and canvas equal whatever the canvas shows if and only if no action before its error paints any pixel, which is told without the canvas |
| `Mirror.FailedUpdateStaysHidden` | crates/sccm-rc-core/src/rdp.rs:1734-1748 | A concrete update of six bytes that draws a sticky rectangle and then fails: wherever that changes a canvas pixel, composite and pending region know nothing of it |
| `CapabilityFix.FixShortBitmapCacheRev2` | crates/sccm-rc-core/src/rdp.rs:193-258 | The patching loop computes the rewrite, out-of-range indices shown as panics |
| `CapabilityFix.FixPadsFirst` | crates/sccm-rc-core/src/rdp.rs:193-258 | For every well-formed DemandActive with two-byte MCS length and room, the result is the encoding, all nested lengths consistent, of the same demand with only its first short Rev2 capability padded to 40 bytes; else the frame is kept |
| `CapabilityFix.RerunKeepsIff` | crates/sccm-rc-core/src/rdp.rs:231-258 | Run again it finds nothing if and only if there was at most one short capability |
| `CapabilityFix.TpktStaysRightIff` | crates/sccm-rc-core/src/rdp.rs:251-253 | On any frame a right TPKT length stays right if and only if the result is under 64K |
| `CapabilityFix.McsStaysRightIff` | crates/sccm-rc-core/src/rdp.rs:242-250 | On any frame a right MCS length stays right if and only if it has the two-byte form and the result stays below 32K |
| `Deframer.Connection.RecvFrame` | crates/sccm-rc-protocol/src/transport.rs:171-209 | One call, with any portions of bytes arriving and cancellation at the await, does what `Recv` says to the buffer |
| `Deframer.DriveConserves` | crates/sccm-rc-protocol/src/transport.rs:171-209 | For all reads, failures and cancellations: delivered frames re-encoded, then buffer and unread bytes, are all the bytes |
| `Deframer.DriveIsSplit` | crates/sccm-rc-protocol/src/transport.rs:171-209 | What is delivered depends only on the bytes, not on their portions or on cancelled calls, nor does the ending: waiting, clean close, close in mid-frame or oversized body |
| `Deframer.SentIsReceived` | crates/sccm-rc-protocol/src/transport.rs:171-209 | Sealed chunks and handshake tokens within their limits are received exactly, once each, in order, under every chunking |
| `Deframer.SealedChunkIff` | crates/sccm-rc-core/src/lib.rs:181-191 | A sealed chunk comes through alone and whole if and only if it has at most eight megabytes |
| `Deframer.TokenIff` | crates/sccm-rc-protocol/src/framing.rs:19-59 | A handshake token comes back if and only if it has at most 65535 bytes |
| `Deframer.HeadEncodes` | crates/sccm-rc-protocol/src/framing.rs:38-47 | A parsed frame re-encodes to the bytes it was parsed from |
| `Civil.DateIsCalendar` | crates/sccm-rc-viewer/src/audit.rs:42-57 | For every day the computed date is the one reached from 1970-01-01 by the Gregorian calendar, day by day |
| `Civil.DayByDay` | crates/sccm-rc-viewer/src/audit.rs:42-57 | Every date is valid and the next day's is the next of the calendar |
| `Civil.DaysInverse` | crates/sccm-rc-viewer/src/audit.rs:42-57 | Days-from-civil of the date gives the day number back |
| `Civil.DatesInverse` | crates/sccm-rc-viewer/src/audit.rs:42-57 | Every valid date from the epoch on is computed for its day number |
| `Civil.StrictlyIncreasing` | crates/sccm-rc-viewer/src/audit.rs:42-57 | Later days have later dates |
| `Civil.StampInverse` | crates/sccm-rc-viewer/src/audit.rs:42-57 | Date and time of day together give the seconds back |
| `Desync.Detector.Observe` | crates/sccm-rc-core/src/rdp.rs:1693-1699 | A reconnect is forced exactly at the failure with which the longest suffix without eight successes in a row holds sixty failures |
| `Desync.Watch` | crates/sccm-rc-core/src/rdp.rs:1734-1748 | Over any trace the first forced reconnect is the first outcome with that property, or there is none |
| `Desync.SuffixErrsGrow` | crates/sccm-rc-core/src/rdp.rs:1355-1358 | How one more outcome changes the failures in the longest unbroken suffix |
| `Desync.EightSuccessesReset` | crates/sccm-rc-core/src/rdp.rs:1348-1358 | Eight successes in a row wipe out whatever was counted |
| `Desync.SevenSuccessesKeep` | crates/sccm-rc-core/src/rdp.rs:1348-1358 | Up to seven after a failure do not |
| `Desync.SixtyScatteredFailures` | crates/sccm-rc-core/src/rdp.rs:1348-1358 | Without eight successes in a row a reconnect is forced if and only if there are sixty failures, however they are spread |

## Left out

- IronRDP's fast-path parser, frame sizing and connector are not part of this model; `FastPath.ParseUpdate` assumes the header layout of MS-RDPBCGR with a declared length that must be the frame's.
- Interleaved RLE decompression is a function parameter; no property of it is assumed.
- Palettes and colour tables: 8-bit pixels are taken without a palette, as grey.
- The nine order structs with named fields: their decode methods differ only in which field comes when, so one decoder walks a table of slots per order type (`Orders.LayoutOf`), and an order's fields are a sequence. `OrderLayouts` gives the bytes of each position and `OrderPixels` and `TextPixels` what it means for the drawing.
- Lines.LinesFitIff: outside lines, coordinates are unbounded integers where the program uses plain 32-bit addition; where it saturates, so does the model, and where a delta is added to a sticky coordinate it wraps at 32 bits, as a release build does.
- Processor.DirtyRegionSound: asks that every line is drawn in 32 bits (`Lines.LineFits`) and has its ends within 2^30 - 1, where unions of rectangles do not saturate; `Processor.ShortStreamsAreBounded` says when they do. `Render.DrawCovers`, `Processor.AllCovered` and the `Mirror` and `Screen` results ask the same.
- CapabilityFix.FixShortBitmapCacheRev2: a debug build panics where a 16-bit length overflows; the release build's wrap-around is modelled.
- Delivery.EndToEnd: frames of plain PDUs are under 0x8000 bytes, which is all that their length field can announce.
- MppcFacts.GuardFailsIff: a debug build panics where the subtraction wraps; the release build's wrap-around is modelled.
- MppcRefinement.MppcContext.Decompress: the memory behind the C decoder's 64K buffer is taken as zero, only its RDP 5.0 branch (64K window) is modelled, and packets are under 16 MiB so that its 32-bit bit position cannot wrap.
- Buffers hold bytes and frames hold pictures, but how memory is reserved, and reuse of a vector's capacity, is not modelled.
- Composite.FrameSink.OnGraphicsUpdate: the frame counter, the status text and the wake-up of the window are left out; whether the periodic resync is due is a parameter.
- The texture behind the viewer is assumed to take the whole frame or the named rows as uploaded; nothing else of GPU rendering, toolbar, fonts, scaling or cursor mapping is modelled.
- Composite.RunAgrees: IronRDP's bitmap updates enter as events whose region starts inside the frame and is not inverted.
- Deframer.Connection.RecvFrame: a read delivers any bytes and a cancelled call changes nothing; sockets, timers and scheduling are left out.
- Sealing and unsealing of chunks by SSPI, and the counters beside them.
- Desync.Detector.Observe: the detector is modelled from a start or reactivation on; what the reconnect then does is left out.
- Civil.StampInverse: padding of the numbers to fixed width is left out.
- Environment switches, tracing, dumps and profiling are fixed to their defaults.
- Clipboard, curtain and arbitration channels, Wake-on-LAN, recording, diagnostics, recent hosts, keyboard hooks, probes and scripts.
- Reactivation's clearing of the update queue and of half-assembled fragments is only the start of a new run here.
