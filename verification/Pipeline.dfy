/**
 End to end: order streams that a peer cuts into fragments, compresses one by one and groups into
 PDUs come out of the receive stage byte-identical, once each and in order, on every run.
 */
module Pipeline {
  import opened Options
  import opened Bits
  import opened FastPath
  import Mppc
  import opened MppcPeer

  // ---- The receiving loop -----------------------------------------------------------

  /** Nothing in the queue would be decompressed again. */
  ghost predicate Settled(rx: Rx) {
    rx.s.Valid() && forall f <- rx.queue :: !HasBulk(f)
  }

  lemma StepSettled(rx: Rx, frame: seq<byte>)
    requires Settled(rx)
    ensures Settled(StepFrame(rx, frame).0)
    ensures !HasBulk(frame) ==> StepFrame(rx, frame).0.queue == rx.queue
  {
    hide Rebuild, Deliver, HasBulk;
    var d := Decompressed(frame, rx.s);
    forall f | f in d.1
      ensures !HasBulk(f)
    {
      RebuiltFramesAreFixedPoints(frame, rx.s, f, rx.s);
      PassthroughIsBare(f, rx.s);
    }
    if !HasBulk(frame) {
      assert rx.queue + [] == rx.queue;
    }
  }

  lemma PassthroughIsBare(f: seq<byte>, s: Mppc.State)
    requires s.Valid() && Decompressed(f, s).0.Passthrough?
    ensures !HasBulk(f)
  {
  }

  /** The loop until network and queue are both empty: completed order streams in the order they come out. */
  ghost function RunLoop(rx: Rx, network: seq<seq<byte>>): (Rx, seq<seq<byte>>)
    requires Settled(rx)
    decreases |network|, |rx.queue|
  {
    if rx.queue != [] then
      var rx' := rx.(queue := rx.queue[1..]);
      StepSettled(rx', rx.queue[0]);
      var st := StepFrame(rx', rx.queue[0]);
      var r := RunLoop(st.0, network);
      (r.0, Listed(st.1) + r.1)
    else if network == [] then (rx, [])
    else
      StepSettled(rx, network[0]);
      var st := StepFrame(rx, network[0]);
      var r := RunLoop(st.0, network[1..]);
      (r.0, Listed(st.1) + r.1)
  }

  function Listed<T>(o: Option<T>): seq<T> {
    if o.Some? then [o.value] else []
  }

  function DeliverAll(a: Assembly, fs: seq<seq<byte>>): (Assembly, seq<seq<byte>>)
    decreases |fs|
  {
    if fs == [] then (a, [])
    else
      var d := Deliver(a, fs[0]);
      var r := DeliverAll(d.0, fs[1..]);
      (r.0, Listed(d.1) + r.1)
  }

  /** A queued frame goes straight to the reassembler. */
  lemma QueuedStep(rx: Rx, network: seq<seq<byte>>)
    requires Settled(rx) && rx.queue != []
    ensures var d := Deliver(rx.asm, rx.queue[0]);
            var next := Rx(rx.s, rx.queue[1..], d.0);
            && Settled(next)
            && RunLoop(rx, network) == (RunLoop(next, network).0, Listed(d.1) + RunLoop(next, network).1)
  {
    hide Deliver, HasBulk;
    var f, rx' := rx.queue[0], rx.(queue := rx.queue[1..]);
    StepSettled(rx', f);
    assert rx.queue[1..] + [] == rx.queue[1..];
  }

  lemma DeliverStep(a: Assembly, fs: seq<seq<byte>>)
    requires fs != []
    ensures var d := Deliver(a, fs[0]);
            DeliverAll(a, fs) == (DeliverAll(d.0, fs[1..]).0, Listed(d.1) + DeliverAll(d.0, fs[1..]).1)
  {
    hide Deliver;
  }

  /** The queue is drained, untouched by the decompressor, before the next network frame. */
  lemma {:induction false} DrainQueue(rx: Rx, network: seq<seq<byte>>)
    requires Settled(rx)
    ensures var d := DeliverAll(rx.asm, rx.queue);
            && Settled(Rx(rx.s, [], d.0))
            && var r := RunLoop(Rx(rx.s, [], d.0), network);
              RunLoop(rx, network) == (r.0, d.1 + r.1)
    decreases |rx.queue|
  {
    hide Deliver, HasBulk, RunLoop, DeliverAll;
    if rx.queue != [] {
      var f := Deliver(rx.asm, rx.queue[0]);
      var next := Rx(rx.s, rx.queue[1..], f.0);
      QueuedStep(rx, network);
      DeliverStep(rx.asm, rx.queue);
      DrainQueue(next, network);
      var d := DeliverAll(next.asm, next.queue);
      var r := RunLoop(Rx(rx.s, [], d.0), network);
      assert Listed(f.1) + (d.1 + r.1) == (Listed(f.1) + d.1) + r.1;
    } else {
      NothingQueued(rx.asm);
      assert Rx(rx.s, [], rx.asm) == rx;
      assert [] + RunLoop(rx, network).1 == RunLoop(rx, network).1;
    }
  }

  lemma NothingQueued(a: Assembly)
    ensures DeliverAll(a, []) == (a, [])
  {
  }

  /** A network frame on the decompressing path: all its rebuilt updates are delivered, in order, before the next
      frame. */
  lemma NetworkFrame(s: Mppc.State, a: Assembly, frame: seq<byte>, rest: seq<seq<byte>>)
    requires s.Valid() && HasBulk(frame)
    ensures var b := Rebuild(frame[0], s, Pieces(frame, BodyStart(frame)));
            var d := DeliverAll(a, b.0);
            var r := RunLoop(Rx(b.1, [], d.0), rest);
            RunLoop(Rx(s, [], a), [frame] + rest) == (r.0, d.1 + r.1)
  {
    hide Rebuild, Pieces, Deliver, AnyBulk;
    var rx, network := Rx(s, [], a), [frame] + rest;
    assert network[1..] == rest;
    StepSettled(rx, frame);
    var st := StepFrame(rx, frame);
    var b := Rebuild(frame[0], s, Pieces(frame, BodyStart(frame)));
    assert [] + b.0 == b.0;
    if b.0 == [] {
      assert st == (Rx(b.1, [], a), None);
    } else {
      assert [] + b.0[1..] == b.0[1..];
      assert st.0 == Rx(b.1, b.0[1..], Deliver(a, b.0[0]).0);
    }
    DrainQueue(st.0, rest);
    var dq := DeliverAll(st.0.asm, st.0.queue);
    var r := RunLoop(Rx(b.1, [], dq.0), rest);
    assert Listed(st.1) + (dq.1 + r.1) == (Listed(st.1) + dq.1) + r.1;
  }

  /** A frame without compression: only its first update is looked at. */
  lemma PlainFrame(s: Mppc.State, a: Assembly, frame: seq<byte>, rest: seq<seq<byte>>)
    requires s.Valid() && !HasBulk(frame)
    ensures var d := Deliver(a, frame);
            var r := RunLoop(Rx(s, [], d.0), rest);
            RunLoop(Rx(s, [], a), [frame] + rest) == (r.0, Listed(d.1) + r.1)
  {
    hide Pieces, Deliver, HasBulk;
    var rx, network := Rx(s, [], a), [frame] + rest;
    assert network[1..] == rest;
    StepSettled(rx, frame);
  }

  // ---- What the peer sends -------------------------------------------------------------

  /** An update is sent as a bulk-compression packet (compressed or not) or without compression header. */
  datatype Body = Packet(m: MppcPeer.Packet) | Raw(plain: seq<byte>)

  datatype Update = Update(code: nat, frag: Fragmentation, body: Body)

  function Text(u: Update): seq<byte> {
    match u.body case Packet(m) => m.plain case Raw(p) => p
  }

  function Seen(u: Update): Plain {
    Plain(u.code, u.frag, Text(u))
  }

  ghost predicate SendableUpdate(p: Peer, u: Update)
    requires p.Valid()
  {
    && u.code < 16
    && |Text(u)| + 6 < 0x8000
    && (u.body.Packet? ==> Sendable(p, u.body.m) && |Wire(p, u.body.m)| <= 0xFFFF)
  }

  ghost function PeerNext(p: Peer, u: Update): (r: Peer)
    requires p.Valid() && SendableUpdate(p, u)
    ensures r.Valid()
  {
    if u.body.Packet? then PeerAfter(p, u.body.m) else p
  }

  function Weight(b: bool, w: nat): nat {
    if b then w else 0
  }

  function HeaderByte(u: Update): nat
    requires u.code < 16
  {
    u.code + 16 * FragmentBits(u.frag)
  }

  function CompressionFlags(m: MppcPeer.Packet): byte {
    1 + Weight(m.Packed?, 32) + Weight(m.atFront, 64) + Weight(m.flushed, 128)
  }

  ghost function UpdateBytes(p: Peer, u: Update): seq<byte>
    requires p.Valid() && SendableUpdate(p, u)
  {
    match u.body
    case Packet(m) => [(HeaderByte(u) + 128) as byte, CompressionFlags(m)] + Le16(|Wire(p, m)|) + Wire(p, m)
    case Raw(t) => [HeaderByte(u) as byte] + Le16(|t|) + t
  }

  ghost predicate SendablePdu(p: Peer, us: seq<Update>)
    requires p.Valid()
    decreases |us|
  {
    us == [] || (SendableUpdate(p, us[0]) && SendablePdu(PeerNext(p, us[0]), us[1..]))
  }

  ghost function PduBody(p: Peer, us: seq<Update>): seq<byte>
    requires p.Valid() && SendablePdu(p, us)
    decreases |us|
  {
    if us == [] then [] else UpdateBytes(p, us[0]) + PduBody(PeerNext(p, us[0]), us[1..])
  }

  ghost function PeerAfterPdu(p: Peer, us: seq<Update>): (r: Peer)
    requires p.Valid() && SendablePdu(p, us)
    ensures r.Valid()
    decreases |us|
  {
    if us == [] then p else PeerAfterPdu(PeerNext(p, us[0]), us[1..])
  }

  /** At least one update carries the compression header; otherwise the receiver reads the first update only. */
  predicate AnyPacket(us: seq<Update>) {
    us != [] && (us[0].body.Packet? || AnyPacket(us[1..]))
  }

  // ---- One PDU -------------------------------------------------------------------------

  ghost function PieceOf(p: Peer, u: Update): Piece
    requires p.Valid() && SendableUpdate(p, u)
  {
    match u.body
    case Packet(m) => Bulk((HeaderByte(u) + 128) as byte, CompressionFlags(m), Wire(p, m))
    case Raw(t) => Bare(UpdateBytes(p, u))
  }

  ghost function PiecesOf(p: Peer, us: seq<Update>): seq<Piece>
    requires p.Valid() && SendablePdu(p, us)
    decreases |us|
  {
    if us == [] then [] else [PieceOf(p, us[0])] + PiecesOf(PeerNext(p, us[0]), us[1..])
  }

  lemma Le16Reads(n: nat, pre: seq<byte>, post: seq<byte>)
    requires n < 0x1_0000
    ensures U16At(pre + Le16(n) + post, |pre|) == n
  {
  }

  lemma UpdateDelimits(p: Peer, u: Update, frame: seq<byte>, pos: nat, tail: seq<byte>)
    requires p.Valid() && SendableUpdate(p, u) && pos <= |frame| && frame[pos..] == UpdateBytes(p, u) + tail
    ensures pos < |frame| && Pieces(frame, pos) == [PieceOf(p, u)] + Pieces(frame, pos + |UpdateBytes(p, u)|)
    ensures frame[pos + |UpdateBytes(p, u)|..] == tail
  {
    hide Pieces, Wire, CompressionFlags, HeaderByte, MppcPeer.Sendable, Peer.Valid;
    var b := UpdateBytes(p, u);
    var end := pos + |b|;
    assert frame[pos..end] == b;
    assert frame[end..] == frame[pos..][|b|..] == tail;
    assert frame[pos] == b[0] && frame[pos + 1] == b[1] && frame[pos + 2] == b[2];
    PiecesStep(frame, pos);
    HeaderByteFits(u);
    match u.body {
      case Packet(m) =>
        assert frame[pos + 3] == b[3];
        Le16Reads(|Wire(p, m)|, b[..2], Wire(p, m));
        assert frame[pos + 4..end] == Wire(p, m);
      case Raw(t) =>
        Le16Reads(|t|, b[..1], t);
    }
  }

  lemma HeaderByteFits(u: Update)
    requires u.code < 16
    ensures HeaderByte(u) < 64 && HeaderByte(u) % 16 == u.code && FragmentOf(HeaderByte(u) / 16 % 4) == u.frag
  {
  }

  lemma {:induction false} PduPieces(p: Peer, us: seq<Update>, frame: seq<byte>, pos: nat)
    requires p.Valid() && SendablePdu(p, us) && pos <= |frame| && frame[pos..] == PduBody(p, us)
    ensures Pieces(frame, pos) == PiecesOf(p, us)
    ensures AnyBulk(Pieces(frame, pos)) == AnyPacket(us)
    decreases |us|
  {
    hide UpdateBytes, SendableUpdate, PeerNext, PieceOf, Peer.Valid, Pieces;
    if us == [] {
      assert frame[pos..] == [];
      NoPieces(frame, pos);
    } else {
      var u, q := us[0], PeerNext(p, us[0]);
      UpdateDelimits(p, u, frame, pos, PduBody(q, us[1..]));
      PduPieces(q, us[1..], frame, pos + |UpdateBytes(p, u)|);
      assert Pieces(frame, pos)[1..] == PiecesOf(q, us[1..]);
      PieceKind(p, u);
    }
  }

  lemma PieceKind(p: Peer, u: Update)
    requires p.Valid() && SendableUpdate(p, u)
    ensures PieceOf(p, u).Bulk? == u.body.Packet?
  {
  }

  lemma NoPieces(frame: seq<byte>, pos: nat)
    requires pos >= |frame|
    ensures Pieces(frame, pos) == []
  {
  }

  function FrameOf(fph: byte, u: Update): seq<byte>
    requires u.code < 16 && |Text(u)| <= 0xFFFF
  {
    WrapFastpath(fph, [HeaderByte(u) as byte] + Le16(|Text(u)|) + Text(u))
  }

  /** An empty plaintext behind a compression header is dropped by the rebuilder. */
  predicate Dropped(u: Update) {
    u.body.Packet? && Text(u) == []
  }

  ghost function FramesOf(fph: byte, p: Peer, us: seq<Update>): seq<seq<byte>>
    requires p.Valid() && SendablePdu(p, us)
    decreases |us|
  {
    if us == [] then []
    else (if Dropped(us[0]) then [] else [FrameOf(fph, us[0])]) + FramesOf(fph, PeerNext(p, us[0]), us[1..])
  }

  lemma FlagBits(m: MppcPeer.Packet)
    ensures var c := CompressionFlags(m);
            Flag(c, 32) == m.Packed? && Flag(c, 64) == m.atFront && Flag(c, 128) == m.flushed
  {
  }

  lemma {:induction false} PduRebuilt(fph: byte, s: Mppc.State, p: Peer, us: seq<Update>)
    requires InStep(s, p) && SendablePdu(p, us)
    ensures var r := Rebuild(fph, s, PiecesOf(p, us));
            r.0 == FramesOf(fph, p, us) && InStep(r.1, PeerAfterPdu(p, us))
    decreases |us|
  {
    hide WrapFastpath, Mppc.After, Mppc.Plain, PeerAfter, Wire, MppcPeer.Sendable, CompressionFlags, Flag, HeaderByte,
         Rebuild;
    if us == [] {
      NothingRebuilt(fph, s);
    } else {
      var u, rest := us[0], us[1..];
      RebuildStep(fph, s, PieceOf(p, u), PiecesOf(PeerNext(p, u), rest));
      match u.body {
        case Packet(m) =>
          FlagBits(m);
          PacketLockstep(s, p, m);
          HeaderByteFits(u);
          assert (HeaderByte(u) + 128) % 64 == HeaderByte(u);
          PduRebuilt(fph, Feed(s, p, m), PeerNext(p, u), rest);
        case Raw(t) =>
          PduRebuilt(fph, s, p, rest);
      }
    }
  }

  lemma NothingRebuilt(fph: byte, s: Mppc.State)
    requires s.Valid()
    ensures Rebuild(fph, s, []) == ([], s)
  {
  }

  // ---- Delivery ---------------------------------------------------------------------------

  /** Behind the assumed parser a rebuilt frame reads as its update exactly while its length field is faithful. */
  lemma FrameParsesIff(fph: byte, u: Update)
    requires u.code < 16 && |Text(u)| <= 0xFFFF && fph % 4 == 0
    ensures ParseUpdate(FrameOf(fph, u)) == Some(Seen(u)) <==> |Text(u)| + 6 < 0x8000
  {
    hide FragmentOf, Le16, BodyStart, DeclaredLength, WrapFastpath;
    var t := Text(u);
    var body := [HeaderByte(u) as byte] + Le16(|t|) + t;
    var f := WrapFastpath(fph, body);
    HeaderByteFits(u);
    WrapParts(fph, body);
    LengthFaithfulIff(fph, body);
    if |f| < 0x8000 {
      assert body == [HeaderByte(u) as byte] + Le16(|t|) + t + [];
      BareParses(f, HeaderByte(u), t, []);
    }
  }

  function Kept(us: seq<Update>): seq<Plain> {
    if us == [] then [] else (if Dropped(us[0]) then [] else [Seen(us[0])]) + Kept(us[1..])
  }

  /** Reassembly over a run of updates; anything but an order update goes elsewhere. */
  function ReassembleAll(a: Assembly, us: seq<Plain>): (Assembly, seq<seq<byte>>)
    decreases |us|
  {
    if us == [] then (a, [])
    else
      var d := if us[0].code == ORDERS then Reassemble(a, us[0].frag, us[0].data) else (a, None);
      var r := ReassembleAll(d.0, us[1..]);
      (r.0, Listed(d.1) + r.1)
  }

  lemma {:induction false} FramesDelivered(fph: byte, p: Peer, us: seq<Update>, a: Assembly)
    requires p.Valid() && SendablePdu(p, us) && fph % 4 == 0
    ensures DeliverAll(a, FramesOf(fph, p, us)) == ReassembleAll(a, Kept(us))
    decreases |us|
  {
    hide ParseUpdate, FrameOf, PeerNext, Reassemble;
    if us != [] {
      var u, q := us[0], PeerNext(p, us[0]);
      if Dropped(u) {
        assert [] + FramesOf(fph, q, us[1..]) == FramesOf(fph, q, us[1..]);
        assert [] + Kept(us[1..]) == Kept(us[1..]);
        FramesDelivered(fph, q, us[1..], a);
      } else {
        FrameParsesIff(fph, u);
        var fs := FramesOf(fph, p, us);
        assert fs[0] == FrameOf(fph, u) && fs[1..] == FramesOf(fph, q, us[1..]);
        assert Kept(us)[0] == Seen(u) && Kept(us)[1..] == Kept(us[1..]);
        FramesDelivered(fph, q, us[1..], Deliver(a, fs[0]).0);
      }
    }
  }

  // ---- Whole runs ---------------------------------------------------------------------------

  /** What is read of a PDU: with a compression header in it every update but the dropped ones, without one the first
      update only. */
  function ReadOf(us: seq<Update>): seq<Plain> {
    if AnyPacket(us) then Kept(us) else if us == [] then [] else [Seen(us[0])]
  }

  /** A PDU with its fast-path header byte. */
  datatype Pdu = Pdu(fph: byte, updates: seq<Update>)

  ghost predicate SendableRun(p: Peer, ps: seq<Pdu>)
    requires p.Valid()
    decreases |ps|
  {
    ps == [] ||
    (&& ps[0].fph % 4 == 0
     && SendablePdu(p, ps[0].updates)
     && (!AnyPacket(ps[0].updates) ==> |WrapFastpath(ps[0].fph, PduBody(p, ps[0].updates))| < 0x8000)
     && SendableRun(PeerAfterPdu(p, ps[0].updates), ps[1..]))
  }

  ghost function RunBytes(p: Peer, ps: seq<Pdu>): seq<seq<byte>>
    requires p.Valid() && SendableRun(p, ps)
    decreases |ps|
  {
    if ps == [] then []
    else [WrapFastpath(ps[0].fph, PduBody(p, ps[0].updates))] + RunBytes(PeerAfterPdu(p, ps[0].updates), ps[1..])
  }

  ghost function PeerAfterRun(p: Peer, ps: seq<Pdu>): (r: Peer)
    requires p.Valid() && SendableRun(p, ps)
    ensures r.Valid()
    decreases |ps|
  {
    if ps == [] then p else PeerAfterRun(PeerAfterPdu(p, ps[0].updates), ps[1..])
  }

  function AllUpdates(ps: seq<Pdu>): seq<Update> {
    if ps == [] then [] else ps[0].updates + AllUpdates(ps[1..])
  }

  function ReadAll(ps: seq<Pdu>): seq<Plain> {
    if ps == [] then [] else ReadOf(ps[0].updates) + ReadAll(ps[1..])
  }

  lemma ReassembleStep(a: Assembly, u: Plain, rest: seq<Plain>)
    ensures var d := if u.code == ORDERS then Reassemble(a, u.frag, u.data) else (a, None);
            var r := ReassembleAll(d.0, rest);
            ReassembleAll(a, [u] + rest) == (r.0, if d.1.Some? then [d.1.value] + r.1 else r.1)
  {
    assert ([u] + rest)[1..] == rest;
    var d := if u.code == ORDERS then Reassemble(a, u.frag, u.data) else (a, None);
    assert [] + ReassembleAll(d.0, rest).1 == ReassembleAll(d.0, rest).1;
  }

  lemma {:induction false} ReassembleSplit(a: Assembly, us: seq<Plain>, vs: seq<Plain>)
    ensures var x := ReassembleAll(a, us);
            var y := ReassembleAll(x.0, vs);
            ReassembleAll(a, us + vs) == (y.0, x.1 + y.1)
    decreases |us|
  {
    if us == [] {
      assert us + vs == vs;
      assert [] + ReassembleAll(a, vs).1 == ReassembleAll(a, vs).1;
    } else {
      assert (us + vs)[1..] == us[1..] + vs;
      var d := if us[0].code == ORDERS then Reassemble(a, us[0].frag, us[0].data) else (a, None);
      ReassembleSplit(d.0, us[1..], vs);
      var x := ReassembleAll(d.0, us[1..]);
      var y := ReassembleAll(x.0, vs);
      assert Listed(d.1) + (x.1 + y.1) == (Listed(d.1) + x.1) + y.1;
    }
  }

  lemma OnePdu(s: Mppc.State, a: Assembly, p: Peer, pdu: Pdu, rest: seq<seq<byte>>) returns (s': Mppc.State)
    requires InStep(s, p) && pdu.fph % 4 == 0 && SendablePdu(p, pdu.updates)
    requires !AnyPacket(pdu.updates) ==> |WrapFastpath(pdu.fph, PduBody(p, pdu.updates))| < 0x8000
    ensures InStep(s', PeerAfterPdu(p, pdu.updates))
    ensures var d := ReassembleAll(a, ReadOf(pdu.updates));
            var r := RunLoop(Rx(s', [], d.0), rest);
            RunLoop(Rx(s, [], a), [WrapFastpath(pdu.fph, PduBody(p, pdu.updates))] + rest) == (r.0, d.1 + r.1)
  {
    hide RunLoop, Pieces, Rebuild, ReassembleAll, DeliverAll, UpdateBytes, SendableUpdate, PeerNext, WrapFastpath,
         HasBulk;
    var us, body := pdu.updates, PduBody(p, pdu.updates);
    if AnyPacket(us) {
      var frame := WrapFastpath(pdu.fph, body);
      BodyNonempty(p, us);
      WrapParts(pdu.fph, body);
      PduPieces(p, us, frame, BodyStart(frame));
      FramesDelivered(pdu.fph, p, us, a);
      PduRebuilt(pdu.fph, s, p, us);
      s' := Rebuild(pdu.fph, s, PiecesOf(p, us)).1;
      BulkByPieces(frame);
      NetworkFrame(s, a, frame, rest);
    } else {
      s' := s;
      PlainKeepsPeer(p, us);
      if us == [] {
        EmptyPdu(s, a, pdu.fph, rest);
      } else {
        PlainPduReadsFirstOnly(s, a, p, pdu, rest);
      }
    }
  }

  lemma BulkByPieces(frame: seq<byte>)
    requires |frame| >= 3 && frame[0] % 4 == 0 && AnyBulk(Pieces(frame, BodyStart(frame)))
    ensures HasBulk(frame)
  {
  }

  lemma {:induction false} PlainKeepsPeer(p: Peer, us: seq<Update>)
    requires p.Valid() && SendablePdu(p, us) && !AnyPacket(us)
    ensures PeerAfterPdu(p, us) == p
    decreases |us|
  {
    hide SendableUpdate;
    if us != [] {
      PlainKeepsPeer(p, us[1..]);
    }
  }

  /** A PDU without updates is read as nothing. */
  lemma EmptyPdu(s: Mppc.State, a: Assembly, fph: byte, rest: seq<seq<byte>>)
    requires s.Valid()
    ensures var d := ReassembleAll(a, []);
            var r := RunLoop(Rx(s, [], d.0), rest);
            RunLoop(Rx(s, [], a), [WrapFastpath(fph, [])] + rest) == (r.0, d.1 + r.1)
  {
    hide RunLoop;
    PlainFrame(s, a, WrapFastpath(fph, []), rest);
    assert Deliver(a, WrapFastpath(fph, [])) == (a, None);
  }

  lemma BodyNonempty(p: Peer, us: seq<Update>)
    requires p.Valid() && us != [] && SendablePdu(p, us)
    ensures PduBody(p, us) != []
  {
  }

  /** Every run: what comes out is the reassembly of the updates read, and the queue ends empty. */
  lemma {:induction false} RunDelivers(s: Mppc.State, a: Assembly, p: Peer, ps: seq<Pdu>)
    requires InStep(s, p) && SendableRun(p, ps)
    ensures var r, d := RunLoop(Rx(s, [], a), RunBytes(p, ps)), ReassembleAll(a, ReadAll(ps));
            r.1 == d.1 && r.0.asm == d.0 && r.0.queue == [] && InStep(r.0.s, PeerAfterRun(p, ps))
    decreases |ps|
  {
    hide ReassembleAll, WrapFastpath, PduBody, SendablePdu, PeerAfterPdu, ReadOf, AnyPacket, StepFrame;
    if ps == [] {
      NothingSent(s, a);
    } else {
      var us, q := ps[0].updates, PeerAfterPdu(p, ps[0].updates);
      var s' := OnePdu(s, a, p, ps[0], RunBytes(q, ps[1..]));
      ReassembleSplit(a, ReadOf(us), ReadAll(ps[1..]));
      RunDelivers(s', ReassembleAll(a, ReadOf(us)).0, q, ps[1..]);
    }
  }

  lemma NothingSent(s: Mppc.State, a: Assembly)
    requires s.Valid()
    ensures RunLoop(Rx(s, [], a), []) == (Rx(s, [], a), []) && ReassembleAll(a, ReadAll([])) == (a, [])
  {
  }

  // ---- Fragmentation --------------------------------------------------------------------------

  function Concat(parts: seq<seq<byte>>): seq<byte> {
    if parts == [] then [] else parts[0] + Concat(parts[1..])
  }

  /** NEXT* LAST, the rest of a message after its FIRST fragment. */
  function Tail(parts: seq<seq<byte>>): seq<Plain>
    requires parts != []
  {
    if |parts| == 1 then [Plain(ORDERS, Last, parts[0])] else [Plain(ORDERS, Next, parts[0])] + Tail(parts[1..])
  }

  /** SINGLE, or FIRST NEXT* LAST. */
  function Cut(parts: seq<seq<byte>>): seq<Plain>
    requires parts != []
  {
    if |parts| == 1 then [Plain(ORDERS, Single, parts[0])] else [Plain(ORDERS, First, parts[0])] + Tail(parts[1..])
  }

  function CutAll(msgs: seq<seq<seq<byte>>>): seq<Plain>
    requires forall i :: 0 <= i < |msgs| ==> msgs[i] != []
  {
    if msgs == [] then [] else Cut(msgs[0]) + CutAll(msgs[1..])
  }

  const IDLE := Assembly([], false)

  lemma {:induction false} TailReassembles(buf: seq<byte>, parts: seq<seq<byte>>)
    requires parts != []
    ensures ReassembleAll(Assembly(buf, true), Tail(parts)) == (IDLE, [buf + Concat(parts)])
    decreases |parts|
  {
    hide ReassembleAll;
    if |parts| == 1 {
      assert Concat(parts) == parts[0] + Concat([]) == parts[0];
      assert Tail(parts) == [Plain(ORDERS, Last, parts[0])] + [];
      ReassembleStep(Assembly(buf, true), Plain(ORDERS, Last, parts[0]), []);
      NothingReassembled(IDLE);
      assert [buf + parts[0]] + [] == [buf + parts[0]];
    } else {
      TailReassembles(buf + parts[0], parts[1..]);
      ReassembleStep(Assembly(buf, true), Plain(ORDERS, Next, parts[0]), Tail(parts[1..]));
      assert (buf + parts[0]) + Concat(parts[1..]) == buf + Concat(parts);
    }
  }

  lemma CutReassembles(parts: seq<seq<byte>>)
    requires parts != []
    ensures ReassembleAll(IDLE, Cut(parts)) == (IDLE, [Concat(parts)])
  {
    hide ReassembleAll;
    if |parts| == 1 {
      assert Concat(parts) == parts[0] + Concat([]) == parts[0];
      assert Cut(parts) == [Plain(ORDERS, Single, parts[0])] + [];
      ReassembleStep(IDLE, Plain(ORDERS, Single, parts[0]), []);
      NothingReassembled(IDLE);
      assert [parts[0]] + [] == [parts[0]];
    } else {
      TailReassembles(parts[0], parts[1..]);
      ReassembleStep(IDLE, Plain(ORDERS, First, parts[0]), Tail(parts[1..]));
    }
  }

  lemma NothingReassembled(a: Assembly)
    ensures ReassembleAll(a, []) == (a, [])
  {
  }

  lemma {:induction false} CutAllReassembles(msgs: seq<seq<seq<byte>>>)
    requires forall i :: 0 <= i < |msgs| ==> msgs[i] != []
    ensures ReassembleAll(IDLE, CutAll(msgs)) == (IDLE, seq(|msgs|, i requires 0 <= i < |msgs| => Concat(msgs[i])))
    decreases |msgs|
  {
    hide Cut, ReassembleAll;
    if msgs == [] {
      NothingReassembled(IDLE);
      assert [] == seq(|msgs|, i requires 0 <= i < |msgs| => Concat(msgs[i]));
    } else {
      CutReassembles(msgs[0]);
      CutAllReassembles(msgs[1..]);
      ReassembleSplit(IDLE, Cut(msgs[0]), CutAll(msgs[1..]));
      var rest := msgs[1..];
      assert [Concat(msgs[0])] + seq(|rest|, i requires 0 <= i < |rest| => Concat(rest[i]))
          == seq(|msgs|, i requires 0 <= i < |msgs| => Concat(msgs[i]));
    }
  }

  // ---- PDUs without compression ------------------------------------------------------------------

  /** A PDU none of whose updates has the compression header passes through, and only its first update is read, whatever
      is being assembled: the others are lost. */
  lemma PlainPduReadsFirstOnly(s: Mppc.State, a: Assembly, p: Peer, pdu: Pdu, rest: seq<seq<byte>>)
    requires s.Valid() && p.Valid() && pdu.fph % 4 == 0 && pdu.updates != []
    requires SendablePdu(p, pdu.updates) && !AnyPacket(pdu.updates)
    requires |WrapFastpath(pdu.fph, PduBody(p, pdu.updates))| < 0x8000
    ensures var d := ReassembleAll(a, [Seen(pdu.updates[0])]);
            var r := RunLoop(Rx(s, [], d.0), rest);
            RunLoop(Rx(s, [], a), [WrapFastpath(pdu.fph, PduBody(p, pdu.updates))] + rest) == (r.0, d.1 + r.1)
  {
    hide RunLoop, Pieces, UpdateBytes, SendableUpdate, PeerNext, HasBulk, WrapFastpath, Reassemble;
    var us, body := pdu.updates, PduBody(p, pdu.updates);
    var frame := WrapFastpath(pdu.fph, body);
    BodyNonempty(p, us);
    WrapParts(pdu.fph, body);
    PduPieces(p, us, frame, BodyStart(frame));
    assert !HasBulk(frame) by { BareByPieces(frame); }
    FirstUpdateParses(p, us, pdu.fph);
    PlainFrame(s, a, frame, rest);
    ReassembleOne(a, Seen(us[0]));
  }

  lemma ReassembleOne(a: Assembly, u: Plain)
    ensures var d := if u.code == ORDERS then Reassemble(a, u.frag, u.data) else (a, None);
            ReassembleAll(a, [u]) == (d.0, Listed(d.1))
  {
    hide Reassemble, ReassembleAll;
    var d := if u.code == ORDERS then Reassemble(a, u.frag, u.data) else (a, None);
    assert [u] + [] == [u];
    ReassembleStep(a, u, []);
    NothingReassembled(d.0);
    if d.1.Some? {
      assert [d.1.value] + [] == [d.1.value];
    }
  }

  lemma BareByPieces(frame: seq<byte>)
    requires |frame| >= 3 && !AnyBulk(Pieces(frame, BodyStart(frame)))
    ensures !HasBulk(frame)
  {
  }

  lemma FirstUpdateParses(p: Peer, us: seq<Update>, fph: byte)
    requires p.Valid() && us != [] && SendablePdu(p, us) && us[0].body.Raw? && fph % 4 == 0
    requires |WrapFastpath(fph, PduBody(p, us))| < 0x8000
    ensures ParseUpdate(WrapFastpath(fph, PduBody(p, us))) == Some(Seen(us[0]))
  {
    hide PeerNext, WrapFastpath, ParseUpdate, Le16, DeclaredLength, BodyStart, HeaderSize, HeaderByte, FragmentOf;
    var u, body := us[0], PduBody(p, us);
    BodyNonempty(p, us);
    WrapParts(fph, body);
    LengthFaithfulIff(fph, body);
    HeaderByteFits(u);
    BareParses(WrapFastpath(fph, body), HeaderByte(u), u.body.plain, PduBody(PeerNext(p, u), us[1..]));
  }

  /** A frame whose body starts with an update without compression header reads as that update. */
  lemma BareParses(f: seq<byte>, uh: nat, t: seq<byte>, tail: seq<byte>)
    requires |f| >= 3 && f[0] % 4 == 0 && DeclaredLength(f) == |f| && BodyStart(f) <= |f|
    requires uh < 64 && |t| < 0x1_0000 && f[BodyStart(f)..] == [uh as byte] + Le16(|t|) + t + tail
    ensures ParseUpdate(f) == Some(Plain(uh % 16, FragmentOf(uh / 16 % 4), t))
  {
    hide DeclaredLength, BodyStart, FragmentOf;
    var pos := BodyStart(f);
    var body := f[pos..];
    assert f[pos] == body[0] && f[pos + 1] == body[1] && f[pos + 2] == body[2];
    assert U16At(f, pos + 1) == |t|;
    assert f[pos + 3..pos + 3 + |t|] == body[3..3 + |t|] == t;
  }
}
