/**
 The fast-path receive stage: bulk decompression of multi-update PDUs, the queue of rebuilt
 updates and the reassembly of fragmented order updates. Section 2.2.9.1.2 of MS-RDPBCGR.
 */
module FastPath {
  import opened Options
  import opened Bits
  import Mppc

  // ---- Framing ------------------------------------------------------------------

  /** `0x80 | (n >> 8) as u8`: the shift is truncated to a byte before the flag goes in. */
  function LongLengthByte(n: nat): byte {
    var b := n / 256 % 256;
    if b < 128 then b + 128 else b
  }

  function HeaderSize(bodyLen: nat): nat {
    if 2 + bodyLen < 0x80 then 2 else 3
  }

  function WrapFastpath(fph: byte, body: seq<byte>): (r: seq<byte>)
    ensures |r| == HeaderSize(|body|) + |body|
  {
    if 2 + |body| < 0x80 then [fph, 2 + |body|] + body
    else [fph, LongLengthByte(3 + |body|), (3 + |body|) % 256] + body
  }

  /** Length that the header of a frame declares. */
  function DeclaredLength(frame: seq<byte>): nat
    requires |frame| >= 3
  {
    if frame[1] < 128 then frame[1] else (frame[1] as int - 128) * 256 + frame[2]
  }

  function BodyStart(frame: seq<byte>): nat
    requires |frame| >= 3
  {
    if frame[1] < 128 then 2 else 3
  }

  lemma WrapParts(fph: byte, body: seq<byte>)
    requires body != []
    ensures var f := WrapFastpath(fph, body);
            && |f| >= 3 && f[0] == fph && BodyStart(f) == HeaderSize(|body|)
            && f[BodyStart(f)..] == body
  {
  }

  /** The 15-bit length field is faithful exactly for frames under 32768 bytes. */
  lemma LengthFaithfulIff(fph: byte, body: seq<byte>)
    requires body != []
    ensures var f := WrapFastpath(fph, body); DeclaredLength(f) == |f| <==> |f| < 0x8000
  {
    var n := 3 + |body|;
    if n < 0x8000 {
      assert n / 256 < 128 && n == n / 256 * 256 + n % 256;
    }
  }

  // ---- Updates ------------------------------------------------------------------

  datatype Fragmentation = Single | Last | First | Next

  function FragmentBits(f: Fragmentation): nat {
    match f case Single => 0 case Last => 1 case First => 2 case Next => 3
  }

  function FragmentOf(bits: nat): Fragmentation {
    if bits == 0 then Single else if bits == 1 then Last else if bits == 2 then First else Next
  }

  const ORDERS: nat := 0

  /** An update as the layer after the decompressor sees it. */
  datatype Plain = Plain(code: nat, frag: Fragmentation, data: seq<byte>)

  /** First update of a frame whose declared length is its real one; the rest of the frame is not looked at. */
  function ParseUpdate(frame: seq<byte>): Option<Plain> {
    if |frame| < 3 || frame[0] % 4 != 0 || DeclaredLength(frame) != |frame| then None
    else
      var pos := BodyStart(frame);
      if pos >= |frame| then None
      else
        var uh := frame[pos];
        var at := if uh / 64 == 2 then pos + 2 else pos + 1;
        if at + 2 > |frame| || at + 2 + U16At(frame, at) > |frame| then None
        else Some(Plain(uh % 16, FragmentOf(uh / 16 % 4), frame[at + 2..at + 2 + U16At(frame, at)]))
  }

  function DecodeFastpathOrders(frame: seq<byte>): Option<Plain> {
    var u := ParseUpdate(frame);
    if u.Some? && u.value.code == ORDERS then u else None
  }

  // ---- Decompression of one PDU ---------------------------------------------------

  datatype Decomp = Passthrough | Ready(frame: seq<byte>) | Pending

  /** One update structure of a PDU, as delimited by its header. */
  datatype Piece = Bulk(uh: byte, cflags: byte, data: seq<byte>) | Bare(bytes: seq<byte>)

  /** The updates of a PDU, up to the first one that is cut short. */
  function Pieces(frame: seq<byte>, pos: nat): seq<Piece>
    decreases |frame| - pos
  {
    if pos >= |frame| then []
    else if frame[pos] / 64 == 2 then
      if pos + 4 > |frame| then []
      else
        var end := pos + 4 + U16At(frame, pos + 2);
        if end > |frame| then [] else [Bulk(frame[pos], frame[pos + 1], frame[pos + 4..end])] + Pieces(frame, end)
    else
      if pos + 3 > |frame| then []
      else
        var end := pos + 3 + U16At(frame, pos + 1);
        if end > |frame| then [] else [Bare(frame[pos..end])] + Pieces(frame, end)
  }

  predicate AnyBulk(ps: seq<Piece>) {
    ps != [] && (ps[0].Bulk? || AnyBulk(ps[1..]))
  }

  /** A decompressed update, rebuilt without its compression bits; nothing for an empty or over-long plaintext. */
  function Emit(fph: byte, uh: byte, plain: seq<byte>): seq<seq<byte>> {
    if plain == [] || |plain| > 0xFFFF then []
    else [WrapFastpath(fph, [(uh % 64) as byte] + Le16(|plain|) + plain)]
  }

  /** A rebuilt update byte by byte: the frame's own first byte, the length in one byte or in two with the top bit set,
      code and fragmentation without the compression bits, the plaintext's length and the plaintext. */
  lemma RebuiltBytes(fph: byte, code: nat, frag: nat, compression: nat, plain: seq<byte>)
    requires code < 16 && frag < 4 && compression < 4
    ensures var (n, out) := (|plain|, Emit(fph, code + 16 * frag + 64 * compression, plain));
            && (n == 0 || n > 65535 ==> out == [])
            && var head := if n <= 122 then [fph, n + 5] else [fph, 128 + (n + 6) / 256 % 128, (n + 6) % 256];
              0 < n <= 65535 ==> out == [head + ([code + 16 * frag, n % 256, n / 256] + plain)]
  {
    var uh := code + 16 * frag + 64 * compression;
    assert uh % 64 == code + 16 * frag;
    if 0 < |plain| <= 0xFFFF {
      var body := [(uh % 64) as byte] + Le16(|plain|) + plain;
      assert body == [code + 16 * frag, |plain| % 256, |plain| / 256] + plain;
      LongByte(|plain| + 6);
    }
  }

  lemma LongByte(n: nat)
    ensures LongLengthByte(n) as nat == 128 + n / 256 % 128
  {
    var q := n / 256;
    assert q == 256 * (q / 256) + q % 256;
    assert q % 128 == q % 256 % 128;
  }

  predicate Flag(b: byte, weight: nat)
    requires weight > 0
  {
    b / weight % 2 == 1
  }

  /** Frames rebuilt from the pieces of one PDU, and the decompressor state after them. */
  function Rebuild(fph: byte, s: Mppc.State, ps: seq<Piece>): (r: (seq<seq<byte>>, Mppc.State))
    requires s.Valid()
    ensures r.1.Valid()
    decreases |ps|
  {
    if ps == [] then ([], s)
    else
      match ps[0]
      case Bulk(uh, cflags, data) =>
        var (c, a, f) := (Flag(cflags, 32), Flag(cflags, 64), Flag(cflags, 128));
        var rest := Rebuild(fph, Mppc.After(s, data, c, a, f), ps[1..]);
        (Emit(fph, uh, Mppc.Plain(s, data, c, a, f)) + rest.0, rest.1)
      case Bare(bytes) =>
        var rest := Rebuild(fph, s, ps[1..]);
        ([WrapFastpath(fph, bytes)] + rest.0, rest.1)
  }

  predicate IsFastpath(frame: seq<byte>) {
    |frame| >= 3 && frame[0] % 4 == 0
  }

  predicate HasBulk(frame: seq<byte>) {
    IsFastpath(frame) && AnyBulk(Pieces(frame, BodyStart(frame)))
  }

  /** Outcome of one PDU: what to process now, what to append to the queue, and the new decompressor state. */
  function Decompressed(frame: seq<byte>, s: Mppc.State): (r: (Decomp, seq<seq<byte>>, Mppc.State))
    requires s.Valid()
    ensures r.2.Valid()
  {
    if !HasBulk(frame) then (Passthrough, [], s)
    else
      var r := Rebuild(frame[0], s, Pieces(frame, BodyStart(frame)));
      if r.0 == [] then (Pending, [], r.1) else (Ready(r.0[0]), r.0[1..], r.1)
  }

  // ---- Rebuilt frames are fixed points ----------------------------------------------

  lemma PiecesOfOne(fph: byte, bytes: seq<byte>)
    requires |bytes| >= 3 && |bytes| == 3 + U16At(bytes, 1) && bytes[0] / 64 != 2
    ensures var f := WrapFastpath(fph, bytes); Pieces(f, BodyStart(f)) == [Bare(bytes)]
  {
    WrapParts(fph, bytes);
    var f := WrapFastpath(fph, bytes);
    var p := BodyStart(f);
    assert f[p] == f[p..][0] && f[p + 1] == f[p..][1] && f[p + 2] == f[p..][2];
    assert f[p..|f|] == bytes;
    assert Pieces(f, |f|) == [];
  }

  ghost predicate Delimited(p: Piece) {
    p.Bare? ==> |p.bytes| >= 3 && |p.bytes| == 3 + U16At(p.bytes, 1) && p.bytes[0] / 64 != 2
  }

  lemma {:induction false} PiecesDelimited(frame: seq<byte>, pos: nat)
    ensures forall i :: 0 <= i < |Pieces(frame, pos)| ==> Delimited(Pieces(frame, pos)[i])
    decreases |frame| - pos
  {
    if pos < |frame| {
      if frame[pos] / 64 == 2 {
        if pos + 4 <= |frame| {
          PiecesDelimited(frame, pos + 4 + U16At(frame, pos + 2));
        }
      } else if pos + 3 <= |frame| {
        PiecesDelimited(frame, pos + 3 + U16At(frame, pos + 1));
      }
    }
  }

  /** The rebuilt frames carry no compressed update. */
  lemma {:induction false} RebuildIsBare(fph: byte, s: Mppc.State, ps: seq<Piece>)
    requires s.Valid() && fph % 4 == 0
    requires forall i :: 0 <= i < |ps| ==> Delimited(ps[i])
    ensures forall f <- Rebuild(fph, s, ps).0 :: IsFastpath(f) && !HasBulk(f)
    decreases |ps|
  {
    hide HasBulk, Mppc.After, Mppc.Plain;
    if ps != [] {
      match ps[0]
      case Bulk(uh, cflags, data) =>
        var (c, a, f) := (Flag(cflags, 32), Flag(cflags, 64), Flag(cflags, 128));
        RebuildIsBare(fph, Mppc.After(s, data, c, a, f), ps[1..]);
        EmitIsBare(fph, uh, Mppc.Plain(s, data, c, a, f));
      case Bare(bytes) =>
        assert Delimited(ps[0]);
        RebuildIsBare(fph, s, ps[1..]);
        BareIsBare(fph, bytes);
    }
  }

  lemma BareIsBare(fph: byte, bytes: seq<byte>)
    requires fph % 4 == 0 && Delimited(Bare(bytes))
    ensures IsFastpath(WrapFastpath(fph, bytes)) && !HasBulk(WrapFastpath(fph, bytes))
  {
    WrapParts(fph, bytes);
    PiecesOfOne(fph, bytes);
    assert !AnyBulk([Bare(bytes)]);
  }

  lemma EmitIsBare(fph: byte, uh: byte, plain: seq<byte>)
    requires fph % 4 == 0
    ensures forall f <- Emit(fph, uh, plain) :: IsFastpath(f) && !HasBulk(f)
  {
    if 0 < |plain| <= 0xFFFF {
      var body := [(uh % 64) as byte] + Le16(|plain|) + plain;
      assert U16At(body, 1) == |plain|;
      BareIsBare(fph, body);
    }
  }

  /** Whatever bytes arrive, no frame handed on or queued is ever decompressed a second time: fed back, it passes
      through and leaves decompressor and queue alone, in any decompressor state. */
  lemma RebuiltFramesAreFixedPoints(frame: seq<byte>, s: Mppc.State, f: seq<byte>, s2: Mppc.State)
    requires s.Valid() && s2.Valid()
    requires var r := Decompressed(frame, s); r.0 == Ready(f) || f in r.1
    ensures Decompressed(f, s2) == (Passthrough, [], s2)
  {
    hide Rebuild;
    var ps := Pieces(frame, BodyStart(frame));
    PiecesDelimited(frame, BodyStart(frame));
    RebuildIsBare(frame[0], s, ps);
    var all := Rebuild(frame[0], s, ps).0;
    assert f in all;
  }

  // ---- The receive stage --------------------------------------------------------------

  /** State of fragment reassembly. */
  datatype Assembly = Assembly(buf: seq<byte>, active: bool)

  function Reassemble(a: Assembly, frag: Fragmentation, data: seq<byte>): (Assembly, Option<seq<byte>>) {
    match frag
    case Single => (a, Some(data))
    case First => (Assembly(data, true), None)
    case Next => (if a.active then Assembly(a.buf + data, true) else a, None)
    case Last => if a.active then (Assembly([], false), Some(a.buf + data)) else (a, None)
  }

  /** A frame behind the decompressor: an order update is reassembled, anything else goes to the other renderer. */
  function Deliver(a: Assembly, frame: seq<byte>): (Assembly, Option<seq<byte>>) {
    var u := DecodeFastpathOrders(frame);
    if u.None? then (a, None) else Reassemble(a, u.value.frag, u.value.data)
  }

  /** Decompressor, queue of rebuilt updates, and the fragment being assembled. */
  datatype Rx = Rx(s: Mppc.State, queue: seq<seq<byte>>, asm: Assembly)

  /** One turn of the session loop on a fast-path frame, queued or fresh from the network. */
  function StepFrame(rx: Rx, frame: seq<byte>): (r: (Rx, Option<seq<byte>>))
    requires rx.s.Valid()
    ensures r.0.s.Valid()
  {
    var d := Decompressed(frame, rx.s);
    var queue := rx.queue + d.1;
    if d.0.Pending? then (Rx(d.2, queue, rx.asm), None)
    else
      var out := Deliver(rx.asm, if d.0.Ready? then d.0.frame else frame);
      (Rx(d.2, queue, out.0), out.1)
  }

  class Receiver {
    const decomp: Mppc.MppcDecompressor
    var decompressedExtra: seq<seq<byte>>
    var orderFrag: seq<byte>
    var orderFragActive: bool

    ghost predicate Valid()
      reads this, decomp, decomp.history
    {
      decomp.Valid()
    }

    constructor ()
      ensures Valid() && fresh(decomp) && fresh(decomp.history)
      ensures decompressedExtra == [] && orderFrag == [] && !orderFragActive
    {
      decomp := new Mppc.MppcDecompressor();
      decompressedExtra, orderFrag, orderFragActive := [], [], false;
    }

    ghost function Abs(): Rx
      reads this, decomp, decomp.history
    {
      Rx(decomp.Abs(), decompressedExtra, Assembly(orderFrag, orderFragActive))
    }

    /** A queued update takes priority over the network. */
    method Turn(network: seq<byte>) returns (fromQueue: bool, complete: Option<seq<byte>>)
      requires Valid()
      modifies this, decomp, decomp.history
      ensures Valid()
      ensures fromQueue == (old(decompressedExtra) != [])
      ensures var rx := old(Abs());
              (Abs(), complete) == if fromQueue then StepFrame(rx.(queue := rx.queue[1..]), rx.queue[0])
                  else StepFrame(rx, network)
    {
      hide Decompressed, Reassemble;
      var frame := network;
      fromQueue := decompressedExtra != [];
      if fromQueue {
        frame := decompressedExtra[0];
        decompressedExtra := decompressedExtra[1..];
      }
      complete := None;
      var d := MaybeDecompress(frame);
      if d.Pending? {
        return;
      }
      var u := DecodeFastpathOrders(if d.Ready? then d.frame else frame);
      if u.Some? {
        complete := ReassembleOrders(u.value.frag, u.value.data);
      }
    }

    method MaybeDecompress(frame: seq<byte>) returns (r: Decomp)
      requires Valid()
      modifies this`decompressedExtra, decomp, decomp.history
      ensures Valid()
      ensures var d := Decompressed(frame, old(decomp.Abs()));
              r == d.0 && decompressedExtra == old(decompressedExtra) + d.1 && decomp.Abs() == d.2
    {
      hide Mppc.After, Mppc.Plain, Rebuild, Pieces, Emit, WrapFastpath, Flag, Mppc.State.Valid, U16At, Rebuilding,
           Decompressed;
      if |frame| < 3 || frame[0] % 4 != 0 {
        NotFastpath(frame, decomp.Abs());
        return Passthrough;
      }
      var fph := frame[0];
      var pos := if frame[1] >= 128 then 3 else 2;
      var ready: seq<seq<byte>> := [];
      var anyCompressed := false;
      ghost var start := decomp.Abs();
      RebuildingStarts(frame, start);
      while pos < |frame|
        invariant decomp.Valid() && decompressedExtra == old(decompressedExtra)
        invariant Rebuilding(frame, start, pos, decomp.Abs(), ready, anyCompressed)
        decreases |frame| - pos
      {
        RebuildingStep(frame, start, pos, decomp.Abs(), ready, anyCompressed);
        var uh := frame[pos];
        if uh / 64 == 2 {
          if pos + 4 > |frame| {
            break;
          }
          var cflags := frame[pos + 1];
          var size := U16At(frame, pos + 2);
          var dstart := pos + 4;
          if dstart + size > |frame| {
            break;
          }
          var data := frame[dstart..dstart + size];
          anyCompressed := true;
          pos := dstart + size;
          var plain := decomp.Decompress(data, Flag(cflags, 32), Flag(cflags, 64), Flag(cflags, 128));
          ready := ready + Emit(fph, uh, plain);
        } else {
          if pos + 3 > |frame| {
            break;
          }
          var size := U16At(frame, pos + 1);
          var end := pos + 3 + size;
          if end > |frame| {
            break;
          }
          ready := ready + [WrapFastpath(fph, frame[pos..end])];
          pos := end;
        }
      }
      RebuildingEnds(frame, start, pos, decomp.Abs(), ready, anyCompressed);
      if !anyCompressed {
        return Passthrough;
      }
      if ready == [] {
        return Pending;
      }
      decompressedExtra := decompressedExtra + ready[1..];
      return Ready(ready[0]);
    }

    method ReassembleOrders(frag: Fragmentation, data: seq<byte>) returns (r: Option<seq<byte>>)
      modifies this`orderFrag, this`orderFragActive
      ensures (Assembly(orderFrag, orderFragActive), r)
              == Reassemble(Assembly(old(orderFrag), old(orderFragActive)), frag, data)
    {
      match frag {
        case Single => return Some(data);
        case First =>
          orderFrag := data;
          orderFragActive := true;
          return None;
        case Next =>
          if orderFragActive {
            orderFrag := orderFrag + data;
          }
          return None;
        case Last =>
          if orderFragActive {
            var whole := orderFrag + data;
            orderFragActive, orderFrag := false, [];
            return Some(whole);
          }
          return None;
      }
    }
  }

  /** The frames rebuilt so far, and the pieces left, make up the outcome of the whole frame. */
  ghost predicate Rebuilding(
    frame: seq<byte>, start: Mppc.State, pos: nat, s: Mppc.State, ready: seq<seq<byte>>, anyCompressed: bool)
  {
    && IsFastpath(frame) && start.Valid() && s.Valid()
    && (anyCompressed || s == start)
    && HasBulk(frame) == (anyCompressed || AnyBulk(Pieces(frame, pos)))
    && var (whole, rest) := (Rebuild(frame[0], start, Pieces(frame, BodyStart(frame))),
                             Rebuild(frame[0], s, Pieces(frame, pos)));
      whole.0 == ready + rest.0 && whole.1 == rest.1
  }

  lemma NotFastpath(frame: seq<byte>, s: Mppc.State)
    requires s.Valid() && !IsFastpath(frame)
    ensures Decompressed(frame, s) == (Passthrough, [], s)
  {
  }

  lemma RebuildingStarts(frame: seq<byte>, s: Mppc.State)
    requires s.Valid() && IsFastpath(frame)
    ensures Rebuilding(frame, s, BodyStart(frame), s, [], false)
  {
    hide Rebuild, Pieces, AnyBulk;
    var r := Rebuild(frame[0], s, Pieces(frame, BodyStart(frame)));
    assert [] + r.0 == r.0;
  }

  lemma RebuildingStep(
    frame: seq<byte>, start: Mppc.State, pos: nat, s: Mppc.State, ready: seq<seq<byte>>, anyCompressed: bool)
    requires Rebuilding(frame, start, pos, s, ready, anyCompressed) && pos < |frame|
    ensures
      if frame[pos] / 64 == 2 then
        if pos + 4 > |frame| || pos + 4 + U16At(frame, pos + 2) > |frame| then Pieces(frame, pos) == []
        else
          var (end, cflags) := (pos + 4 + U16At(frame, pos + 2), frame[pos + 1]);
          var (data, c, a, f) := (frame[pos + 4..end], Flag(cflags, 32), Flag(cflags, 64), Flag(cflags, 128));
          Rebuilding(frame, start, end, Mppc.After(s, data, c, a, f),
                     ready + Emit(frame[0], frame[pos], Mppc.Plain(s, data, c, a, f)), true)
      else
        if pos + 3 > |frame| || pos + 3 + U16At(frame, pos + 1) > |frame| then Pieces(frame, pos) == []
        else
          var end := pos + 3 + U16At(frame, pos + 1);
          Rebuilding(frame, start, end, s, ready + [WrapFastpath(frame[0], frame[pos..end])], anyCompressed)
  {
    hide Mppc.After, Mppc.Plain, Rebuild, Pieces, AnyBulk, Emit, WrapFastpath, Flag, U16At, HasBulk;
    PiecesStep(frame, pos);
    var ps := Pieces(frame, pos);
    if ps != [] {
      RebuildStep(frame[0], s, ps[0], ps[1..]);
      assert ps == [ps[0]] + ps[1..];
      Grouped(ready, if ps[0].Bulk? then
                       Emit(frame[0], ps[0].uh,
                            Mppc.Plain(s, ps[0].data, Flag(ps[0].cflags, 32), Flag(ps[0].cflags, 64),
                                       Flag(ps[0].cflags, 128)))
                     else [WrapFastpath(frame[0], ps[0].bytes)]);
    }
  }

  lemma Grouped<T>(a: seq<T>, b: seq<T>)
    ensures forall c: seq<T> {:trigger b + c} :: a + (b + c) == (a + b) + c
  {
  }

  lemma RebuildingEnds(
    frame: seq<byte>, start: Mppc.State, pos: nat, s: Mppc.State, ready: seq<seq<byte>>, anyCompressed: bool)
    requires Rebuilding(frame, start, pos, s, ready, anyCompressed) && (pos >= |frame| || Pieces(frame, pos) == [])
    ensures Decompressed(frame, start)
            == if !anyCompressed then (Passthrough, [], start)
               else if ready == [] then (Pending, [], s) else (Ready(ready[0]), ready[1..], s)
    ensures anyCompressed || s == start
  {
    hide Rebuild, Pieces, AnyBulk, HasBulk;
    NothingLeft(frame[0], s, frame, pos);
    assert ready + [] == ready;
  }

  lemma NothingLeft(fph: byte, s: Mppc.State, frame: seq<byte>, pos: nat)
    requires s.Valid() && (pos >= |frame| || Pieces(frame, pos) == [])
    ensures !AnyBulk(Pieces(frame, pos)) && Rebuild(fph, s, Pieces(frame, pos)) == ([], s)
  {
  }

  lemma PiecesStep(frame: seq<byte>, pos: nat)
    requires pos < |frame|
    ensures var ps := Pieces(frame, pos);
      if frame[pos] / 64 == 2 then
        if pos + 4 > |frame| || pos + 4 + U16At(frame, pos + 2) > |frame| then ps == []
        else
          var end := pos + 4 + U16At(frame, pos + 2);
          ps == [Bulk(frame[pos], frame[pos + 1], frame[pos + 4..end])] + Pieces(frame, end) && AnyBulk(ps)
      else
        if pos + 3 > |frame| || pos + 3 + U16At(frame, pos + 1) > |frame| then ps == []
        else
          var end := pos + 3 + U16At(frame, pos + 1);
          ps == [Bare(frame[pos..end])] + Pieces(frame, end) && AnyBulk(ps) == AnyBulk(Pieces(frame, end))
  {
    var ps := Pieces(frame, pos);
    if ps != [] {
      assert ps[1..] == Pieces(frame, if ps[0].Bulk? then pos + 4 + U16At(frame, pos + 2)
                               else pos + 3 + U16At(frame, pos + 1));
    }
  }

  lemma RebuildStep(fph: byte, s: Mppc.State, p: Piece, rest: seq<Piece>)
    requires s.Valid()
    ensures p.Bulk? ==>
              var (c, a, f) := (Flag(p.cflags, 32), Flag(p.cflags, 64), Flag(p.cflags, 128));
              var r := Rebuild(fph, Mppc.After(s, p.data, c, a, f), rest);
              Rebuild(fph, s, [p] + rest) == (Emit(fph, p.uh, Mppc.Plain(s, p.data, c, a, f)) + r.0, r.1)
    ensures p.Bare? ==>
              var r := Rebuild(fph, s, rest);
              Rebuild(fph, s, [p] + rest) == ([WrapFastpath(fph, p.bytes)] + r.0, r.1)
  {
    hide Mppc.After, Mppc.Plain, Emit;
    assert ([p] + rest)[1..] == rest;
  }
}
