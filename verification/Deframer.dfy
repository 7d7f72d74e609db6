/**
 The transport's framing, `[u32 LE: body length in the low 24 bits, type above][body]`, and the cancel-safe
 deframer that parses frames out of a buffer filled by reads of any size.
 */
module Deframer {
  import opened Bits
  import opened Options

  const MAX_BODY: nat := 8 * 1024 * 1024
  const DATA: byte := 0x00

  datatype Frame = Frame(msgType: byte, body: seq<byte>)

  // ---- The wire format ----------------------------------------------------------------------

  /** Little-endian 32-bit number. */
  function Le32(n: nat): (s: seq<byte>)
    requires n < 0x1_0000_0000
    ensures |s| == 4
  {
    [n % 256, n / 256 % 256, n / 0x1_0000 % 256, n / 0x100_0000]
  }

  function LowLength(b: seq<byte>): (n: nat)
    requires |b| >= 4
    ensures n < 0x100_0000
  {
    b[0] as int + 256 * (b[1] as int) + 0x1_0000 * (b[2] as int)
  }

  datatype Header = Header(msgType: byte, bodyLen: nat)

  function ParseHeader(b: seq<byte>): Option<Header> {
    if |b| < 4 then None else Some(Header(b[3], LowLength(b)))
  }

  function EncodeFrame(f: Frame): seq<byte>
    requires |f.body| < 0x100_0000
  {
    Le32(|f.body|)[..3] + [f.msgType] + f.body
  }

  /** What a sealed chunk of RDP bytes is sent as: the length is cut to 32 bits and shares its top byte with the
      type. */
  function SendRdp(sealed: seq<byte>): seq<byte> {
    Le32(|sealed| % 0x1_0000_0000) + sealed
  }

  function EncodeHandshakeToken(token: seq<byte>): seq<byte> {
    Le32((2 + |token|) % 0x1_0000_0000) + Le16(|token| % 0x1_0000) + token
  }

  function DecodeHandshakeBody(body: seq<byte>): Option<seq<byte>> {
    if |body| < 2 then None
    else
      var n := U16At(body, 0);
      if 2 + n > |body| then None else Some(body[2..2 + n])
  }

  // ---- Frames of a byte stream -----------------------------------------------------------------

  datatype Head = Incomplete | Oversize(n: nat) | Complete(frame: Frame, total: nat)

  function HeadOf(buf: seq<byte>): (h: Head)
    ensures h.Complete? ==> 4 <= h.total <= |buf| && |h.frame.body| == h.total - 4 <= MAX_BODY
  {
    match ParseHeader(buf)
    case None => Incomplete
    case Some(h) =>
      if h.bodyLen > MAX_BODY then Oversize(h.bodyLen)
      else if |buf| >= 4 + h.bodyLen then Complete(Frame(h.msgType, buf[4..4 + h.bodyLen]), 4 + h.bodyLen)
      else Incomplete
  }

  /** All complete frames in order, what is left behind them, and the body length of an oversized frame if one is
      next. */
  datatype Parts = Parts(frames: seq<Frame>, rest: seq<byte>, oversize: Option<nat>)

  function Split(buf: seq<byte>): (p: Parts)
    decreases |buf|
  {
    match HeadOf(buf)
    case Incomplete => Parts([], buf, None)
    case Oversize(n) => Parts([], buf, Some(n))
    case Complete(f, total) =>
      var p := Split(buf[total..]);
      Parts([f] + p.frames, p.rest, p.oversize)
  }

  lemma HeadEncodes(buf: seq<byte>)
    requires HeadOf(buf).Complete?
    ensures var h := HeadOf(buf); EncodeFrame(h.frame) == buf[..h.total]
  {
    var n := LowLength(buf);
    LowBytes(buf[0], buf[1], buf[2]);
    assert Le32(n)[..3] == buf[..3];
    assert buf[..4 + n] == buf[..3] + [buf[3]] + buf[4..4 + n];
  }

  lemma LowBytes(a: byte, b: byte, c: byte)
    ensures var n := a + 256 * b + 0x1_0000 * c; n % 256 == a && n / 256 % 256 == b && n / 0x1_0000 % 256 == c
  {
    assert a + 256 * b + 0x1_0000 * c == 256 * (b + 256 * c) + a;
  }

  lemma HeaderReads(n: nat, t: byte, rest: seq<byte>)
    requires n < 0x100_0000
    ensures ParseHeader(Le32(n)[..3] + [t] + rest) == Some(Header(t, n))
  {
    var b := Le32(n)[..3] + [t] + rest;
    assert n == n / 256 * 256 + n % 256 && n / 256 == n / 256 / 256 * 256 + n / 256 % 256;
    assert b[0] == n % 256 && b[1] == n / 256 % 256 && b[2] == n / 0x1_0000 % 256;
  }

  lemma EncodedHead(f: Frame, more: seq<byte>)
    requires |f.body| <= MAX_BODY
    ensures HeadOf(EncodeFrame(f) + more) == Complete(f, 4 + |f.body|)
    ensures (EncodeFrame(f) + more)[4 + |f.body|..] == more
  {
    hide Le32;
    var b := EncodeFrame(f) + more;
    assert b == Le32(|f.body|)[..3] + [f.msgType] + (f.body + more);
    HeaderReads(|f.body|, f.msgType, f.body + more);
    assert b[4..4 + |f.body|] == f.body;
  }

  // ---- The deframer -------------------------------------------------------------------------------

  /** What the transport does at an await: bytes arrive (none: the peer closed), the call is dropped, or the read
      fails. */
  datatype Read = Bytes(b: seq<byte>) | Cancel | Fail

  datatype Outcome = Got(frame: Frame) | Dropped | Closed | MidFrame | TooLarge(n: nat) | Failed

  /** Buffer after a call, its outcome, and the number of reads it used; a call whose reads run out is dropped. */
  datatype Call = Call(buf: seq<byte>, outcome: Outcome, used: nat)

  function Recv(buf: seq<byte>, input: seq<Read>): (c: Call)
    ensures c.used <= |input|
    ensures c.outcome.Got? ==> |c.outcome.frame.body| <= MAX_BODY
    decreases |input|
  {
    match HeadOf(buf)
    case Complete(f, total) => Call(buf[total..], Got(f), 0)
    case Oversize(n) => Call(buf, TooLarge(n), 0)
    case Incomplete =>
      if input == [] then Call(buf, Dropped, 0)
      else if input[0].Cancel? then Call(buf, Dropped, 1)
      else if input[0].Fail? then Call(buf, Failed, 1)
      else if input[0].b == [] then Call(buf, if buf == [] then Closed else MidFrame, 1)
      else
        var c := Recv(buf + input[0].b, input[1..]);
        c.(used := c.used + 1)
  }

  class Connection {
    var rxbuf: seq<byte>

    constructor ()
      ensures rxbuf == []
    {
      rxbuf := [];
    }

    method RecvFrame(input: seq<Read>) returns (outcome: Outcome, used: nat)
      modifies this
      ensures var c := Recv(old(rxbuf), input); rxbuf == c.buf && outcome == c.outcome && used == c.used
    {
      hide HeadOf;
      used := 0;
      while true
        invariant used <= |input|
        invariant var c, whole := Recv(rxbuf, input[used..]), Recv(old(rxbuf), input);
                  whole == c.(used := used + c.used)
        decreases |input| - used
      {
        var head := NextHead(rxbuf);
        if head.Oversize? {
          return TooLarge(head.n), used;
        }
        if head.Complete? {
          rxbuf := rxbuf[head.total..];
          return Got(head.frame), used;
        }
        if used == |input| {
          return Dropped, used;
        }
        var next := input[used];
        assert input[used..][0] == next && input[used..][1..] == input[used + 1..];
        used := used + 1;
        match next {
          case Cancel => return Dropped, used;
          case Fail => return Failed, used;
          case Bytes(b) =>
            if b == [] {
              return if rxbuf == [] then Closed else MidFrame, used;
            }
            rxbuf := rxbuf + b;
        }
      }
    }
  }

  method NextHead(buf: seq<byte>) returns (h: Head)
    ensures h == HeadOf(buf)
  {
    h := Incomplete;
    if |buf| >= 4 {
      var header := ParseHeader(buf[..4]).value;
      if header.bodyLen > MAX_BODY {
        return Oversize(header.bodyLen);
      }
      var total := 4 + header.bodyLen;
      if |buf| >= total {
        return Complete(Frame(header.msgType, buf[4..total]), total);
      }
    }
  }

  // ---- Runs: the caller calls again after every frame and every cancellation -------------------------

  function Arrived(input: seq<Read>): seq<byte> {
    if input == [] then [] else (if input[0].Bytes? then input[0].b else []) + Arrived(input[1..])
  }

  function EncodeAll(fs: seq<Frame>): seq<byte>
    requires forall i :: 0 <= i < |fs| ==> |fs[i].body| <= MAX_BODY
  {
    if fs == [] then [] else EncodeFrame(fs[0]) + EncodeAll(fs[1..])
  }

  /** Frames delivered, buffer left, input left, and how the run ended; Dropped: it waits for more. */
  datatype Driven = Driven(frames: seq<Frame>, buf: seq<byte>, left: seq<Read>, end: Outcome)

  function Drive(buf: seq<byte>, input: seq<Read>): (d: Driven)
    ensures forall i :: 0 <= i < |d.frames| ==> |d.frames[i].body| <= MAX_BODY
    decreases |input|, |buf|
  {
    var c := Recv(buf, input);
    var left := input[c.used..];
    match c.outcome
    case Got(f) =>
      var d := Drive(c.buf, left);
      d.(frames := [f] + d.frames)
    case Dropped => if c.used == 0 then Driven([], c.buf, left, Dropped) else Drive(c.buf, left)
    case _ => Driven([], c.buf, left, c.outcome)
  }

  /** A call that reads bytes goes on with them in the buffer. */
  lemma RecvReads(buf: seq<byte>, input: seq<Read>)
    requires HeadOf(buf).Incomplete? && input != [] && input[0].Bytes? && input[0].b != []
    ensures var c := Recv(buf + input[0].b, input[1..]);
            Recv(buf, input) == c.(used := c.used + 1) && input[1..][c.used..] == input[c.used + 1..]
    ensures buf + Arrived(input) == (buf + input[0].b) + Arrived(input[1..])
  {
    hide HeadOf, Arrived;
    ArrivedStep(input);
    Skipped(input, Recv(buf + input[0].b, input[1..]).used);
    Regrouped(buf, input[0].b, Arrived(input[1..]));
  }

  lemma Skipped(input: seq<Read>, n: nat)
    requires n < |input|
    ensures input[1..][n..] == input[n + 1..]
  {
  }

  lemma Regrouped(a: seq<byte>, b: seq<byte>, c: seq<byte>)
    ensures a + (b + c) == (a + b) + c
  {
  }

  lemma ArrivedStep(input: seq<Read>)
    requires input != []
    ensures Arrived(input) == (if input[0].Bytes? then input[0].b else []) + Arrived(input[1..])
  {
  }

  /** One call: a delivered frame, re-encoded, and the new buffer and unread input are what there was. */
  lemma {:induction false} RecvConserves(buf: seq<byte>, input: seq<Read>)
    ensures var c := Recv(buf, input);
            buf + Arrived(input) == (if c.outcome.Got? then EncodeFrame(c.outcome.frame) else []) + c.buf
                + Arrived(input[c.used..])
    decreases |input|
  {
    hide HeadOf, EncodeFrame, Recv, Arrived;
    if HeadOf(buf).Incomplete? && input != [] && input[0].Bytes? && input[0].b != [] {
      RecvReads(buf, input);
      RecvConserves(buf + input[0].b, input[1..]);
    } else {
      RecvEndsConserves(buf, input);
    }
  }

  lemma RecvEndsConserves(buf: seq<byte>, input: seq<Read>)
    requires HeadOf(buf).Incomplete? && input != [] && input[0].Bytes? ==> input[0].b == []
    ensures var c := Recv(buf, input);
            buf + Arrived(input) == (if c.outcome.Got? then EncodeFrame(c.outcome.frame) else []) + c.buf
                + Arrived(input[c.used..])
  {
    hide HeadOf, EncodeFrame, Arrived;
    if HeadOf(buf).Complete? {
      HeadEncodes(buf);
      HeadBuf(buf);
      assert input[0..] == input;
    } else if HeadOf(buf).Incomplete? && input != [] {
      ArrivedStep(input);
      assert [] + Arrived(input[1..]) == Arrived(input[1..]);
    } else {
      assert input[0..] == input;
    }
  }

  /** However reads and cancellations fall: the frames delivered, re-encoded, and what is still buffered or unread are
      all the bytes. */
  lemma {:induction false} DriveConserves(buf: seq<byte>, input: seq<Read>)
    ensures var d := Drive(buf, input); EncodeAll(d.frames) + d.buf + Arrived(d.left) == buf + Arrived(input)
    decreases |input|, |buf|
  {
    hide Recv, EncodeFrame, Arrived;
    var c := Recv(buf, input);
    RecvConserves(buf, input);
    var left := input[c.used..];
    if c.outcome.Got? {
      RecvProgress(buf, input);
      DriveConserves(c.buf, left);
      var d := Drive(c.buf, left);
      EncodeCons(c.outcome.frame, d.frames);
      var f := EncodeFrame(c.outcome.frame);
      assert f + EncodeAll(d.frames) + d.buf + Arrived(d.left) == f + (EncodeAll(d.frames) + d.buf + Arrived(d.left));
      assert f + c.buf + Arrived(left) == f + (c.buf + Arrived(left));
    } else if c.outcome.Dropped? && c.used > 0 {
      DriveConserves(c.buf, left);
    }
  }

  lemma EncodeCons(f: Frame, fs: seq<Frame>)
    requires |f.body| <= MAX_BODY && forall i :: 0 <= i < |fs| ==> |fs[i].body| <= MAX_BODY
    ensures EncodeAll([f] + fs) == EncodeFrame(f) + EncodeAll(fs)
  {
    assert ([f] + fs)[1..] == fs;
  }

  lemma RecvProgress(buf: seq<byte>, input: seq<Read>)
    requires Recv(buf, input).outcome.Got?
    ensures Recv(buf, input).used == 0 ==> |Recv(buf, input).buf| < |buf|
  {
  }

  // ---- Independence of chunking and cancellation ---------------------------------------------------------

  /** Bytes in any portions, cancellations anywhere, and possibly a close at the end. */
  ghost predicate Orderly(input: seq<Read>) {
    forall i :: 0 <= i < |input| ==> !input[i].Fail? && (input[i] == Bytes([]) ==> i == |input| - 1)
  }

  ghost predicate Closes(input: seq<Read>) {
    input != [] && input[|input| - 1] == Bytes([])
  }

  lemma HeadStable(buf: seq<byte>, more: seq<byte>)
    requires !HeadOf(buf).Incomplete?
    ensures HeadOf(buf + more) == HeadOf(buf)
    ensures HeadOf(buf).Complete? ==> (buf + more)[HeadOf(buf).total..] == buf[HeadOf(buf).total..] + more
  {
    if HeadOf(buf).Complete? {
      var n := LowLength(buf);
      assert (buf + more)[4..4 + n] == buf[4..4 + n];
    }
  }

  /** What one call does depends only on the bytes, not on their portions. */
  lemma {:induction false} RecvIsHead(buf: seq<byte>, input: seq<Read>)
    requires Orderly(input)
    ensures var c := Recv(buf, input);
            var all := buf + Arrived(input);
            if c.outcome.Got? then
              && HeadOf(all).Complete? && HeadOf(all).frame == c.outcome.frame
              && c.buf + Arrived(input[c.used..]) == all[HeadOf(all).total..]
            else if c.outcome.TooLarge? then HeadOf(all) == Oversize(c.outcome.n)
            else if c.outcome.Dropped? then
              c.buf + Arrived(input[c.used..]) == all && HeadOf(c.buf).Incomplete? && (c.used == 0 ==> input == [])
            else
              && !c.outcome.Failed? && all == c.buf && HeadOf(all).Incomplete?
              && Closes(input) && (c.outcome.Closed? <==> all == [])
    ensures Orderly(input[Recv(buf, input).used..])
    ensures Recv(buf, input).outcome.Got? || Recv(buf, input).outcome.Dropped?
            ==> Closes(input[Recv(buf, input).used..]) == Closes(input)
    decreases |input|
  {
    hide HeadOf, Arrived;
    var c := Recv(buf, input);
    NothingArrived();
    if !HeadOf(buf).Incomplete? {
      HeadStable(buf, Arrived(input));
      HeadBuf(buf);
    } else if input != [] && input[0].Bytes? && input[0].b != [] {
      RecvReads(buf, input);
      RecvIsHead(buf + input[0].b, input[1..]);
    } else if input != [] {
      ArrivedStep(input);
      assert [] + Arrived(input[1..]) == Arrived(input[1..]);
      if input[0].Bytes? {
        assert input[1..] == [];
        assert buf + [] == buf;
      }
    }
  }

  lemma HeadBuf(buf: seq<byte>)
    ensures HeadOf(buf).Complete? ==> HeadOf(buf).total <= |buf|
  {
  }

  lemma SplitStep(buf: seq<byte>)
    ensures var h := HeadOf(buf);
            Split(buf) == if h.Incomplete? then Parts([], buf, None)
                          else if h.Oversize? then Parts([], buf, Some(h.n))
                          else var p := Split(buf[h.total..]); Parts([h.frame] + p.frames, p.rest, p.oversize)
  {
  }

  function EndOf(p: Parts, closes: bool): Outcome {
    if p.oversize.Some? then TooLarge(p.oversize.value) else if !closes then Dropped else if p.rest == [] then Closed
        else MidFrame
  }

  /** A run delivers exactly the frames of the bytes that arrived, in order, whatever the portions and cancellations. */
  lemma {:induction false} DriveIsSplit(buf: seq<byte>, input: seq<Read>)
    requires Orderly(input)
    ensures var d, p := Drive(buf, input), Split(buf + Arrived(input));
            && d.frames == p.frames && d.end == EndOf(p, Closes(input))
            && (p.oversize.None? ==> d.buf == p.rest && d.left == [])
    decreases |input|, |buf|
  {
    hide Recv, HeadOf, Arrived, Split, Orderly;
    var c := Recv(buf, input);
    RecvIsHead(buf, input);
    SplitStep(buf + Arrived(input));
    var left := input[c.used..];
    if c.outcome.Got? {
      RecvProgress(buf, input);
      DriveIsSplit(c.buf, left);
    } else if c.outcome.Dropped? {
      if c.used > 0 {
        DriveIsSplit(c.buf, left);
      } else {
        assert c.buf + Arrived([]) == c.buf by { NothingArrived(); }
      }
    } else if !c.outcome.TooLarge? {
      ClosedLast(buf, input);
    }
  }

  lemma NothingArrived()
    ensures Arrived([]) == []
  {
  }

  lemma {:induction false} ClosedLast(buf: seq<byte>, input: seq<Read>)
    requires Orderly(input) && (Recv(buf, input).outcome.Closed? || Recv(buf, input).outcome.MidFrame?)
    ensures Recv(buf, input).used == |input|
    decreases |input|
  {
    hide HeadOf;
    if input[0] != Bytes([]) {
      ClosedLast(buf + input[0].b, input[1..]);
    }
  }

  // ---- Frames that are sent are the frames received --------------------------------------------------------

  datatype Sent = Rdp(sealed: seq<byte>) | Token(token: seq<byte>)

  function Wire(m: Sent): seq<byte> {
    match m case Rdp(s) => SendRdp(s) case Token(t) => EncodeHandshakeToken(t)
  }

  function WireAll(ms: seq<Sent>): seq<byte> {
    if ms == [] then [] else Wire(ms[0]) + WireAll(ms[1..])
  }

  predicate Fits(m: Sent) {
    match m case Rdp(s) => |s| <= 8388608 case Token(t) => |t| <= 0xFFFF
  }

  function FrameOf(m: Sent): Frame {
    match m case Rdp(s) => Frame(0, s) case Token(t) => Frame(0, Le16(|t| % 0x1_0000) + t)
  }

  lemma TypeByte(n: nat)
    requires n < 0x100_0000
    ensures Le32(n % 0x1_0000_0000) == Le32(n)[..3] + [DATA]
  {
    assert n % 0x1_0000_0000 == n;
  }

  lemma WireIsFrame(m: Sent)
    requires Fits(m)
    ensures |FrameOf(m).body| <= MAX_BODY && Wire(m) == EncodeFrame(FrameOf(m))
    ensures m.Token? ==> DecodeHandshakeBody(FrameOf(m).body) == Some(m.token)
  {
    hide Le32;
    var body := FrameOf(m).body;
    TypeByte(|body|);
    if m.Token? {
      TokenBody(m.token);
      assert Le32(|body|) + Le16(|m.token|) + m.token == Le32(|body|) + (Le16(|m.token|) + m.token);
    }
  }

  lemma TokenBody(t: seq<byte>)
    requires |t| <= 0xFFFF
    ensures |Le16(|t| % 0x1_0000) + t| == 2 + |t| && DecodeHandshakeBody(Le16(|t| % 0x1_0000) + t) == Some(t)
  {
    var body := Le16(|t|) + t;
    assert U16At(body, 0) == |t| && body[2..2 + |t|] == t;
  }

  lemma {:induction false} SentIsSplit(ms: seq<Sent>)
    requires forall i :: 0 <= i < |ms| ==> Fits(ms[i])
    ensures Split(WireAll(ms)) == Parts(seq(|ms|, i requires 0 <= i < |ms| => FrameOf(ms[i])), [], None)
  {
    hide Split, HeadOf, EncodeFrame, FrameOf, Wire;
    SplitStep(WireAll(ms));
    if ms == [] {
      NothingHead();
    } else {
      WireIsFrame(ms[0]);
      EncodedHead(FrameOf(ms[0]), WireAll(ms[1..]));
      SentIsSplit(ms[1..]);
    }
  }

  lemma NothingHead()
    ensures HeadOf([]) == Incomplete
  {
  }

  /** Everything sent is received exactly, once and in order, under every splitting into reads and every pattern of
      cancelled calls; then the connection waits, or closes cleanly if the peer did. */
  lemma SentIsReceived(ms: seq<Sent>, input: seq<Read>)
    requires (forall i :: 0 <= i < |ms| ==> Fits(ms[i])) && Orderly(input) && Arrived(input) == WireAll(ms)
    ensures var d := Drive([], input);
            && d.frames == seq(|ms|, i requires 0 <= i < |ms| => FrameOf(ms[i]))
            && d.buf == [] && d.left == [] && d.end == (if Closes(input) then Closed else Dropped)
  {
    hide Drive, Split, FrameOf, Orderly, WireAll;
    assert [] + Arrived(input) == Arrived(input);
    DriveIsSplit([], input);
    SentIsSplit(ms);
  }

  /** A sealed chunk comes through alone and whole exactly up to eight megabytes. */
  lemma SealedChunkIff(s: seq<byte>)
    ensures Split(SendRdp(s)) == Parts([Frame(0, s)], [], None) <==> |s| <= 8388608
  {
    hide Split, SendRdp, HeadOf;
    if |s| <= MAX_BODY {
      var ms := [Rdp(s)];
      SentIsSplit(ms);
      assert WireAll(ms) == Wire(ms[0]) + WireAll(ms[1..]) && ms[1..] == [];
      assert SendRdp(s) + [] == SendRdp(s);
    } else {
      var h := HeadOf(SendRdp(s));
      SplitStep(SendRdp(s));
      BodyBound(SendRdp(s));
      if h.Complete? {
        assert Split(SendRdp(s)).frames[0] == h.frame;
      }
    }
  }

  lemma BodyBound(buf: seq<byte>)
    ensures HeadOf(buf).Complete? ==> |HeadOf(buf).frame.body| <= MAX_BODY
  {
  }

  ghost predicate TokenRecovered(t: seq<byte>) {
    var p := Split(EncodeHandshakeToken(t));
    |p.frames| == 1 && p.rest == [] && DecodeHandshakeBody(p.frames[0].body) == Some(t)
  }

  /** The inner length has 16 bits: a handshake token comes back exactly when it fits them. */
  lemma TokenIff(t: seq<byte>)
    ensures TokenRecovered(t) <==> |t| <= 0xFFFF
  {
    hide Split, EncodeHandshakeToken;
    if |t| <= 0xFFFF {
      var ms := [Token(t)];
      SentIsSplit(ms);
      assert WireAll(ms) == Wire(ms[0]) + WireAll(ms[1..]) && ms[1..] == [];
      assert EncodeHandshakeToken(t) + [] == EncodeHandshakeToken(t);
      WireIsFrame(ms[0]);
    }
  }
}
