/** The reference decompressor proper, and its agreement with `Mppc` on every packet it accepts. */
module MppcRefinement {
  import opened Options
  import opened Arith
  import opened Bits
  import opened BitOps
  import opened Mppc
  import opened MppcReference

  // ---- Tokens ------------------------------------------------------------------

  /** A token as read through the accumulator at `pos`, and again after the offset field for the length. */
  function RefTokenAt(data: seq<byte>, pos: nat): Option<Read<Token>> {
    var acc := Val(data, pos, 32);
    var lit := RefLiteral(acc);
    if lit.Some? then
      if lit.value.value < 256 then Some(Read(Literal(lit.value.value), lit.value.width)) else None
    else
      var d := RefDistance(acc);
      if d.None? then None
      else
        var l := RefLength(Val(data, pos + d.value.width, 32));
        if l.None? then None else Some(Read(Copy(d.value.value, l.value.value), d.value.width + l.value.width))
  }

  lemma RefLiteralIs(data: seq<byte>, pos: nat)
    ensures RefLiteral(Val(data, pos, 32)) ==
            if BitAt(data, pos) == 0 then Some(Read(Val(data, pos + 1, 7), 8))
            else if BitAt(data, pos + 1) == 0 then Some(Read(128 + Val(data, pos + 2, 7), 9))
            else None
  {
    hide Val, Pow2, BitAnd, BitAt;
    Pow2Small();
    Pow2Table();
    var x := Val(data, pos, 32);
    MaskTop(data, pos, 1, 0x8000_0000);
    MaskTop(data, pos, 2, 0xC000_0000);
    ValNone(data, pos);
    ValStep(data, pos, 0);
    ValStep(data, pos, 1);
    MaskMiddle(x, 7, 24, 0x7F00_0000);
    MaskMiddle(x, 7, 23, 0x3F80_0000);
    MaskField(data, pos, 1, 7);
    MaskField(data, pos, 2, 7);
  }

  lemma MaskMiddle(x: nat, f: nat, m: nat, mask: nat)
    requires mask == (Pow2(f) - 1) * Pow2(m)
    ensures BitAnd(x, mask) / Pow2(m) == BitAnd(Shr(x, Pow2(m)), Pow2(f) - 1)
  {
    hide Pow2, BitAnd;
    AndHigh(x, Pow2(f) - 1, m, mask);
    DivMod(BitAnd(Shr(x, Pow2(m)), Pow2(f) - 1), Pow2(m), 0);
  }

  lemma RefDistanceIs(data: seq<byte>, pos: nat)
    requires BitAt(data, pos) == 1 && BitAt(data, pos + 1) == 1
    ensures RefDistance(Val(data, pos, 32)) ==
            var d := DistanceAt(data, pos + 2); Some(Read(d.value, d.width + 2))
  {
    hide Val, Pow2, BitAnd, BitAt;
    Pow2Small();
    Pow2Table();
    MaskTop(data, pos, 5, 0xF800_0000);
    MaskTop(data, pos, 4, 0xF000_0000);
    MaskTop(data, pos, 3, 0xE000_0000);
    ValNone(data, pos);
    ValStep(data, pos, 0);
    ValStep(data, pos, 1);
    ValStep(data, pos, 2);
    ValStep(data, pos, 3);
    ValStep(data, pos, 4);
    MaskField(data, pos, 5, 6);
    MaskField(data, pos, 5, 8);
    MaskField(data, pos, 4, 11);
    MaskField(data, pos, 3, 16);
  }

  /** Bit position of the length code of a copy token at `pos`. */
  function LengthPos(data: seq<byte>, pos: nat): nat {
    pos + 2 + DistanceAt(data, pos + 2).width
  }

  /** Same language: the reference reads the same token, and rejects exactly a copy whose length code begins with
      fifteen or more ones, a length of 65536 or more. */
  lemma SameTokens(data: seq<byte>, pos: nat)
    ensures var t := TokenAt(data, pos);
            && RefTokenAt(data, pos)
               == (if t.value.Copy? && LeadingOnes(data, LengthPos(data, pos), 0) >= 15 then None else Some(t))
            && (t.value.Copy? ==>
                  (LeadingOnes(data, LengthPos(data, pos), 0) >= 15 <==> t.value.length >= 65536))
  {
    hide Val, RefLiteral, RefDistance, RefLength, DistanceAt, LengthAt, BitAt, LeadingOnes;
    Pow2Small();
    RefLiteralIs(data, pos);
    if BitAt(data, pos) == 1 && BitAt(data, pos + 1) == 1 {
      RefDistanceIs(data, pos);
      RefLengthIs(data, LengthPos(data, pos));
      LongLengths(data, LengthPos(data, pos));
    }
  }

  /** Lengths that take fifteen or more ones are those of 65536 or more. */
  lemma LongLengths(data: seq<byte>, p: nat)
    ensures LeadingOnes(data, p, 0) >= 15 <==> LengthAt(data, p).value >= 65536
  {
    hide Val, LeadingOnes, Pow2;
    var n := LeadingOnes(data, p, 0);
    Pow2Small();
    if n >= 15 {
      Pow2Monotone(16, n + 1);
    } else {
      Pow2Monotone(n + 2, 16);
      assert Pow2(n + 2) == 2 * Pow2(n + 1) by { Pow2Add(1, n + 1); }
    }
  }

  // ---- Decompression as a function ------------------------------------------------

  datatype Outcome = Accepted(state: State) | Rejected(code: int)

  /** The 32-bit unsigned subtraction `length - position`. */
  function RefBitsLeft(data: seq<byte>, pos: nat): nat {
    (8 * |data| - pos) % W
  }

  predicate TooLong(s: State, t: Token) {
    t.Copy? && s.offset + t.length > HISTORY_SIZE
  }

  /** Unlike `Mppc.Apply` this also copies from distance zero, that is, onto itself. */
  function RefApply(s: State, t: Token): (r: State)
    requires s.Valid() && s.offset < HISTORY_SIZE && !TooLong(s, t)
    ensures r.Valid()
  {
    match t
    case Literal(b) => State(s.history[s.offset := b], s.offset + 1)
    case Copy(d, l) => State(CopyLinear(s.history, SourceIndex(s, d), s.offset, l), s.offset + l)
  }

  function RefRun(data: seq<byte>, pos: nat, s: State): Outcome
    requires s.Valid()
    decreases HISTORY_SIZE - s.offset
  {
    if RefBitsLeft(data, pos) < 8 then Accepted(s)
    else if s.offset >= HISTORY_SIZE then Rejected(-1004)
    else
      var t := RefTokenAt(data, pos);
      if t.None? then Rejected(-1003)
      else if TooLong(s, t.value.value) then Rejected(-1005)
      else
        SameTokens(data, pos);
        RefRun(data, pos + t.value.width, RefApply(s, t.value.value))
  }

  /** The accepted run of the reference contains a copy with offset zero. */
  ghost predicate ZeroCopyMet(data: seq<byte>, pos: nat, s: State)
    requires s.Valid()
    decreases HISTORY_SIZE - s.offset
  {
    && RefBitsLeft(data, pos) >= 8
    && s.offset < HISTORY_SIZE
    && var t := TokenAt(data, pos);
      if t.value.Copy? && t.value.distance == 0 then true
      else !(t.value.Copy? && !CopyFits(s, t.value)) && ZeroCopyMet(data, pos + t.width, Apply(s, t.value))
  }

  lemma {:induction false} RefRunGrows(data: seq<byte>, pos: nat, s: State)
    requires s.Valid() && RefRun(data, pos, s).Accepted?
    ensures RefRun(data, pos, s).state.offset >= s.offset
    ensures RefBitsLeft(data, pos) >= 8 ==> RefRun(data, pos, s).state.offset > s.offset
    decreases HISTORY_SIZE - s.offset
  {
    hide TokenAt, RefTokenAt;
    if RefBitsLeft(data, pos) >= 8 {
      SameTokens(data, pos);
      var t := TokenAt(data, pos);
      RefRunGrows(data, pos + t.width, RefApply(s, t.value));
    }
  }

  /** Neither decoder's bit counter can be far past the data: every token advances the write position. */
  ghost predicate Paced(data: seq<byte>, pos: nat, s: State) {
    |data| < 0x100_0000 && pos + 80 * (HISTORY_SIZE - s.offset) <= 8 * |data| + 80 * HISTORY_SIZE
  }

  lemma SameGuard(data: seq<byte>, pos: nat, s: State)
    requires s.Valid() && Paced(data, pos, s)
    ensures RefBitsLeft(data, pos) < 8 <==> BitsLeft(data, pos) < 8
  {
    if pos > 8 * |data| {
      assert RefBitsLeft(data, pos) == W - (pos - 8 * |data|);
      assert BitsLeft(data, pos) == 0x1_0000_0000_0000_0000 - (pos - 8 * |data|);
    }
  }

  /** Whenever the reference accepts a packet, `Mppc` ends in the same history and write position,
      unless the packet holds a copy with offset zero, which `Mppc` treats as the end of the stream. */
  lemma {:induction false} AcceptedRunsAgree(data: seq<byte>, pos: nat, s: State)
    requires s.Valid() && Paced(data, pos, s)
    requires RefRun(data, pos, s).Accepted?
    ensures Run(data, pos, s) == RefRun(data, pos, s).state <==> !ZeroCopyMet(data, pos, s)
    decreases HISTORY_SIZE - s.offset
  {
    hide TokenAt, RefTokenAt, BitsLeft, RefBitsLeft;
    SameGuard(data, pos, s);
    if RefBitsLeft(data, pos) >= 8 {
      SameTokens(data, pos);
      var t := TokenAt(data, pos);
      if t.value.Copy? && t.value.distance == 0 {
        RefRunGrows(data, pos, s);
      } else {
        RunStep(data, pos, s);
        AcceptedRunsAgree(data, pos + t.width, Apply(s, t.value));
      }
    }
  }

  /** Flag handling of the reference: AT_FRONT first, then FLUSHED. */
  function RefReset(s: State, atFront: bool, flushed: bool): (r: State)
    requires s.Valid()
    ensures r.Valid()
  {
    var s' := if atFront then State(s.history, 0) else s;
    if flushed then State(seq(HISTORY_SIZE, _ => 0 as byte) + s'.history[HISTORY_SIZE..], 0) else s'
  }

  datatype RefResult = RefOk(out: seq<byte>, state: State) | RefFailed(code: int)

  function RefPacket(s: State, data: seq<byte>, compressed: bool, atFront: bool, flushed: bool): RefResult
    requires s.Valid()
  {
    var s' := RefReset(s, atFront, flushed);
    if !compressed then RefOk(data, s')
    else
      var r := RefRun(data, 0, s');
      if r.Rejected? then RefFailed(r.code)
      else
        RefRunGrows(data, 0, s');
        RefRunValid(data, 0, s');
        RefOk(r.state.history[s'.offset..r.state.offset], r.state)
  }

  lemma {:induction false} RefRunValid(data: seq<byte>, pos: nat, s: State)
    requires s.Valid() && RefRun(data, pos, s).Accepted?
    ensures RefRun(data, pos, s).state.Valid()
    decreases HISTORY_SIZE - s.offset
  {
    hide TokenAt, RefTokenAt;
    if RefBitsLeft(data, pos) >= 8 {
      SameTokens(data, pos);
      var t := TokenAt(data, pos);
      RefRunValid(data, pos + t.width, RefApply(s, t.value));
    }
  }

  /** Packet by packet, flags included: same plaintext, same history, same pointer. */
  lemma PacketRefinement(s: State, data: seq<byte>, compressed: bool, atFront: bool, flushed: bool)
    requires s.Valid() && |data| < 0x100_0000
    requires compressed ==> !ZeroCopyMet(data, 0, RefReset(s, atFront, flushed))
    requires RefPacket(s, data, compressed, atFront, flushed).RefOk?
    ensures RefPacket(s, data, compressed, atFront, flushed)
            == RefOk(Plain(s, data, compressed, atFront, flushed), After(s, data, compressed, atFront, flushed))
  {
    hide Run, RefRun, ZeroCopyMet;
    var s' := RefReset(s, atFront, flushed);
    assert s' == Reset(s, atFront, flushed);
    if compressed {
      AcceptedRunsAgree(data, 0, s');
    }
  }

  // ---- The reference as a procedure --------------------------------------------------

  class MppcContext {
    const buffer: array<byte>  // the 64K history and the memory behind it that a copy can reach
    var pointer: nat           // HistoryPtr - HistoryBuffer

    ghost predicate Valid()
      reads this, buffer
    {
      Abs().Valid()
    }

    ghost function Abs(): State
      reads this, buffer
    {
      State(buffer[..], pointer)
    }

    constructor ()
      ensures Valid() && fresh(buffer)
    {
      buffer := new byte[HISTORY_CAP](_ => 0);
      pointer := 0;
    }

    method Decompress(data: seq<byte>, compressed: bool, atFront: bool, flushed: bool)
      returns (status: int, out: seq<byte>)
      requires Valid()
      modifies this, buffer
      ensures var r := RefPacket(old(Abs()), data, compressed, atFront, flushed);
              if r.RefOk? then status == 1 && out == r.out && Abs() == r.state
              else status == r.code && pointer == RefReset(old(Abs()), atFront, flushed).offset
      ensures Valid()
    {
      hide RefRun, RefLength, RefDistance, RefLiteral, Val;
      out := [];
      if atFront {
        pointer := 0;
      }
      if flushed {
        for i := 0 to HISTORY_SIZE
          invariant buffer[i..] == old(buffer[i..])
          invariant forall k :: 0 <= k < i ==> buffer[k] == 0
        {
          buffer[i] := 0;
        }
        pointer := 0;
      }
      assert Abs() == RefReset(old(Abs()), atFront, flushed);
      if !compressed {
        return 1, data;
      }
      ghost var start := Abs();
      var ok, historyPtr := DecodeStream(data);
      status := ok;
      if ok == 1 {
        RefRunGrows(data, 0, start);
        out := buffer[pointer..historyPtr];
        pointer := historyPtr;
      }
    }

    /** On success returns the local HistoryPtr; the field is updated by the caller only. */
    method DecodeStream(data: seq<byte>) returns (status: int, historyPtr: nat)
      requires Valid()
      modifies buffer
      ensures State(buffer[..], historyPtr).Valid()
      ensures var r := RefRun(data, 0, Abs0(old(buffer[..])));
              if r.Accepted? then status == 1 && State(buffer[..], historyPtr) == r.state
                  else status == r.code && status < 0
    {
      hide RefRun, RefLength, RefDistance, RefLiteral, RefTokenAt, Val, TokenAt, CopyLinear, BitStream.Synced;
      var bs := new BitStream.Attach(data);
      historyPtr := pointer;
      ghost var start := Abs();
      while true
        invariant fresh(bs) && bs.buffer == data && bs.Synced()
        invariant State(buffer[..], historyPtr).Valid()
        invariant RefRun(data, bs.position, State(buffer[..], historyPtr)) == RefRun(data, 0, start)
        decreases HISTORY_SIZE - historyPtr
      {
        ghost var here, pos := State(buffer[..], historyPtr), bs.position;
        RefRunEnd(data, pos, here);
        if (8 * |data| - bs.position) % W < 8 {
          status := 1;
          return;
        }
        if historyPtr >= HISTORY_SIZE {
          status := -1004;
          return;
        }
        RefRunStep(data, pos, here);
        var ok, t := ReadReferenceToken(bs);
        assert State(buffer[..], historyPtr) == here;
        if !ok {
          status := -1003;
          return;
        }
        if t.Copy? && historyPtr + t.length > HISTORY_SIZE {
          status := -1005;
          return;
        }
        SameTokens(data, pos);
        historyPtr := WriteToken(t, historyPtr);
      }
    }

    method WriteToken(t: Token, at: nat) returns (end: nat)
      requires at < HISTORY_SIZE && State(buffer[..], at).Valid()
      requires t.Copy? ==> t.length > 0 && at + t.length <= HISTORY_SIZE
      modifies buffer
      ensures State(buffer[..], end) == RefApply(State(old(buffer[..]), at), t)
    {
      if t.Literal? {
        buffer[at] := t.b;
        end := at + 1;
      } else {
        end := CopyBytes((at - t.distance) % HISTORY_SIZE, at, t.length);
      }
    }

    ghost function Abs0(h: seq<byte>): State
      reads this
    {
      State(h, pointer)
    }

    method CopyBytes(from: nat, to: nat, length: nat) returns (end: nat)
      requires buffer.Length == HISTORY_CAP && from < HISTORY_SIZE && 0 < length && to + length <= HISTORY_SIZE
      modifies buffer
      ensures end == to + length
      ensures buffer[..] == CopyLinear(old(buffer[..]), from, to, length)
    {
      var src, left := from, length;
      end := to;
      while left > 0
        invariant left <= length && src == from + (length - left) && end == to + (length - left)
        invariant CopyLinear(buffer[..], src, end, left) == CopyLinear(old(buffer[..]), from, to, length)
      {
        ghost var h := buffer[..];
        buffer[end] := buffer[src];
        assert buffer[..] == h[end := h[src]];
        end := end + 1;
        src := src + 1;
        left := left - 1;
      }
    }
  }

  method ReadReferenceToken(bs: BitStream) returns (ok: bool, t: Token)
    requires bs.Synced()
    modifies bs
    ensures var r := RefTokenAt(bs.buffer, old(bs.position));
            && ok == r.Some?
            && (ok ==> bs.Synced() && t == r.value.value && bs.position == old(bs.position) + r.value.width)
  {
    hide Val, RefLiteral, RefDistance, RefLength, TokenAt;
    SameTokens(bs.buffer, bs.position);
    RefWidths(bs.buffer, bs.position);
    var acc := bs.accumulator;
    var lit := RefLiteral(acc);
    ok, t := true, Literal(0);
    if lit.Some? {
      t := Literal(lit.value.value);
      bs.Shift(lit.value.width);
      return;
    }
    var d := RefDistance(acc);
    if d.None? {
      return false, t;
    }
    bs.Shift(d.value.width);
    var l := RefLength(bs.accumulator);
    if l.None? {
      return false, t;
    }
    bs.Shift(l.value.width);
    t := Copy(d.value.value, l.value.value);
  }

  lemma RefWidths(data: seq<byte>, pos: nat)
    ensures var r := RefLiteral(Val(data, pos, 32)); r.Some? ==> r.value.width < 32 && r.value.value < 256
    ensures var r := RefDistance(Val(data, pos, 32)); r.Some? ==> r.value.width < 32
    ensures forall acc: nat :: RefLength(acc).Some? ==> RefLength(acc).value.width < 32
  {
    hide Val, BitAnd;
    Pow2Small();
    RefLiteralIs(data, pos);
  }

  lemma RefRunStep(data: seq<byte>, pos: nat, s: State)
    requires s.Valid() && RefBitsLeft(data, pos) >= 8 && s.offset < HISTORY_SIZE
    ensures var t := RefTokenAt(data, pos);
            RefRun(data, pos, s) ==
            if t.None? then Rejected(-1003)
            else if TooLong(s, t.value.value) then Rejected(-1005)
            else RefRun(data, pos + t.value.width, RefApply(s, t.value.value))
  {
    hide RefTokenAt;
  }

  lemma RefRunEnd(data: seq<byte>, pos: nat, s: State)
    requires s.Valid()
    ensures RefBitsLeft(data, pos) < 8 ==> RefRun(data, pos, s) == Accepted(s)
    ensures RefBitsLeft(data, pos) >= 8 && s.offset >= HISTORY_SIZE ==> RefRun(data, pos, s) == Rejected(-1004)
  {
  }
}
