/**
 What the bulk decompressor does with arbitrary bytes: bounded writes, the meaning of a copy,
 and what happens when a damaged stream ends in the middle of a token.
 */
module MppcFacts {
  import opened Bits
  import opened Mppc

  /** For any input at all, a packet appends exactly its plaintext at the (reset) write position and
      touches no other cell; the write position stays in the window and the headroom stays zero. */
  lemma PacketWritesItsPlaintext(s: State, data: seq<byte>, atFront: bool, flushed: bool)
    requires s.Valid()
    ensures var s', r, out := Reset(s, atFront, flushed), After(s, data, true, atFront, flushed),
            Plain(s, data, true, atFront, flushed);
            && s'.offset + |out| == r.offset <= HISTORY_SIZE
            && r.history == s'.history[..s'.offset] + out + s'.history[r.offset..]
            && forall i :: HISTORY_SIZE <= i < HISTORY_CAP ==> r.history[i] == 0
  {
    hide Run;
    var s' := Reset(s, atFront, flushed);
    RunFrame(data, 0, s');
    var r := Run(data, 0, s');
    assert r.history == r.history[..s'.offset] + r.history[s'.offset..r.offset] + r.history[r.offset..];
  }

  /** A copy from behind the write position extends the window periodically: every copied byte equals the
      one `dst - src` places earlier in the result, also where source and destination overlap. */
  lemma {:induction false} CopyIsPeriodic(h: seq<byte>, src: nat, dst: nat, n: nat, i: nat)
    requires src < dst && dst + n <= |h| && i < n
    ensures var r := CopyLinear(h, src, dst, n);
            r[dst + i] == r[src + i] && (src + i < dst ==> r[src + i] == h[src + i])
    decreases n
  {
    var g := h[dst := h[src]];
    assert CopyLinear(h, src, dst, n) == CopyLinear(g, src + 1, dst + 1, n - 1);
    if i > 0 {
      CopyIsPeriodic(g, src + 1, dst + 1, n - 1, i - 1);
    }
  }

  /** A copy whose masked source lies at or ahead of the write position takes the bytes held before the call. */
  lemma {:induction false} CopyFromAheadIsOld(h: seq<byte>, src: nat, dst: nat, n: nat, i: nat)
    requires dst <= src && src + n <= |h| && i < n
    ensures CopyLinear(h, src, dst, n)[dst + i] == h[src + i]
    decreases n
  {
    var g := h[dst := h[src]];
    assert CopyLinear(h, src, dst, n) == CopyLinear(g, src + 1, dst + 1, n - 1);
    if i > 0 {
      CopyFromAheadIsOld(g, src + 1, dst + 1, n - 1, i - 1);
    }
  }

  /** Bit position and state after `n` tokens, or where the run stops before. */
  ghost function Nth(data: seq<byte>, pos: nat, s: State, n: nat): (r: (nat, State))
    requires s.Valid()
    ensures r.1.Valid()
    decreases n
  {
    if n == 0 || Stops(data, pos, s) then (pos, s)
    else
      var t := TokenAt(data, pos);
      Nth(data, pos + t.width, Apply(s, t.value), n - 1)
  }

  /** The run goes on from there, and has not yet touched anything from its write position on. */
  lemma {:induction false} NthInRun(data: seq<byte>, pos: nat, s: State, n: nat)
    requires s.Valid()
    ensures var (p, m) := Nth(data, pos, s, n);
            && Run(data, pos, s) == Run(data, p, m)
            && s.offset <= m.offset && m.history[m.offset..] == s.history[m.offset..]
    decreases n
  {
    hide TokenAt, Apply, Run, BitsLeft;
    if n > 0 && !Stops(data, pos, s) {
      var t := TokenAt(data, pos);
      var k := Apply(s, t.value);
      RunStep(data, pos, s);
      ApplyFrame(s, t.value);
      NthInRun(data, pos + t.width, k, n - 1);
      var m := Nth(data, pos, s, n).1;
      assert m.history[m.offset..] == k.history[k.offset..][m.offset - k.offset..];
      assert s.history[m.offset..] == s.history[k.offset..][m.offset - k.offset..];
    }
  }

  /** A copy whose masked source lies at or ahead of the write position leaves in the history, for good, the bytes that
      stood at its source before the call. */
  lemma CopyAheadReadsBeforeCall(data: seq<byte>, s: State, n: nat, i: nat)
    requires s.Valid()
    requires var (p, m) := Nth(data, 0, s, n);
             && !Stops(data, p, m) && TokenAt(data, p).value.Copy?
             && var t := TokenAt(data, p).value; m.offset <= SourceIndex(m, t.distance) && i < t.length
    ensures var (p, m) := Nth(data, 0, s, n);
            var src := SourceIndex(m, TokenAt(data, p).value.distance);
            src + i < HISTORY_CAP && Run(data, 0, s).history[m.offset + i] == s.history[src + i]
  {
    hide TokenAt, Run, Nth, BitsLeft, CopyLinear;
    var (p, m) := Nth(data, 0, s, n);
    var t := TokenAt(data, p);
    var src := SourceIndex(m, t.value.distance);
    var k := Apply(m, t.value);
    NthInRun(data, 0, s, n);
    RunStep(data, p, m);
    CopyFromAheadIsOld(m.history, src, m.offset, t.value.length, i);
    RunFrame(data, p + t.width, k);
    var r := Run(data, p + t.width, k);
    assert r.history[..k.offset][m.offset + i] == k.history[..k.offset][m.offset + i];
    assert m.history[m.offset..][src + i - m.offset] == s.history[m.offset..][src + i - m.offset];
  }

  // ---- Reading past the end ----------------------------------------------------

  lemma {:induction false} ZeroPastEnd(data: seq<byte>, pos: nat, n: nat)
    requires pos >= 8 * |data|
    ensures Val(data, pos, n) == 0
  {
    if n > 0 {
      ZeroPastEnd(data, pos, n - 1);
    }
  }

  /** Once a token has run past the data the wrapped bit count never stops the loop again: the rest of the
      window, up to its very end, is filled with zero bytes that the sender never sent. */
  lemma {:induction false} OverReadFillsWindow(data: seq<byte>, pos: nat, s: State)
    requires s.Valid() && 8 * |data| < pos
    requires pos - 8 * |data| + 8 * (HISTORY_SIZE - s.offset) < 0x1_0000_0000_0000_0000 - 8
    ensures var r := Run(data, pos, s);
            && r.offset == HISTORY_SIZE
            && forall i :: s.offset <= i < HISTORY_SIZE ==> r.history[i] == 0
    decreases HISTORY_SIZE - s.offset
  {
    hide Run, DistanceAt, LengthAt;
    if s.offset == HISTORY_SIZE {
      RunAtEnd(data, pos, s);
    } else {
      ZeroPastEnd(data, pos + 1, 7);
      assert TokenAt(data, pos) == Read(Literal(0), 8);
      var over := pos - 8 * |data|;
      assert BitsLeft(data, pos) == 0x1_0000_0000_0000_0000 - over;
      RunStep(data, pos, s);
      var n := Apply(s, Literal(0));
      OverReadFillsWindow(data, pos + 8, n);
      RunFrame(data, pos + 8, n);
      var r := Run(data, pos + 8, n);
      assert r.history[..n.offset][s.offset] == n.history[..n.offset][s.offset];
    }
  }

  lemma RunAtEnd(data: seq<byte>, pos: nat, s: State)
    requires s.Valid() && s.offset == HISTORY_SIZE
    ensures Run(data, pos, s) == s
  {
  }

  /** Bit position at which the loop exits. */
  ghost function ExitPos(data: seq<byte>, pos: nat, s: State): nat
    requires s.Valid()
    decreases HISTORY_SIZE - s.offset
  {
    if Stops(data, pos, s) then pos
    else
      var t := TokenAt(data, pos);
      ExitPos(data, pos + t.width, Apply(s, t.value))
  }

  /** Where the chain of code words from `pos` on first leaves fewer than eight bits of data: told from the bits
      alone. */
  function ChainEnd(data: seq<byte>, pos: nat): (e: nat)
    ensures e + 8 > 8 * |data|
    decreases 8 * |data| - pos
  {
    if pos + 8 > 8 * |data| then pos else ChainEnd(data, pos + TokenAt(data, pos).width)
  }

  /** Bytes a token writes. */
  function Extent(t: Token): nat {
    match t case Literal(_) => 1 case Copy(_, l) => l
  }

  lemma ApplyExtent(s: State, t: Token)
    requires s.Valid() && s.offset < HISTORY_SIZE && (t.Copy? ==> CopyFits(s, t))
    ensures Apply(s, t).offset == s.offset + Extent(t)
  {
  }

  /** A run from write position `offset` on is cut short while eight bits of data are left: at a full window, a copy
      with distance zero or one that crosses the window's end. Only the packet and the write position matter. */
  predicate CutAt(data: seq<byte>, pos: nat, offset: nat)
    decreases 8 * |data| - pos
  {
    && pos + 8 <= 8 * |data|
    && var t := TokenAt(data, pos);
      || offset >= HISTORY_SIZE
      || (t.value.Copy? && (t.value.distance == 0 || offset + t.value.length > HISTORY_SIZE))
      || CutAt(data, pos + t.width, offset + Extent(t.value))
  }

  /** The loop's guard fails exactly in the last eight bit positions of the data: not before them, where a token still
      fits, and not behind the data, where the subtraction wraps. */
  lemma GuardFailsIff(data: seq<byte>, pos: nat)
    requires |data| < 0x1000_0000 && pos < 0x8000_0000_0000_0000
    ensures BitsLeft(data, pos) < 8 <==> 8 * |data| - 8 < pos <= 8 * |data|
    ensures pos <= 8 * |data| ==> BitsLeft(data, pos) == 8 * |data| - pos
  {
    if pos > 8 * |data| {
      var over := pos - 8 * |data|;
      assert BitsLeft(data, pos) == 0x1_0000_0000_0000_0000 - over;
    }
  }

  /** Past the data the loop only ends at a full window. */
  lemma {:induction false} ExitsPastData(data: seq<byte>, pos: nat, s: State)
    requires s.Valid() && 8 * |data| < pos
    ensures ExitPos(data, pos, s) > 8 * |data|
    decreases HISTORY_SIZE - s.offset
  {
    hide TokenAt;
    if !Stops(data, pos, s) {
      var t := TokenAt(data, pos);
      ExitsPastData(data, pos + t.width, Apply(s, t.value));
    }
  }

  /** A packet is decoded without reading past its data if and only if it is cut short at its write position or its
      chain of code words ends inside the data. Otherwise the window is filled to its end, so that the next compressed
      packet decodes nothing until the sender resets the position. */
  lemma {:induction false} StopsInDataIff(data: seq<byte>, pos: nat, s: State)
    requires s.Valid() && pos <= 8 * |data| && |data| < 0x1000_0000
    ensures ExitPos(data, pos, s) <= 8 * |data| <==> CutAt(data, pos, s.offset) || ChainEnd(data, pos) <= 8 * |data|
    ensures ExitPos(data, pos, s) <= 8 * |data| || Run(data, pos, s).offset == HISTORY_SIZE
    decreases HISTORY_SIZE - s.offset
  {
    hide TokenAt, Apply, Run, BitsLeft;
    GuardFailsIff(data, pos);
    RunStops(data, pos, s);
    if !Stops(data, pos, s) {
      var t := TokenAt(data, pos);
      var n := Apply(s, t.value);
      RunStep(data, pos, s);
      ApplyExtent(s, t.value);
      if pos + t.width <= 8 * |data| {
        StopsInDataIff(data, pos + t.width, n);
      } else {
        OverReadFillsWindow(data, pos + t.width, n);
        ExitsPastData(data, pos + t.width, n);
        assert !CutAt(data, pos + t.width, s.offset + Extent(t.value));
      }
    }
  }

  /** One byte is enough: an eight-bit packet that begins a nine-bit literal writes 128 and then zeros to the end of
      the window. */
  lemma OneByteFillsWindow(s: State)
    requires s.Valid() && s.offset < HISTORY_SIZE
    ensures var r := Run([0x80], 0, s);
            && r.offset == HISTORY_SIZE && r.history[s.offset] == 128
            && forall i :: s.offset < i < HISTORY_SIZE ==> r.history[i] == 0
  {
    hide Run, TokenAt;
    var data: seq<byte> := [0x80];
    NineBits();
    RunStep(data, 0, s);
    var n := Apply(s, Literal(128));
    OverReadFillsWindow(data, 9, n);
    RunFrame(data, 9, n);
    var r := Run(data, 9, n);
    assert r.history[..n.offset][s.offset] == n.history[..n.offset][s.offset];
  }

  lemma NineBits()
    ensures TokenAt([0x80], 0) == Read(Literal(128), 9)
  {
    hide DistanceAt, LengthAt;
    var data: seq<byte> := [0x80];
    assert BitAt(data, 0) == 1 && BitAt(data, 1) == 0;
    assert Val(data, 2, 7) == 0 by {
      ZeroBits(data, 2, 7);
    }
  }

  lemma {:induction false} ZeroBits(data: seq<byte>, pos: nat, n: nat)
    requires forall q {:trigger BitAt(data, q)} :: pos <= q < pos + n ==> BitAt(data, q) == 0
    ensures Val(data, pos, n) == 0
  {
    if n > 0 {
      ZeroBits(data, pos, n - 1);
    }
  }
}
