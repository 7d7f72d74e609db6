/**
 The RDP 5.0 / 64K bulk decompressor: a prefix-code bit reader over a persistent
 history. Section 3.1.8.4.2 of MS-RDPBCGR, with the length code of RFC 2118.
 */
module Mppc {
  import opened Bits

  const HISTORY_SIZE: nat := 65536
  const HISTORY_CAP: nat := 131072

  // ---- Tokens -------------------------------------------------------------

  datatype Token = Literal(b: byte) | Copy(distance: nat, length: nat)

  /** A value read from the stream together with the number of bits it took. */
  datatype Read<T> = Read(value: T, width: nat)

  /** Bits left as the unsigned 64-bit subtraction of the source: it wraps once a token has read past the end. */
  function BitsLeft(data: seq<byte>, pos: nat): nat {
    (8 * |data| - pos) % 0x1_0000_0000_0000_0000
  }

  function DistanceAt(data: seq<byte>, pos: nat): Read<nat> {
    if BitAt(data, pos) == 0 then Read(Val(data, pos + 1, 16) + 2368, 17)
    else if BitAt(data, pos + 1) == 0 then Read(Val(data, pos + 2, 11) + 320, 13)
    else if BitAt(data, pos + 2) == 0 then Read(Val(data, pos + 3, 8) + 64, 11)
    else Read(Val(data, pos + 3, 6), 9)
  }

  /** Number of one bits from `pos + n` on, added to `n` and capped at 30. */
  function LeadingOnes(data: seq<byte>, pos: nat, n: nat): (k: nat)
    requires n <= 30
    ensures n <= k <= 30
    decreases data, 30 - n
  {
    if n == 30 || BitAt(data, pos + n) == 0 then n else LeadingOnes(data, pos, n + 1)
  }

  function LengthAt(data: seq<byte>, pos: nat): (r: Read<nat>)
    ensures r.value >= 3
    ensures 1 <= r.width <= 61
  {
    var n := LeadingOnes(data, pos, 0);
    // The closing zero is read too, except when the run was cut off at 30.
    var prefix := if n == 30 then 30 else n + 1;
    if n == 0 then Read(3, prefix)
    else
      Pow2Small();
      Pow2Monotone(2, n + 1);
      Read(Pow2(n + 1) + Val(data, pos + prefix, n + 1), prefix + n + 1)
  }

  function TokenAt(data: seq<byte>, pos: nat): (r: Read<Token>)
    ensures r.value.Copy? ==> r.value.length >= 3
    ensures 8 <= r.width <= 80
  {
    Pow2Small();
    if BitAt(data, pos) == 0 then Read(Literal(Val(data, pos + 1, 7)), 8)
    else if BitAt(data, pos + 1) == 0 then Read(Literal(128 + Val(data, pos + 2, 7)), 9)
    else
      var d := DistanceAt(data, pos + 2);
      var l := LengthAt(data, pos + 2 + d.width);
      Read(Copy(d.value, l.value), 2 + d.width + l.width)
  }

  // ---- Decompression as a function ---------------------------------------

  datatype State = State(history: seq<byte>, offset: nat) {
    /** The write region is bounded and the upper 64K is always zero. */
    ghost predicate Valid() {
      && |history| == HISTORY_CAP
      && offset <= HISTORY_SIZE
      && forall i :: HISTORY_SIZE <= i < HISTORY_CAP ==> history[i] == 0
    }
  }

  /** Byte-at-a-time copy of `n` bytes, forwards: a byte may be read after it was written. */
  function CopyLinear(h: seq<byte>, src: nat, dst: nat, n: nat): (r: seq<byte>)
    requires src + n <= |h| && dst + n <= |h|
    ensures |r| == |h|
    ensures forall i :: 0 <= i < |h| && !(dst <= i < dst + n) ==> r[i] == h[i]
    decreases n
  {
    if n == 0 then h else CopyLinear(h[dst := h[src]], src + 1, dst + 1, n - 1)
  }

  lemma CopyStep(h: seq<byte>, src: nat, dst: nat, n: nat)
    requires 0 < n && src + n <= |h| && dst + n <= |h|
    ensures CopyLinear(h, src, dst, n) == CopyLinear(h[dst := h[src]], src + 1, dst + 1, n - 1)
  {
  }

  lemma NothingCopied(src: nat, dst: nat)
    ensures forall h :: src <= |h| && dst <= |h| ==> CopyLinear(h, src, dst, 0) == h
  {
  }

  /** What a copy token may do in state `s`: the source index is masked to 64K at its start only. */
  predicate CopyFits(s: State, t: Token)
    requires t.Copy?
  {
    t.distance != 0 && s.offset + t.length <= HISTORY_SIZE
  }

  function SourceIndex(s: State, distance: nat): nat {
    (s.offset - distance) % HISTORY_SIZE
  }

  /** `None` when the decoder stops at this token, as in the source's `break`. */
  function Apply(s: State, t: Token): (r: State)
    requires s.Valid() && s.offset < HISTORY_SIZE
    requires t.Copy? ==> CopyFits(s, t)
    ensures r.Valid()
  {
    match t
    case Literal(b) => State(s.history[s.offset := b], s.offset + 1)
    case Copy(d, l) => State(CopyLinear(s.history, SourceIndex(s, d), s.offset, l), s.offset + l)
  }

  predicate Stops(data: seq<byte>, pos: nat, s: State) {
    || BitsLeft(data, pos) < 8
    || s.offset >= HISTORY_SIZE
    || (TokenAt(data, pos).value.Copy? && !CopyFits(s, TokenAt(data, pos).value))
  }

  /** The decoding loop from bit `pos` on. */
  function Run(data: seq<byte>, pos: nat, s: State): (r: State)
    requires s.Valid()
    ensures r.Valid() && s.offset <= r.offset
    decreases HISTORY_SIZE - s.offset
  {
    if Stops(data, pos, s) then s
    else
      var t := TokenAt(data, pos);
      Run(data, pos + t.width, Apply(s, t.value))
  }

  lemma RunStep(data: seq<byte>, pos: nat, s: State)
    requires s.Valid() && !Stops(data, pos, s)
    ensures Run(data, pos, s) == Run(data, pos + TokenAt(data, pos).width, Apply(s, TokenAt(data, pos).value))
  {
  }

  lemma RunStops(data: seq<byte>, pos: nat, s: State)
    requires s.Valid()
    ensures Stops(data, pos, s) ==> Run(data, pos, s) == s
  {
  }

  /** Only the cells between the old and the new write position change. */
  lemma {:induction false} RunFrame(data: seq<byte>, pos: nat, s: State)
    requires s.Valid()
    ensures var r := Run(data, pos, s);
            r.history[..s.offset] == s.history[..s.offset] && r.history[r.offset..] == s.history[r.offset..]
    decreases HISTORY_SIZE - s.offset
  {
    hide TokenAt, BitsLeft, Apply;
    if !Stops(data, pos, s) {
      var t := TokenAt(data, pos);
      var n := Apply(s, t.value);
      RunStep(data, pos, s);
      ApplyFrame(s, t.value);
      RunFrame(data, pos + t.width, n);
      var r := Run(data, pos, s);
      assert r.history[..s.offset] == r.history[..n.offset][..s.offset];
      assert n.history[..n.offset][..s.offset] == n.history[..s.offset];
      assert r.history[r.offset..] == n.history[r.offset..] == n.history[n.offset..][r.offset - n.offset..];
    }
  }

  lemma ApplyFrame(s: State, t: Token)
    requires s.Valid() && s.offset < HISTORY_SIZE && (t.Copy? ==> CopyFits(s, t))
    ensures var n := Apply(s, t);
            && s.offset <= n.offset && ((t.Copy? ==> t.length > 0) ==> s.offset < n.offset)
            && n.history[..s.offset] == s.history[..s.offset]
            && n.history[n.offset..] == s.history[n.offset..]
  {
  }

  /** Effect of the AT_FRONT and FLUSHED flags. */
  function Reset(s: State, atFront: bool, flushed: bool): (r: State)
    requires s.Valid()
    ensures r.Valid()
  {
    var h := if flushed then seq(HISTORY_SIZE, _ => 0 as byte) + s.history[HISTORY_SIZE..] else s.history;
    State(h, if atFront || flushed then 0 else s.offset)
  }

  /** State after one packet. */
  function After(s: State, data: seq<byte>, compressed: bool, atFront: bool, flushed: bool): (r: State)
    requires s.Valid()
    ensures r.Valid()
  {
    var s' := Reset(s, atFront, flushed);
    if compressed then Run(data, 0, s') else s'
  }

  /** Plaintext of one packet. */
  function Plain(s: State, data: seq<byte>, compressed: bool, atFront: bool, flushed: bool): seq<byte>
    requires s.Valid()
  {
    if !compressed then data
    else
      var s' := Reset(s, atFront, flushed);
      var r := Run(data, 0, s');
      r.history[s'.offset..r.offset]
  }

  // ---- The decompressor ---------------------------------------------------

  class BitReader {
    const data: seq<byte>
    var byteIndex: nat
    var bit: nat

    ghost predicate Valid()
      reads this
    {
      bit < 8
    }

    ghost function Pos(): nat
      reads this
    {
      8 * byteIndex + bit
    }

    constructor (data: seq<byte>)
      ensures Valid() && Pos() == 0 && this.data == data
    {
      this.data := data;
      byteIndex := 0;
      bit := 0;
    }

    method ReadBit() returns (v: bit)
      requires Valid()
      modifies this
      ensures Valid() && Pos() == old(Pos()) + 1
      ensures v == BitAt(data, old(Pos()))
    {
      v := if byteIndex < |data| then ByteBit(data[byteIndex], bit) else 0;
      assert Pos() / 8 == byteIndex && Pos() % 8 == bit;
      bit := bit + 1;
      if bit == 8 {
        bit := 0;
        byteIndex := byteIndex + 1;
      }
    }

    method Left() returns (n: nat)
      requires Valid()
      ensures n == BitsLeft(data, Pos())
    {
      n := (8 * |data| - (8 * byteIndex + bit)) % 0x1_0000_0000_0000_0000;
    }

    method ReadBits(n: nat) returns (v: nat)
      requires Valid() && n <= 31
      modifies this
      ensures Valid() && Pos() == old(Pos()) + n
      ensures v == Val(data, old(Pos()), n)
    {
      v := 0;
      for i := 0 to n
        invariant Valid() && Pos() == old(Pos()) + i
        invariant v == Val(data, old(Pos()), i)
      {
        var b := ReadBit();
        v := 2 * v + b;
      }
    }
  }

  method DecodeOffset(br: BitReader) returns (distance: nat)
    requires br.Valid()
    modifies br
    ensures br.Valid() && old(br.Pos()) <= br.Pos()
    ensures distance == DistanceAt(br.data, old(br.Pos())).value
    ensures br.Pos() == old(br.Pos()) + DistanceAt(br.data, old(br.Pos())).width
  {
    hide BitAt, Val;
    var b := br.ReadBit();
    if b == 0 {
      distance := br.ReadBits(16);
      distance := distance + 2368;
      return;
    }
    b := br.ReadBit();
    if b == 0 {
      distance := br.ReadBits(11);
      distance := distance + 320;
      return;
    }
    b := br.ReadBit();
    if b == 0 {
      distance := br.ReadBits(8);
      distance := distance + 64;
    } else {
      distance := br.ReadBits(6);
    }
  }

  method CountOnes(br: BitReader) returns (n: nat)
    requires br.Valid()
    modifies br
    ensures br.Valid() && n == LeadingOnes(br.data, old(br.Pos()), 0)
    ensures br.Pos() == old(br.Pos()) + if n == 30 then 30 else n + 1
  {
    n := 0;
    ghost var start := br.Pos();
    var b := br.ReadBit();
    while b == 1
      invariant n < 30 && br.Valid() && br.Pos() == start + n + 1
      invariant b == BitAt(br.data, start + n)
      invariant LeadingOnes(br.data, start, n) == LeadingOnes(br.data, start, 0)
      decreases 30 - n
    {
      n := n + 1;
      if n >= 30 {
        break;
      }
      b := br.ReadBit();
    }
  }

  method DecodeLength(br: BitReader) returns (length: nat)
    requires br.Valid()
    modifies br
    ensures br.Valid() && old(br.Pos()) <= br.Pos()
    ensures length == LengthAt(br.data, old(br.Pos())).value
    ensures br.Pos() == old(br.Pos()) + LengthAt(br.data, old(br.Pos())).width
  {
    var n := CountOnes(br);
    if n == 0 {
      length := 3;
    } else {
      var v := br.ReadBits(n + 1);
      length := Pow2(n + 1) + v;
    }
  }

  method ReadToken(br: BitReader) returns (t: Token)
    requires br.Valid()
    modifies br
    ensures br.Valid()
    ensures t == TokenAt(br.data, old(br.Pos())).value
    ensures br.Pos() == old(br.Pos()) + TokenAt(br.data, old(br.Pos())).width
  {
    hide DistanceAt, LengthAt, BitAt, Val, Pow2;
    Pow2Small();
    var b := br.ReadBit();
    if b == 0 {
      var lit := br.ReadBits(7);
      return Literal(lit);
    }
    b := br.ReadBit();
    if b == 0 {
      var lit := br.ReadBits(7);
      return Literal(128 + lit);
    }
    var distance := DecodeOffset(br);
    var length := DecodeLength(br);
    t := Copy(distance, length);
  }

  class MppcDecompressor {
    const history: array<byte>
    var offset: nat

    ghost predicate Valid()
      reads this, history
    {
      Abs().Valid()
    }

    ghost function Abs(): State
      reads this, history
    {
      State(history[..], offset)
    }

    constructor ()
      ensures Valid() && fresh(history)
      ensures Abs() == State(seq(HISTORY_CAP, _ => 0 as byte), 0)
    {
      history := new byte[HISTORY_CAP](_ => 0);
      offset := 0;
    }

    method Decompress(data: seq<byte>, compressed: bool, atFront: bool, flushed: bool) returns (out: seq<byte>)
      requires Valid()
      modifies this, history
      ensures Valid()
      ensures Abs() == After(old(Abs()), data, compressed, atFront, flushed)
      ensures out == Plain(old(Abs()), data, compressed, atFront, flushed)
    {
      if flushed {
        Flush();
      }
      if atFront {
        offset := 0;
      }
      if !compressed {
        return data;
      }
      out := DecodeStream(data);
    }

    method Flush()
      requires Valid()
      modifies this, history
      ensures Valid() && Abs() == Reset(old(Abs()), false, true)
    {
      for i := 0 to HISTORY_SIZE
        invariant history[i..] == old(history[i..])
        invariant forall k :: 0 <= k < i ==> history[k] == 0
      {
        history[i] := 0;
      }
      offset := 0;
    }

    method DecodeStream(data: seq<byte>) returns (out: seq<byte>)
      requires Valid()
      modifies this, history
      ensures Valid() && Abs() == Run(data, 0, old(Abs()))
      ensures old(offset) <= offset && out == history[old(offset)..offset]
    {
      hide TokenAt, BitsLeft, CopyLinear, Run;
      out := [];
      ghost var start := Abs();
      var br := new BitReader(data);
      while true
        invariant br.Valid() && br.data == data && fresh(br)
        invariant Valid() && start.offset <= offset
        invariant Run(data, br.Pos(), Abs()) == Run(data, 0, start)
        invariant out == history[start.offset..offset]
        decreases HISTORY_SIZE - offset
      {
        ghost var pos, here := br.Pos(), Abs();
        RunStops(data, pos, here);
        var left := br.Left();
        if left < 8 {
          break;
        }
        if offset >= HISTORY_SIZE {
          break;
        }
        var t := ReadToken(br);
        assert Abs() == here;
        if t.Literal? {
          PutLiteral(t.b);
          out := out + [t.b];
        } else {
          if t.distance == 0 {
            break; // malformed
          }
          if offset + t.length > HISTORY_SIZE {
            break; // would cross the end of the window
          }
          var copied := CopyToken(t.distance, t.length);
          out := out + copied;
        }
        assert Abs() == Apply(here, t);
        RunStep(data, pos, here);
      }
    }

    method PutLiteral(b: byte)
      requires Valid() && offset < HISTORY_SIZE
      modifies this, history
      ensures Valid() && Abs() == Apply(old(Abs()), Literal(b))
      ensures history[..old(offset)] == old(history[..offset]) && history[old(offset)] == b
    {
      history[offset] := b;
      offset := offset + 1;
    }

    method CopyToken(distance: nat, length: nat) returns (out: seq<byte>)
      requires Valid() && offset < HISTORY_SIZE && CopyFits(Abs(), Copy(distance, length))
      modifies this, history
      ensures Valid() && Abs() == Apply(old(Abs()), Copy(distance, length))
      ensures history[..old(offset)] == old(history[..offset]) && out == history[old(offset)..offset]
    {
      out := CopyWithin((offset - distance) % HISTORY_SIZE, length);
    }

    method CopyWithin(from: nat, length: nat) returns (out: seq<byte>)
      requires Valid() && from < HISTORY_SIZE && offset + length <= HISTORY_SIZE
      modifies this, history
      ensures Valid() && offset == old(offset) + length
      ensures history[..] == CopyLinear(old(history[..]), from, old(offset), length)
      ensures history[..old(offset)] == old(history[..offset]) && out == history[old(offset)..offset]
    {
      hide CopyLinear;
      out := [];
      var src := from;
      NothingCopied(from + length, old(offset) + length);
      for i := 0 to length
        invariant Valid() && src == from + i && offset == old(offset) + i
        invariant CopyLinear(history[..], src, offset, length - i)
                  == CopyLinear(old(history[..]), from, old(offset), length)
        invariant history[..old(offset)] == old(history[..offset]) && out == history[old(offset)..offset]
      {
        var b := history[src];
        ghost var h := history[..];
        history[offset] := b;
        assert history[..] == h[offset := b];
        CopyStep(h, src, offset, length - i);
        out := out + [b];
        offset := offset + 1;
        src := src + 1;
      }
    }
  }
}
