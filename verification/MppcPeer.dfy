/**
 A compressor on the other end of the link, and the lockstep theorem: whatever factorisation of
 its plaintexts it sends, `Mppc` returns the plaintexts and ends every packet in the peer's state.
 */
module MppcPeer {
  import opened Bits
  import opened Mppc

  // ---- The code words ------------------------------------------------------

  predicate Encodable(t: Token) {
    t.Copy? ==> 1 <= t.distance <= 65535 && 3 <= t.length <= 65535
  }

  predicate AllEncodable(ts: seq<Token>) {
    forall i :: 0 <= i < |ts| ==> Encodable(ts[i])
  }

  function DistanceCode(d: nat): seq<bit> {
    if d < 64 then [1, 1, 1] + BitsOf(d, 6)
    else if d < 320 then [1, 1, 0] + BitsOf(d - 64, 8)
    else if d < 2368 then [1, 0] + BitsOf(d - 320, 11)
    else [0] + BitsOf(d - 2368, 16)
  }

  function Ones(n: nat): (s: seq<bit>)
    ensures |s| == n
  {
    seq(n, _ => 1 as bit)
  }

  function Log2(l: nat): (k: nat)
    requires l > 0
    ensures Pow2(k) <= l < Pow2(k + 1)
  {
    if l == 1 then 0 else Log2(l / 2) + 1
  }

  function LengthCode(l: nat): seq<bit>
    requires l >= 3
  {
    if l == 3 then [0]
    else
      var k := Log2(l);
      if k == 0 then assert false; [] else Ones(k - 1) + [0] + BitsOf(l - Pow2(k), k)
  }

  function TokenCode(t: Token): seq<bit>
    requires Encodable(t)
  {
    match t
    case Literal(b) => if b < 128 then [0] + BitsOf(b, 7) else [1, 0] + BitsOf(b - 128, 7)
    case Copy(d, l) => [1, 1] + DistanceCode(d) + LengthCode(l)
  }

  function StreamCode(ts: seq<Token>): seq<bit>
    requires AllEncodable(ts)
  {
    if ts == [] then [] else TokenCode(ts[0]) + StreamCode(ts[1..])
  }

  // ---- Unique decodability --------------------------------------------------

  lemma BitCarried(data: seq<byte>, pos: nat, s: seq<bit>, i: nat)
    requires Carries(data, pos, s) && i < |s|
    ensures BitAt(data, pos + i) == s[i]
  {
  }

  lemma DistanceDecodes(data: seq<byte>, pos: nat, d: nat)
    requires d <= 65535 && Carries(data, pos, DistanceCode(d))
    ensures DistanceAt(data, pos) == Read(d, |DistanceCode(d)|)
  {
    hide Carries, Val, BitAt, BitsOf;
    Pow2Small();
    var s := DistanceCode(d);
    BitCarried(data, pos, s, 0);
    if d >= 2368 {
      CarriesSplit(data, pos, [0], BitsOf(d - 2368, 16));
      ValOfCode(data, pos + 1, d - 2368, 16);
    } else {
      BitCarried(data, pos, s, 1);
      if d >= 320 {
        CarriesSplit(data, pos, [1, 0], BitsOf(d - 320, 11));
        ValOfCode(data, pos + 2, d - 320, 11);
      } else {
        BitCarried(data, pos, s, 2);
        if d >= 64 {
          CarriesSplit(data, pos, [1, 1, 0], BitsOf(d - 64, 8));
          ValOfCode(data, pos + 3, d - 64, 8);
        } else {
          CarriesSplit(data, pos, [1, 1, 1], BitsOf(d, 6));
          ValOfCode(data, pos + 3, d, 6);
        }
      }
    }
  }

  lemma {:induction false} OnesCounted(data: seq<byte>, pos: nat, m: nat, n: nat)
    requires m <= n < 30
    requires forall q {:trigger BitAt(data, q)} :: pos + m <= q < pos + n ==> BitAt(data, q) == 1
    requires BitAt(data, pos + n) == 0
    ensures LeadingOnes(data, pos, m) == n
    decreases n - m
  {
    if m < n {
      OnesCounted(data, pos, m + 1, n);
    }
  }

  lemma Log2Bound(l: nat, k: nat)
    requires 0 < l < Pow2(k)
    ensures Log2(l) < k
  {
    if k <= Log2(l) {
      Pow2Monotone(k, Log2(l));
    }
  }

  lemma LengthDecodes(data: seq<byte>, pos: nat, l: nat)
    requires 3 <= l <= 65535 && Carries(data, pos, LengthCode(l))
    ensures LengthAt(data, pos) == Read(l, |LengthCode(l)|) && |LengthCode(l)| <= 30
  {
    hide Carries, Val, BitAt, Log2, BitsOf, Pow2, LeadingOnes;
    if l == 3 {
      BitCarried(data, pos, LengthCode(l), 0);
      OnesCounted(data, pos, 0, 0);
    } else {
      var k := Log2(l);
      LogOfLength(l);
      LongLengthDecodes(data, pos, l, k);
    }
  }

  lemma LogOfLength(l: nat)
    requires 4 <= l <= 65535
    ensures 2 <= Log2(l) < 16 && Pow2(Log2(l)) <= l < Pow2(Log2(l) + 1)
  {
    Pow2Small();
    Log2Bound(l, 16);
    if Log2(l) < 2 {
      Pow2Monotone(Log2(l) + 1, 2);
    }
  }

  lemma LongLengthDecodes(data: seq<byte>, pos: nat, l: nat, k: nat)
    requires 2 <= k < 16 && Pow2(k) <= l < Pow2(k + 1) && Carries(data, pos, Ones(k - 1) + [0] + BitsOf(l - Pow2(k), k))
    ensures LengthAt(data, pos) == Read(l, 2 * k)
  {
    hide Carries, Val, BitAt, BitsOf, Pow2, LeadingOnes, Ones;
    var tail := BitsOf(l - Pow2(k), k);
    CarriesSplit(data, pos, Ones(k - 1) + [0], tail);
    CarriesSplit(data, pos, Ones(k - 1), [0]);
    OnesCarried(data, pos, k - 1);
    BitCarried(data, pos + (k - 1), [0], 0);
    OnesCounted(data, pos, 0, k - 1);
    DoublePow2(k);
    ValOfCode(data, pos + k, l - Pow2(k), k);
  }

  lemma OnesCarried(data: seq<byte>, pos: nat, n: nat)
    requires Carries(data, pos, Ones(n))
    ensures forall q {:trigger BitAt(data, q)} :: pos <= q < pos + n ==> BitAt(data, q) == 1
  {
    hide BitAt, Carries;
    forall q | pos <= q < pos + n
      ensures BitAt(data, q) == 1
    {
      BitCarried(data, pos, Ones(n), q - pos);
    }
  }

  lemma DoublePow2(k: nat)
    ensures Pow2(k + 1) == 2 * Pow2(k)
  {
  }

  lemma LiteralDecodes(data: seq<byte>, pos: nat, b: byte)
    requires Carries(data, pos, TokenCode(Literal(b)))
    ensures TokenAt(data, pos) == Read(Literal(b), |TokenCode(Literal(b))|)
  {
    hide DistanceAt, LengthAt, Val, BitAt, Carries, BitsOf;
    Pow2Small();
    var s := TokenCode(Literal(b));
    BitCarried(data, pos, s, 0);
    if b < 128 {
      CarriesSplit(data, pos, [0], BitsOf(b, 7));
      ValOfCode(data, pos + 1, b, 7);
    } else {
      BitCarried(data, pos, s, 1);
      CarriesSplit(data, pos, [1, 0], BitsOf(b - 128, 7));
      ValOfCode(data, pos + 2, b - 128, 7);
    }
  }

  lemma CopyDecodes(data: seq<byte>, pos: nat, d: nat, l: nat)
    requires Encodable(Copy(d, l)) && Carries(data, pos, TokenCode(Copy(d, l)))
    ensures TokenAt(data, pos) == Read(Copy(d, l), 2 + |DistanceCode(d)| + |LengthCode(l)|)
    ensures |LengthCode(l)| <= 30
  {
    hide DistanceAt, LengthAt, Val, DistanceCode, LengthCode, Carries, BitAt, Pow2, BitsOf;
    CarriesSplit(data, pos, [1, 1] + DistanceCode(d), LengthCode(l));
    CarriesSplit(data, pos, [1, 1], DistanceCode(d));
    BitCarried(data, pos, [1, 1], 0);
    BitCarried(data, pos, [1, 1], 1);
    DistanceDecodes(data, pos + 2, d);
    LengthDecodes(data, pos + 2 + |DistanceCode(d)|, l);
  }

  /** The prefix code is uniquely decodable: the decoder reads back exactly the token sent. */
  lemma TokenDecodes(data: seq<byte>, pos: nat, t: Token)
    requires Encodable(t) && Carries(data, pos, TokenCode(t))
    ensures TokenAt(data, pos) == Read(t, |TokenCode(t)|) && 8 <= |TokenCode(t)| <= 80
  {
    hide TokenAt;
    match t
    case Literal(b) => LiteralDecodes(data, pos, b);
    case Copy(d, l) => CopyDecodes(data, pos, d, l);
  }

  // ---- The peer -------------------------------------------------------------

  datatype Peer = Peer(window: seq<byte>, at: nat) {
    ghost predicate Valid() {
      |window| == 65536 && at <= 65536
    }
  }

  /** Byte `i` of the peer's window once `written` bytes of `plain` have gone in; zero past the 64K end. */
  function WindowByte(p: Peer, plain: seq<byte>, written: nat, i: nat): byte
    requires p.Valid() && written <= |plain|
  {
    if p.at <= i < p.at + written then plain[i - p.at]
    else if i < 65536 then p.window[i]
    else 0
  }

  /** The `l` plaintext bytes at `k` repeat the window from `src` on, as it is when each byte goes in. */
  ghost predicate Matches(p: Peer, plain: seq<byte>, k: nat, src: nat, l: nat)
    requires p.Valid() && k + l <= |plain|
  {
    forall i {:trigger plain[i]} :: k <= i < k + l ==> plain[i] == WindowByte(p, plain, i, src + (i - k))
  }

  /** `ts` is a factorisation of `plain[k..]` into literals and back references into the peer's window. */
  ghost predicate Factors(p: Peer, plain: seq<byte>, k: nat, ts: seq<Token>)
    requires p.Valid() && k <= |plain|
    decreases ts
  {
    if ts == [] then k == |plain|
    else match ts[0]
      case Literal(b) => k < |plain| && plain[k] == b && Factors(p, plain, k + 1, ts[1..])
      case Copy(d, l) =>
        && Encodable(ts[0])
        && k + l <= |plain|
        && Matches(p, plain, k, (p.at + k - d) % 65536, l)
        && Factors(p, plain, k + l, ts[1..])
  }

  /** Plaintext bytes a token stands for. */
  function Span(t: Token): nat {
    if t.Copy? then t.length else 1
  }

  lemma FactorsStep(p: Peer, plain: seq<byte>, k: nat, ts: seq<Token>)
    requires p.Valid() && k <= |plain| && ts != [] && Factors(p, plain, k, ts)
    ensures Encodable(ts[0]) && k < k + Span(ts[0]) <= |plain|
    ensures Factors(p, plain, k + Span(ts[0]), ts[1..])
    ensures ts[0].Literal? ==> plain[k] == ts[0].b
    ensures ts[0].Copy? ==> Matches(p, plain, k, (p.at + k - ts[0].distance) % 65536, ts[0].length)
  {
  }

  datatype Packet =
    | Packed(plain: seq<byte>, tokens: seq<Token>, atFront: bool, flushed: bool)
    | Verbatim(plain: seq<byte>, atFront: bool, flushed: bool)

  function PeerReset(p: Peer, atFront: bool, flushed: bool): Peer {
    Peer(if flushed then seq(65536, _ => 0 as byte) else p.window, if atFront || flushed then 0 else p.at)
  }

  /** The peer may send `m`: its tokens factor the plaintext, which fits the window. */
  ghost predicate Sendable(p: Peer, m: Packet)
    requires p.Valid()
  {
    m.Packed? ==>
      var q := PeerReset(p, m.atFront, m.flushed);
      q.at + |m.plain| <= 65536 && Factors(q, m.plain, 0, m.tokens)
  }

  /** An uncompressed packet leaves the window alone, apart from its reset flags. */
  function PeerAfter(p: Peer, m: Packet): (r: Peer)
    requires p.Valid() && Sendable(p, m)
    ensures r.Valid()
  {
    var q := PeerReset(p, m.atFront, m.flushed);
    if m.Verbatim? then q
    else Peer(q.window[..q.at] + m.plain + q.window[q.at + |m.plain|..], q.at + |m.plain|)
  }

  lemma {:induction false} FactorsEncodable(p: Peer, plain: seq<byte>, k: nat, ts: seq<Token>)
    requires p.Valid() && k <= |plain| && Factors(p, plain, k, ts)
    ensures AllEncodable(ts)
    decreases ts
  {
    hide Matches;
    if ts != [] {
      FactorsStep(p, plain, k, ts);
      FactorsEncodable(p, plain, k + Span(ts[0]), ts[1..]);
    }
  }

  /** The bytes on the wire. */
  ghost function Wire(p: Peer, m: Packet): seq<byte>
    requires p.Valid() && Sendable(p, m)
  {
    if m.Verbatim? then m.plain
    else
      FactorsEncodable(PeerReset(p, m.atFront, m.flushed), m.plain, 0, m.tokens);
      Pack(StreamCode(m.tokens))
  }

  // ---- Lockstep --------------------------------------------------------------

  /** Decoder history with `k` bytes of `plain` written into the peer's window. */
  ghost function Laid(p: Peer, plain: seq<byte>, k: nat): (h: seq<byte>)
    requires p.Valid() && k <= |plain|
    ensures |h| == 131072
  {
    seq(131072, i requires 0 <= i => WindowByte(p, plain, k, i))
  }

  lemma LaidNext(p: Peer, plain: seq<byte>, k: nat)
    requires p.Valid() && k < |plain| && p.at + |plain| <= 65536
    ensures Laid(p, plain, k)[p.at + k := plain[k]] == Laid(p, plain, k + 1)
  {
  }

  lemma {:induction false} CopyLays(p: Peer, plain: seq<byte>, k: nat, src: nat, l: nat)
    requires p.Valid() && k + l <= |plain| && p.at + |plain| <= 65536 && src + l <= 131072
    requires Matches(p, plain, k, src, l)
    ensures CopyLinear(Laid(p, plain, k), src, p.at + k, l) == Laid(p, plain, k + l)
    decreases l
  {
    if l > 0 {
      var h := Laid(p, plain, k);
      assert h[src] == plain[k];
      LaidNext(p, plain, k);
      CopyLays(p, plain, k + 1, src + 1, l - 1);
      assert CopyLinear(h, src, p.at + k, l) == CopyLinear(h[p.at + k := h[src]], src + 1, p.at + k + 1, l - 1);
    }
  }

  lemma {:induction false} StreamBound(p: Peer, plain: seq<byte>, k: nat, ts: seq<Token>)
    requires p.Valid() && k <= |plain| && Factors(p, plain, k, ts)
    requires AllEncodable(ts)
    ensures |StreamCode(ts)| <= 80 * (|plain| - k)
    decreases ts
  {
    hide TokenAt, TokenCode, Factors, Carries;
    if ts != [] {
      FactorsStep(p, plain, k, ts);
      PackCarries(TokenCode(ts[0]));
      TokenDecodes(Pack(TokenCode(ts[0])), 0, ts[0]);
      StreamBound(p, plain, k + Span(ts[0]), ts[1..]);
    }
  }

  lemma FactorsNil(p: Peer, plain: seq<byte>, k: nat)
    requires p.Valid() && k <= |plain|
    ensures Factors(p, plain, k, []) <==> k == |plain|
  {
  }

  lemma ApplyLays(s: State, p: Peer, plain: seq<byte>, k: nat, t: Token)
    requires p.Valid() && k + Span(t) <= |plain| && p.at + |plain| <= 65536 && Encodable(t)
    requires s == State(Laid(p, plain, k), p.at + k) && s.Valid()
    requires t.Literal? ==> plain[k] == t.b
    requires t.Copy? ==> Matches(p, plain, k, (p.at + k - t.distance) % 65536, t.length)
    ensures t.Copy? ==> CopyFits(s, t)
    ensures Apply(s, t) == State(Laid(p, plain, k + Span(t)), p.at + k + Span(t))
  {
    hide Laid, Matches;
    if t.Copy? {
      CopyLays(p, plain, k, SourceIndex(s, t.distance), t.length);
    } else {
      LaidNext(p, plain, k);
    }
  }

  lemma {:induction false} RunTokens(data: seq<byte>, pos: nat, s: State, p: Peer, plain: seq<byte>, k: nat,
                                     ts: seq<Token>)
    requires p.Valid() && k <= |plain| && p.at + |plain| <= 65536
    requires Factors(p, plain, k, ts) && AllEncodable(ts)
    requires s == State(Laid(p, plain, k), p.at + k) && s.Valid()
    requires Carries(data, pos, StreamCode(ts))
    requires pos + |StreamCode(ts)| <= 8 * |data| < pos + |StreamCode(ts)| + 8
    ensures Run(data, pos, s) == State(Laid(p, plain, |plain|), p.at + |plain|)
    decreases ts
  {
    hide TokenAt, TokenCode, Factors, Carries, Matches, Laid;
    StreamBound(p, plain, k, ts);
    if ts == [] {
      assert Factors(p, plain, k, ts) <==> k == |plain| by { FactorsNil(p, plain, k); }
      assert Stops(data, pos, s);
    } else {
      FactorsStep(p, plain, k, ts);
      var t, rest := ts[0], ts[1..];
      CarriesSplit(data, pos, TokenCode(t), StreamCode(rest));
      TokenDecodes(data, pos, t);
      assert BitsLeft(data, pos) == 8 * |data| - pos >= 8;
      ApplyLays(s, p, plain, k, t);
      RunStep(data, pos, s);
      RunTokens(data, pos + |TokenCode(t)|, Apply(s, t), p, plain, k + Span(t), rest);
    }
  }

  /** The decoder holds exactly the peer's window, write position and a zeroed tail. */
  ghost predicate InStep(s: State, p: Peer) {
    && s.Valid() && p.Valid()
    && s.offset == p.at
    && s.history[..65536] == p.window
  }

  ghost function Feed(s: State, p: Peer, m: Packet): State
    requires s.Valid() && p.Valid() && Sendable(p, m)
  {
    After(s, Wire(p, m), m.Packed?, m.atFront, m.flushed)
  }

  lemma ResetInStep(s: State, p: Peer, atFront: bool, flushed: bool)
    requires InStep(s, p)
    ensures InStep(Reset(s, atFront, flushed), PeerReset(p, atFront, flushed))
  {
    var z := seq(65536, _ => 0 as byte);
    assert (z + s.history[65536..])[..65536] == z;
  }

  lemma InStepLaid(s: State, p: Peer, plain: seq<byte>)
    requires InStep(s, p)
    ensures s == State(Laid(p, plain, 0), p.at)
  {
    var h := Laid(p, plain, 0);
    forall i | 0 <= i < 131072
      ensures h[i] == s.history[i]
    {
      if i < 65536 {
        assert s.history[..65536][i] == p.window[i];
      }
    }
    assert h == s.history;
  }

  lemma LaidWindow(q: Peer, plain: seq<byte>)
    requires q.Valid() && q.at + |plain| <= 65536
    ensures var h := Laid(q, plain, |plain|);
            && h[q.at..q.at + |plain|] == plain
            && h[..65536] == q.window[..q.at] + plain + q.window[q.at + |plain|..]
  {
  }

  lemma PackedLockstep(s: State, q: Peer, plain: seq<byte>, ts: seq<Token>)
    requires InStep(s, q) && q.at + |plain| <= 65536 && Factors(q, plain, 0, ts) && AllEncodable(ts)
    ensures Run(Pack(StreamCode(ts)), 0, s) == State(Laid(q, plain, |plain|), q.at + |plain|)
  {
    hide Run, Pack, Factors, StreamCode, Laid;
    PackCarries(StreamCode(ts));
    InStepLaid(s, q, plain);
    RunTokens(Pack(StreamCode(ts)), 0, s, q, plain, 0, ts);
  }

  /** One packet: the plaintext comes back and both ends agree on the window again. */
  lemma PacketLockstep(s: State, p: Peer, m: Packet)
    requires InStep(s, p) && Sendable(p, m)
    ensures Plain(s, Wire(p, m), m.Packed?, m.atFront, m.flushed) == m.plain
    ensures InStep(Feed(s, p, m), PeerAfter(p, m))
  {
    hide Run, Reset, PeerReset, Factors, Pack, StreamCode, Laid;
    ResetInStep(s, p, m.atFront, m.flushed);
    if m.Packed? {
      var q, s' := PeerReset(p, m.atFront, m.flushed), Reset(s, m.atFront, m.flushed);
      FactorsEncodable(q, m.plain, 0, m.tokens);
      PackedLockstep(s', q, m.plain, m.tokens);
      LaidWindow(q, m.plain);
    }
  }

  // ---- Whole runs --------------------------------------------------------------

  ghost predicate Session(p: Peer, ms: seq<Packet>)
    requires p.Valid()
    decreases ms
  {
    ms == [] || (Sendable(p, ms[0]) && Session(PeerAfter(p, ms[0]), ms[1..]))
  }

  /** Plaintexts that the decoder returns for the packets of a session, in order. */
  ghost function Received(s: State, p: Peer, ms: seq<Packet>): seq<seq<byte>>
    requires s.Valid() && p.Valid() && Session(p, ms)
    decreases ms
  {
    if ms == [] then []
    else
      var m := ms[0];
      [Plain(s, Wire(p, m), m.Packed?, m.atFront, m.flushed)] + Received(Feed(s, p, m), PeerAfter(p, m), ms[1..])
  }

  /** Decoder and peer agree before every packet of the session and after the last one. */
  ghost predicate AlwaysInStep(s: State, p: Peer, ms: seq<Packet>)
    requires s.Valid() && p.Valid() && Session(p, ms)
    decreases ms
  {
    InStep(s, p) && (ms != [] ==> AlwaysInStep(Feed(s, p, ms[0]), PeerAfter(p, ms[0]), ms[1..]))
  }

  /** Every session, of any length, from any agreeing pair of states. */
  lemma {:induction false} SessionLockstep(s: State, p: Peer, ms: seq<Packet>)
    requires InStep(s, p) && Session(p, ms)
    ensures AlwaysInStep(s, p, ms)
    ensures Received(s, p, ms) == seq(|ms|, i requires 0 <= i < |ms| => ms[i].plain)
    decreases ms
  {
    hide Feed, Plain, PeerAfter;
    if ms != [] {
      PacketLockstep(s, p, ms[0]);
      SessionLockstep(Feed(s, p, ms[0]), PeerAfter(p, ms[0]), ms[1..]);
    }
  }

  lemma FreshInStep()
    ensures InStep(State(seq(131072, _ => 0 as byte), 0), Peer(seq(65536, _ => 0 as byte), 0))
  {
  }
}
