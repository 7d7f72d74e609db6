/**
 What the reference decompressor accepts: every packet that a peer can send. Its plaintext comes back, and the
 reference, the peer and `Mppc` agree on the window afterwards, over sessions of any length.
 */
module MppcAcceptance {
  import opened Options
  import opened Bits
  import opened BitOps
  import opened Mppc
  import opened MppcPeer
  import opened MppcRefinement

  lemma RefTokenDecodes(data: seq<byte>, pos: nat, t: Token)
    requires Encodable(t) && Carries(data, pos, TokenCode(t))
    ensures RefTokenAt(data, pos) == Some(Read(t, |TokenCode(t)|)) && 8 <= |TokenCode(t)| <= 80
  {
    hide RefTokenAt, TokenAt, Carries, TokenCode, LeadingOnes, LengthPos;
    TokenDecodes(data, pos, t);
    SameTokens(data, pos);
  }

  lemma SameApply(s: State, t: Token)
    requires s.Valid() && s.offset < HISTORY_SIZE && (t.Copy? ==> CopyFits(s, t))
    ensures !TooLong(s, t) && RefApply(s, t) == Apply(s, t)
  {
  }

  lemma RefBitsInData(data: seq<byte>, pos: nat)
    requires pos <= 8 * |data| < W
    ensures RefBitsLeft(data, pos) == 8 * |data| - pos
  {
  }

  lemma {:induction false} RefRunTokens(data: seq<byte>, pos: nat, s: State, p: Peer, plain: seq<byte>, k: nat,
                                        ts: seq<Token>)
    requires p.Valid() && k <= |plain| && p.at + |plain| <= HISTORY_SIZE
    requires Factors(p, plain, k, ts) && AllEncodable(ts)
    requires s == State(Laid(p, plain, k), p.at + k) && s.Valid()
    requires Carries(data, pos, StreamCode(ts))
    requires pos + |StreamCode(ts)| <= 8 * |data| < pos + |StreamCode(ts)| + 8 && 8 * |data| < W
    ensures RefRun(data, pos, s) == Accepted(State(Laid(p, plain, |plain|), p.at + |plain|))
    decreases ts
  {
    hide RefTokenAt, TokenCode, Factors, Carries, Matches, Laid, RefBitsLeft, RefRun, Apply, RefApply;
    RefBitsInData(data, pos);
    if ts == [] {
      assert k == |plain| by { FactorsNil(p, plain, k); }
      RefRunEnd(data, pos, s);
    } else {
      FactorsStep(p, plain, k, ts);
      var t, rest := ts[0], ts[1..];
      CarriesSplit(data, pos, TokenCode(t), StreamCode(rest));
      RefTokenDecodes(data, pos, t);
      ApplyLays(s, p, plain, k, t);
      SameApply(s, t);
      RefRunStep(data, pos, s);
      RefRunTokens(data, pos + |TokenCode(t)|, Apply(s, t), p, plain, k + Span(t), rest);
    }
  }

  lemma PackedAccepted(s: State, q: Peer, plain: seq<byte>, ts: seq<Token>)
    requires InStep(s, q) && q.at + |plain| <= HISTORY_SIZE && Factors(q, plain, 0, ts) && AllEncodable(ts)
    ensures RefRun(Pack(StreamCode(ts)), 0, s) == Accepted(State(Laid(q, plain, |plain|), q.at + |plain|))
  {
    hide RefRun, Pack, Factors, StreamCode, Laid;
    StreamBound(q, plain, 0, ts);
    PackCarries(StreamCode(ts));
    InStepLaid(s, q, plain);
    RefRunTokens(Pack(StreamCode(ts)), 0, s, q, plain, 0, ts);
  }

  lemma SameReset(s: State, atFront: bool, flushed: bool)
    requires s.Valid()
    ensures RefReset(s, atFront, flushed) == Reset(s, atFront, flushed)
  {
  }

  // ---- Arbitrary packets -------------------------------------------------------------

  /** What makes the reference refuse a run from write position `offset` on, told from the code words alone: while
      eight bits are left by its 32-bit count, a full window, a copy of 65536 bytes or more, or one that crosses the
      window's end. */
  predicate Refused(data: seq<byte>, pos: nat, offset: nat)
    decreases HISTORY_SIZE - offset
  {
    && (8 * |data| - pos) % 0x1_0000_0000 >= 8
    && (offset >= 65536 ||
        var t := TokenAt(data, pos);
        || (t.value.Copy? && (t.value.length >= 65536 || offset + t.value.length > 65536))
        || Refused(data, pos + t.width, offset + Span(t.value)))
  }

  /** The reference accepts a packet if and only if its code words contain nothing it refuses. */
  lemma {:induction false} AcceptedIff(data: seq<byte>, pos: nat, s: State)
    requires s.Valid()
    ensures RefRun(data, pos, s).Accepted? <==> !Refused(data, pos, s.offset)
    decreases HISTORY_SIZE - s.offset
  {
    hide TokenAt, RefTokenAt, RefRun, CopyLinear, LeadingOnes, LengthPos;
    RefRunEnd(data, pos, s);
    if RefBitsLeft(data, pos) >= 8 && s.offset < HISTORY_SIZE {
      SameTokens(data, pos);
      RefRunStep(data, pos, s);
      var t := TokenAt(data, pos);
      if !(t.value.Copy? && (t.value.length >= 65536 || s.offset + t.value.length > 65536)) {
        AcceptedIff(data, pos + t.width, RefApply(s, t.value));
      }
    }
  }

  // ---- What a peer sends ---------------------------------------------------------------

  /** Every packet a peer can send is accepted, gives its plaintext back and leaves the reference in step with the
      peer, in the very state of `Mppc`. */
  lemma PacketAccepted(s: State, p: Peer, m: Packet)
    requires InStep(s, p) && Sendable(p, m)
    ensures InStep(Feed(s, p, m), PeerAfter(p, m))
    ensures RefPacket(s, Wire(p, m), m.Packed?, m.atFront, m.flushed) == RefOk(m.plain, Feed(s, p, m))
  {
    hide Run, RefRun, Reset, RefReset, PeerReset, Factors, Pack, StreamCode, Laid;
    PacketLockstep(s, p, m);
    ResetInStep(s, p, m.atFront, m.flushed);
    SameReset(s, m.atFront, m.flushed);
    if m.Packed? {
      var q, s' := PeerReset(p, m.atFront, m.flushed), Reset(s, m.atFront, m.flushed);
      FactorsEncodable(q, m.plain, 0, m.tokens);
      PackedLockstep(s', q, m.plain, m.tokens);
      PackedAccepted(s', q, m.plain, m.tokens);
    }
  }

  /** The reference accepts all packets of the session, returns their plaintexts and is in step after each. */
  ghost predicate AllAccepted(s: State, p: Peer, ms: seq<Packet>)
    requires s.Valid() && p.Valid() && Session(p, ms)
    decreases ms
  {
    && InStep(s, p)
    && (ms != [] ==>
          var m := ms[0];
          var r := RefPacket(s, Wire(p, m), m.Packed?, m.atFront, m.flushed);
          && r.RefOk? && r.out == m.plain && r.state.Valid()
          && AllAccepted(r.state, PeerAfter(p, m), ms[1..]))
  }

  lemma {:induction false} SessionAccepted(s: State, p: Peer, ms: seq<Packet>)
    requires InStep(s, p) && Session(p, ms)
    ensures AllAccepted(s, p, ms)
    decreases ms
  {
    hide Feed, RefPacket, PeerAfter;
    if ms != [] {
      PacketAccepted(s, p, ms[0]);
      SessionAccepted(Feed(s, p, ms[0]), PeerAfter(p, ms[0]), ms[1..]);
    }
  }
}
