/**
 Exactly when the messages of a run arrive. Some updates are not read: an empty one behind a compression header is
 dropped, and of a PDU without compression header only the first is looked at. Only an empty fragment in the middle of a
 message can go that way without harm.
 */
module Delivery {
  import opened Options
  import opened Bits
  import opened FastPath
  import Mppc
  import opened MppcPeer
  import opened Pipeline

  // ---- What becomes of an update ------------------------------------------------------------------

  datatype Fate = Fate(u: Plain, read: bool)

  function PacketFates(us: seq<Update>): seq<Fate> {
    if us == [] then [] else [Fate(Seen(us[0]), !Dropped(us[0]))] + PacketFates(us[1..])
  }

  function LateFates(us: seq<Update>): seq<Fate> {
    if us == [] then [] else [Fate(Seen(us[0]), false)] + LateFates(us[1..])
  }

  function PduFates(us: seq<Update>): seq<Fate> {
    if AnyPacket(us) then PacketFates(us)
    else if us == [] then [] else [Fate(Seen(us[0]), true)] + LateFates(us[1..])
  }

  function Fates(ps: seq<Pdu>): seq<Fate> {
    if ps == [] then [] else PduFates(ps[0].updates) + Fates(ps[1..])
  }

  function Reads(fs: seq<Fate>): seq<Plain> {
    if fs == [] then [] else (if fs[0].read then [fs[0].u] else []) + Reads(fs[1..])
  }

  function Plains(fs: seq<Fate>): (us: seq<Plain>)
    ensures |us| == |fs| && forall i :: 0 <= i < |fs| ==> us[i] == fs[i].u
  {
    seq(|fs|, i requires 0 <= i < |fs| => fs[i].u)
  }

  predicate AllOrders(fs: seq<Fate>) {
    forall i :: 0 <= i < |fs| ==> fs[i].u.code == 0
  }

  function OrderFates(fs: seq<Fate>): (gs: seq<Fate>)
    ensures AllOrders(gs)
  {
    if fs == [] then [] else (if fs[0].u.code == 0 then [fs[0]] else []) + OrderFates(fs[1..])
  }

  function Orders(us: seq<Update>): seq<Plain> {
    if us == [] then [] else (if us[0].code == 0 then [Seen(us[0])] else []) + Orders(us[1..])
  }

  /** Of the order updates at most middle fragments are not read. */
  predicate OnlyNextUnread(fs: seq<Fate>) {
    forall i :: 0 <= i < |fs| && fs[i].u.code == 0 && !fs[i].read ==> fs[i].u.frag == Next
  }

  /** ... and only empty ones. */
  predicate OnlyEmptyNextUnread(fs: seq<Fate>) {
    forall i :: 0 <= i < |fs| && fs[i].u.code == 0 && !fs[i].read ==> fs[i].u.frag == Next && fs[i].u.data == []
  }

  lemma ReadsCons(f: Fate, fs: seq<Fate>)
    ensures Reads([f] + fs) == if f.read then [f.u] + Reads(fs) else Reads(fs)
  {
    assert ([f] + fs)[1..] == fs;
  }

  lemma {:induction false} ReadsSplit(fs: seq<Fate>, gs: seq<Fate>)
    ensures Reads(fs + gs) == Reads(fs) + Reads(gs)
    decreases |fs|
  {
    hide Reads;
    if fs == [] {
      assert fs + gs == gs && [] + Reads(gs) == Reads(gs);
      NoReads();
    } else {
      ReadsSplit(fs[1..], gs);
      assert fs == [fs[0]] + fs[1..] && fs + gs == [fs[0]] + (fs[1..] + gs);
      ReadsCons(fs[0], fs[1..]);
      ReadsCons(fs[0], fs[1..] + gs);
      assert [fs[0].u] + (Reads(fs[1..]) + Reads(gs)) == ([fs[0].u] + Reads(fs[1..])) + Reads(gs);
    }
  }

  lemma {:induction false} PacketReads(us: seq<Update>)
    ensures Reads(PacketFates(us)) == Kept(us)
    decreases |us|
  {
    hide Seen, Dropped;
    if us != [] {
      PacketReads(us[1..]);
      ReadsCons(Fate(Seen(us[0]), !Dropped(us[0])), PacketFates(us[1..]));
      assert [] + Kept(us[1..]) == Kept(us[1..]);
    }
  }

  lemma {:induction false} LateReads(us: seq<Update>)
    ensures Reads(LateFates(us)) == []
    decreases |us|
  {
    hide Seen;
    if us != [] {
      LateReads(us[1..]);
      ReadsCons(Fate(Seen(us[0]), false), LateFates(us[1..]));
    }
  }

  lemma PduReads(us: seq<Update>)
    ensures Reads(PduFates(us)) == ReadOf(us)
  {
    hide Seen, AnyPacket, Kept, PacketFates, LateFates;
    if AnyPacket(us) {
      PacketReads(us);
    } else if us != [] {
      LateReads(us[1..]);
      ReadsCons(Fate(Seen(us[0]), true), LateFates(us[1..]));
    }
  }

  lemma {:induction false} FatesRead(ps: seq<Pdu>)
    ensures Reads(Fates(ps)) == ReadAll(ps)
    decreases |ps|
  {
    hide PduFates, ReadOf;
    if ps != [] {
      PduReads(ps[0].updates);
      FatesRead(ps[1..]);
      ReadsSplit(PduFates(ps[0].updates), Fates(ps[1..]));
    }
  }

  // ---- Order updates alone -----------------------------------------------------------------------------

  lemma {:induction false} OrderFatesSplit(fs: seq<Fate>, gs: seq<Fate>)
    ensures OrderFates(fs + gs) == OrderFates(fs) + OrderFates(gs)
    decreases |fs|
  {
    if fs == [] {
      assert fs + gs == gs;
    } else {
      assert (fs + gs)[1..] == fs[1..] + gs;
      OrderFatesSplit(fs[1..], gs);
    }
  }

  lemma OrderFatesCons(f: Fate, fs: seq<Fate>)
    ensures OrderFates([f] + fs) == if f.u.code == 0 then [f] + OrderFates(fs) else OrderFates(fs)
  {
    assert ([f] + fs)[1..] == fs;
  }

  lemma PlainsSplit(fs: seq<Fate>, gs: seq<Fate>)
    ensures Plains(fs + gs) == Plains(fs) + Plains(gs)
  {
  }

  lemma {:induction false} OrdersSplit(us: seq<Update>, vs: seq<Update>)
    ensures Orders(us + vs) == Orders(us) + Orders(vs)
    decreases |us|
  {
    if us == [] {
      assert us + vs == vs;
    } else {
      assert (us + vs)[1..] == us[1..] + vs;
      OrdersSplit(us[1..], vs);
    }
  }

  /** Fates of these updates, in order. */
  ghost predicate Follow(fs: seq<Fate>, us: seq<Update>) {
    |fs| == |us| && forall i :: 0 <= i < |us| ==> fs[i].u == Seen(us[i])
  }

  lemma {:induction false} FollowOrders(fs: seq<Fate>, us: seq<Update>)
    requires Follow(fs, us)
    ensures Plains(OrderFates(fs)) == Orders(us)
    decreases |us|
  {
    if us != [] {
      FollowOrders(fs[1..], us[1..]);
      assert fs == [fs[0]] + fs[1..];
      OrderFatesCons(fs[0], fs[1..]);
      PlainsSplit([fs[0]], OrderFates(fs[1..]));
    }
  }

  lemma {:induction false} PacketFollow(us: seq<Update>)
    ensures Follow(PacketFates(us), us)
    decreases |us|
  {
    hide Seen, Dropped;
    if us != [] {
      PacketFollow(us[1..]);
    }
  }

  lemma {:induction false} LateFollow(us: seq<Update>)
    ensures Follow(LateFates(us), us)
    decreases |us|
  {
    hide Seen;
    if us != [] {
      LateFollow(us[1..]);
    }
  }

  lemma {:induction false} FatesOrders(ps: seq<Pdu>)
    ensures Plains(OrderFates(Fates(ps))) == Orders(AllUpdates(ps))
    decreases |ps|
  {
    hide Seen, AnyPacket, PacketFates, LateFates, OrderFates, Orders, Plains;
    if ps == [] {
      NoFates();
    } else {
      var us := ps[0].updates;
      PacketFollow(us);
      if us != [] {
        LateFollow(us[1..]);
      }
      FollowOrders(PduFates(us), us);
      FatesOrders(ps[1..]);
      OrderFatesSplit(PduFates(us), Fates(ps[1..]));
      PlainsSplit(OrderFates(PduFates(us)), OrderFates(Fates(ps[1..])));
      OrdersSplit(us, AllUpdates(ps[1..]));
    }
  }

  lemma NoFates()
    ensures Plains(OrderFates([])) == [] && Orders([]) == []
  {
  }

  lemma UnreadCons(f: Fate, fs: seq<Fate>)
    ensures OnlyNextUnread([f] + fs) <==> OnlyNextUnread(fs) && (f.u.code == 0 && !f.read ==> f.u.frag == Next)
    ensures OnlyEmptyNextUnread([f] + fs)
            <==> OnlyEmptyNextUnread(fs) && (f.u.code == 0 && !f.read ==> f.u.frag == Next && f.u.data == [])
  {
    UnreadSplit([f], fs);
    assert [f][0] == f;
  }

  lemma UnreadSplit(fs: seq<Fate>, gs: seq<Fate>)
    ensures OnlyNextUnread(fs + gs) <==> OnlyNextUnread(fs) && OnlyNextUnread(gs)
    ensures OnlyEmptyNextUnread(fs + gs) <==> OnlyEmptyNextUnread(fs) && OnlyEmptyNextUnread(gs)
  {
    var hs := fs + gs;
    assert forall i :: 0 <= i < |fs| ==> fs[i] == hs[i];
    assert forall i :: 0 <= i < |gs| ==> gs[i] == hs[|fs| + i];
  }

  lemma NothingUnread()
    ensures OnlyNextUnread([]) && OnlyEmptyNextUnread([])
  {
  }

  /** Other updates play no part in the reassembly. */
  lemma {:induction false} OthersGoElsewhere(a: Assembly, fs: seq<Fate>)
    ensures ReassembleAll(a, Reads(fs)) == ReassembleAll(a, Reads(OrderFates(fs)))
    ensures OnlyEmptyNextUnread(OrderFates(fs)) == OnlyEmptyNextUnread(fs)
    decreases |fs|
  {
    hide ReassembleAll, Reassemble, Reads, OnlyNextUnread, OnlyEmptyNextUnread, OrderFates;
    if fs == [] {
      NoOrderFates();
    } else {
      var f, rest := fs[0], fs[1..];
      assert fs == [f] + rest;
      var d := if f.u.code == 0 && f.read then Reassemble(a, f.u.frag, f.u.data).0 else a;
      OthersGoElsewhere(d, rest);
      ReadsCons(f, rest);
      ReassembleStep(a, f.u, Reads(rest));
      UnreadCons(f, rest);
      OrderFatesCons(f, rest);
      if f.u.code == 0 {
        ReadsCons(f, OrderFates(rest));
        ReassembleStep(a, f.u, Reads(OrderFates(rest)));
        UnreadCons(f, OrderFates(rest));
      }
    }
  }

  lemma NoOrderFates()
    ensures OrderFates([]) == []
  {
  }

  /** The fates of a prefix. */
  lemma SplitAt(fs: seq<Fate>, a: seq<Plain>, b: seq<Plain>)
    requires AllOrders(fs) && Plains(fs) == a + b
    ensures |a| <= |fs| && AllOrders(fs[..|a|]) && AllOrders(fs[|a|..])
    ensures Plains(fs[..|a|]) == a && Plains(fs[|a|..]) == b
  {
    assert forall i :: 0 <= i < |a| ==> Plains(fs)[i] == a[i];
    assert forall i :: 0 <= i < |b| ==> Plains(fs)[|a| + i] == b[i];
  }

  // ---- How many messages come out ----------------------------------------------------------------------

  /** NEXT* LAST: at most one delivery; none without an active message, which then stays inactive, and none without
      LAST. */
  lemma {:induction false} TailDelivers(a: Assembly, fs: seq<Fate>, parts: seq<seq<byte>>)
    requires parts != [] && AllOrders(fs) && Plains(fs) == Tail(parts)
    ensures fs != []
    ensures var (r, last) := (ReassembleAll(a, Reads(fs)), fs[|fs| - 1]);
            && |r.1| <= 1
            && (!a.active ==> r.1 == [] && !r.0.active)
            && (!last.read ==> r.1 == [])
            && (last.read ==> !r.0.active)
            && (OnlyNextUnread(fs) <==> last.read)
    decreases |parts|
  {
    hide ReassembleAll, Reads, OnlyNextUnread, OnlyEmptyNextUnread;
    assert fs[0].u == Tail(parts)[0];
    var f, rest := fs[0], fs[1..];
    assert fs == [f] + rest;
    ReadsCons(f, rest);
    UnreadCons(f, rest);
    ReassembleStep(a, f.u, Reads(rest));
    if |parts| == 1 {
      assert rest == [];
      NoReads();
      NothingReassembled(a);
      NothingReassembled(IDLE);
      NothingUnread();
    } else {
      SplitAt(fs, [Plain(0, Next, parts[0])], Tail(parts[1..]));
      var d := if f.read then Reassemble(a, Next, f.u.data).0 else a;
      TailDelivers(d, rest, parts[1..]);
    }
  }

  lemma NoReads()
    ensures Reads([]) == []
  {
  }

  /** One message: at most one delivery. From an inactive assembler none if its FIRST, LAST or SINGLE was not read;
      otherwise the assembler is inactive again. */
  lemma SingleDelivers(a: Assembly, fs: seq<Fate>, parts: seq<seq<byte>>)
    requires |parts| == 1 && AllOrders(fs) && Plains(fs) == Cut(parts)
    ensures var r := ReassembleAll(a, Reads(fs));
            && |r.1| <= 1
            && (!a.active && !OnlyNextUnread(fs) ==> r.1 == [])
            && (!a.active && OnlyNextUnread(fs) ==> !r.0.active)
  {
    hide ReassembleAll, Reads, OnlyNextUnread, OnlyEmptyNextUnread;
    assert fs[0].u == Cut(parts)[0];
    var f, rest := fs[0], fs[1..];
    assert fs == [f] + rest;
    ReadsCons(f, rest);
    UnreadCons(f, rest);
    ReassembleStep(a, f.u, Reads(rest));
    assert rest == [];
    NoReads();
    NothingReassembled(a);
    NothingUnread();
  }

  lemma SeveralDeliver(a: Assembly, fs: seq<Fate>, parts: seq<seq<byte>>)
    requires |parts| > 1 && AllOrders(fs) && Plains(fs) == Cut(parts)
    ensures var r := ReassembleAll(a, Reads(fs));
            && |r.1| <= 1
            && (!a.active && !OnlyNextUnread(fs) ==> r.1 == [])
            && (!a.active && OnlyNextUnread(fs) ==> !r.0.active)
  {
    hide ReassembleAll, Reads, OnlyNextUnread, OnlyEmptyNextUnread;
    assert fs[0].u == Cut(parts)[0];
    var f, rest := fs[0], fs[1..];
    assert fs == [f] + rest;
    ReadsCons(f, rest);
    UnreadCons(f, rest);
    ReassembleStep(a, f.u, Reads(rest));
    SplitAt(fs, [Plain(0, First, parts[0])], Tail(parts[1..]));
    TailDelivers(if f.read then Assembly(f.u.data, true) else a, rest, parts[1..]);
  }

  lemma CutDelivers(a: Assembly, fs: seq<Fate>, parts: seq<seq<byte>>)
    requires parts != [] && AllOrders(fs) && Plains(fs) == Cut(parts)
    ensures var r := ReassembleAll(a, Reads(fs));
            && |r.1| <= 1
            && (!a.active && !OnlyNextUnread(fs) ==> r.1 == [])
            && (!a.active && OnlyNextUnread(fs) ==> !r.0.active)
  {
    hide ReassembleAll, Reads, OnlyNextUnread, AllOrders, Plains, Cut;
    if |parts| == 1 {
      SingleDelivers(a, fs, parts);
    } else {
      SeveralDeliver(a, fs, parts);
    }
  }

  /** A run of messages: never more deliveries than messages, and from an inactive assembler fewer if any FIRST, LAST or
      SINGLE was not read. */
  lemma {:induction false} AllDeliver(a: Assembly, fs: seq<Fate>, msgs: seq<seq<seq<byte>>>)
    requires forall i :: 0 <= i < |msgs| ==> msgs[i] != []
    requires AllOrders(fs) && Plains(fs) == CutAll(msgs)
    ensures var r := ReassembleAll(a, Reads(fs));
            |r.1| <= |msgs| && (!a.active && !OnlyNextUnread(fs) ==> |r.1| < |msgs|)
    decreases |msgs|
  {
    hide ReassembleAll, Reads, OnlyNextUnread, OnlyEmptyNextUnread, Cut;
    if msgs == [] {
      assert fs == [];
      NoReads();
      NothingReassembled(a);
      NothingUnread();
    } else {
      SplitAt(fs, Cut(msgs[0]), CutAll(msgs[1..]));
      var k := |Cut(msgs[0])|;
      var x, y := fs[..k], fs[k..];
      assert fs == x + y;
      ReadsSplit(x, y);
      ReassembleSplit(a, Reads(x), Reads(y));
      UnreadSplit(x, y);
      CutDelivers(a, x, msgs[0]);
      AllDeliver(ReassembleAll(a, Reads(x)).0, y, msgs[1..]);
    }
  }

  // ---- What they hold ------------------------------------------------------------------------------------

  /** The bytes read of a message. */
  function ReadText(fs: seq<Fate>): seq<byte> {
    if fs == [] then [] else (if fs[0].read then fs[0].u.data else []) + ReadText(fs[1..])
  }

  /** With LAST read, what is being assembled comes out with everything read; and it is complete exactly when only empty
      fragments were left out. */
  lemma {:induction false} TailHolds(buf: seq<byte>, fs: seq<Fate>, parts: seq<seq<byte>>)
    requires parts != [] && AllOrders(fs) && Plains(fs) == Tail(parts) && OnlyNextUnread(fs)
    ensures ReassembleAll(Assembly(buf, true), Reads(fs)) == (IDLE, [buf + ReadText(fs)])
    ensures |ReadText(fs)| <= |Concat(parts)|
    ensures OnlyEmptyNextUnread(fs) <==> ReadText(fs) == Concat(parts)
    ensures OnlyEmptyNextUnread(fs) <==> |ReadText(fs)| == |Concat(parts)|
    decreases |parts|
  {
    hide ReassembleAll, Reads, OnlyNextUnread, OnlyEmptyNextUnread;
    assert fs[0].u == Tail(parts)[0];
    var f, rest := fs[0], fs[1..];
    assert fs == [f] + rest;
    ReadsCons(f, rest);
    UnreadCons(f, rest);
    var a := Assembly(buf, true);
    ReassembleStep(a, f.u, Reads(rest));
    if |parts| == 1 {
      assert rest == [];
      NoReads();
      NothingReassembled(IDLE);
      assert [buf + parts[0]] + [] == [buf + parts[0]];
      NothingUnread();
      assert Concat(parts) == parts[0] + Concat([]) == parts[0];
      assert ReadText(fs) == parts[0] + ReadText([]) == parts[0];
    } else {
      SplitAt(fs, [Plain(0, Next, parts[0])], Tail(parts[1..]));
      var here := if f.read then parts[0] else [];
      TailHolds(buf + here, rest, parts[1..]);
      assert buf + [] == buf;
      assert (buf + here) + ReadText(rest) == buf + (here + ReadText(rest));
      EqualParts(here, ReadText(rest), parts[0], Concat(parts[1..]));
    }
  }

  /** Of two parts, neither longer than its counterpart, the concatenation is as long only if both are. */
  lemma EqualParts(a: seq<byte>, b: seq<byte>, x: seq<byte>, y: seq<byte>)
    requires (a == x || a == []) && |b| <= |y|
    ensures |a + b| == |x + y| <==> |a| == |x| && |b| == |y|
    ensures a == x && b == y ==> a + b == x + y
  {
  }

  lemma CutHolds(fs: seq<Fate>, parts: seq<seq<byte>>)
    requires parts != [] && AllOrders(fs) && Plains(fs) == Cut(parts) && OnlyNextUnread(fs)
    ensures ReassembleAll(IDLE, Reads(fs)) == (IDLE, [ReadText(fs)])
    ensures OnlyEmptyNextUnread(fs) <==> ReadText(fs) == Concat(parts)
  {
    hide ReassembleAll, Reads, OnlyNextUnread, OnlyEmptyNextUnread;
    assert fs[0].u == Cut(parts)[0];
    var f, rest := fs[0], fs[1..];
    assert fs == [f] + rest;
    ReadsCons(f, rest);
    UnreadCons(f, rest);
    ReassembleStep(IDLE, f.u, Reads(rest));
    if |parts| == 1 {
      assert rest == [];
      NoReads();
      NothingReassembled(IDLE);
      assert [parts[0]] + [] == [parts[0]];
      NothingUnread();
      assert Concat(parts) == parts[0] + Concat([]) == parts[0];
      assert ReadText(fs) == parts[0] + ReadText([]) == parts[0];
    } else {
      SplitAt(fs, [Plain(0, First, parts[0])], Tail(parts[1..]));
      TailHolds(parts[0], rest, parts[1..]);
      EqualParts(parts[0], ReadText(rest), parts[0], Concat(parts[1..]));
    }
  }

  function Messages(msgs: seq<seq<seq<byte>>>): seq<seq<byte>> {
    seq(|msgs|, i requires 0 <= i < |msgs| => Concat(msgs[i]))
  }

  /** With all ends read every message comes out, and unharmed exactly if only empty fragments were left out. */
  lemma {:induction false} AllHold(fs: seq<Fate>, msgs: seq<seq<seq<byte>>>)
    requires forall i :: 0 <= i < |msgs| ==> msgs[i] != []
    requires AllOrders(fs) && Plains(fs) == CutAll(msgs) && OnlyNextUnread(fs)
    ensures var r := ReassembleAll(IDLE, Reads(fs));
            r.0 == IDLE && |r.1| == |msgs| && (r.1 == Messages(msgs) <==> OnlyEmptyNextUnread(fs))
    decreases |msgs|
  {
    hide ReassembleAll, Reads, OnlyNextUnread, OnlyEmptyNextUnread, Cut, Concat;
    if msgs == [] {
      assert fs == [];
      NoReads();
      NothingReassembled(IDLE);
      NothingUnread();
      assert Messages(msgs) == [];
    } else {
      var more := msgs[1..];
      SplitAt(fs, Cut(msgs[0]), CutAll(more));
      var k := |Cut(msgs[0])|;
      var x, y := fs[..k], fs[k..];
      assert fs == x + y;
      ReadsSplit(x, y);
      ReassembleSplit(IDLE, Reads(x), Reads(y));
      UnreadSplit(x, y);
      CutHolds(x, msgs[0]);
      AllHold(y, more);
      var out := ReassembleAll(IDLE, Reads(y)).1;
      MessagesCons(msgs);
      SameList(ReadText(x), out, Concat(msgs[0]), Messages(more));
    }
  }

  lemma MessagesCons(msgs: seq<seq<seq<byte>>>)
    requires msgs != []
    ensures Messages(msgs) == [Concat(msgs[0])] + Messages(msgs[1..])
  {
  }

  lemma SameList<T>(a: T, s: seq<T>, b: T, t: seq<T>)
    ensures [a] + s == [b] + t <==> a == b && s == t
  {
    assert ([a] + s)[0] == a && ([a] + s)[1..] == s && ([b] + t)[0] == b && ([b] + t)[1..] == t;
  }

  // ---- Whole runs -----------------------------------------------------------------------------------------

  /** Fragmentation, per-fragment compression, grouping into PDUs, queueing and reassembly preserve meaning: for every
      run of PDUs, with and without compression, whose order updates are the fragments of `msgs`, exactly `msgs` comes
      out, once each and in wire order, if and only if every order update that is not read is an empty NEXT. */
  lemma EndToEnd(s: Mppc.State, p: Peer, ps: seq<Pdu>, msgs: seq<seq<seq<byte>>>)
    requires InStep(s, p) && SendableRun(p, ps)
    requires forall i :: 0 <= i < |msgs| ==> msgs[i] != []
    requires Orders(AllUpdates(ps)) == CutAll(msgs)
    ensures var r := RunLoop(Rx(s, [], IDLE), RunBytes(p, ps));
            && (r.1 == Messages(msgs) <==> OnlyEmptyNextUnread(Fates(ps)))
            && (OnlyEmptyNextUnread(Fates(ps)) ==> r.0.asm == IDLE)
            && r.0.queue == [] && InStep(r.0.s, PeerAfterRun(p, ps))
  {
    hide RunLoop, ReassembleAll, CutAll, RunBytes, Orders, OrderFates, Reads, Plains;
    var fs := OrderFates(Fates(ps));
    RunDelivers(s, IDLE, p, ps);
    FatesRead(ps);
    FatesOrders(ps);
    OthersGoElsewhere(IDLE, Fates(ps));
    if OnlyNextUnread(fs) {
      AllHold(fs, msgs);
    } else {
      AllDeliver(IDLE, fs, msgs);
      assert !OnlyEmptyNextUnread(fs);
    }
  }

  // ---- Runs in which every order update is compressed -------------------------------------------------------

  predicate AllPackets(us: seq<Update>) {
    forall i :: 0 <= i < |us| && us[i].code == 0 ==> us[i].body.Packet?
  }

  /** Only the middle fragments are empty. */
  predicate EndsNonempty(msgs: seq<seq<seq<byte>>>)
    requires forall i :: 0 <= i < |msgs| ==> msgs[i] != []
  {
    forall i :: 0 <= i < |msgs| ==> msgs[i][0] != [] && msgs[i][|msgs[i]| - 1] != []
  }

  predicate EmptyOnlyNext(ps: seq<Plain>) {
    forall i :: 0 <= i < |ps| && ps[i].data == [] ==> ps[i].frag == Next
  }

  lemma EmptySplit(a: seq<Plain>, b: seq<Plain>)
    ensures EmptyOnlyNext(a + b) <==> EmptyOnlyNext(a) && EmptyOnlyNext(b)
  {
    var c := a + b;
    assert forall i :: 0 <= i < |a| ==> a[i] == c[i];
    assert forall i :: 0 <= i < |b| ==> b[i] == c[|a| + i];
  }

  lemma EmptyOne(p: Plain)
    ensures EmptyOnlyNext([p]) <==> (p.data == [] ==> p.frag == Next)
  {
    assert [p][0] == p;
  }

  lemma {:induction false} TailEmpty(parts: seq<seq<byte>>)
    requires parts != []
    ensures EmptyOnlyNext(Tail(parts)) <==> parts[|parts| - 1] != []
    decreases |parts|
  {
    hide EmptyOnlyNext;
    if |parts| == 1 {
      EmptyOne(Plain(0, Last, parts[0]));
    } else {
      TailEmpty(parts[1..]);
      EmptyOne(Plain(0, Next, parts[0]));
      EmptySplit([Plain(0, Next, parts[0])], Tail(parts[1..]));
    }
  }

  lemma CutEmpty(parts: seq<seq<byte>>)
    requires parts != []
    ensures EmptyOnlyNext(Cut(parts)) <==> parts[0] != [] && parts[|parts| - 1] != []
  {
    hide Tail, EmptyOnlyNext;
    if |parts| == 1 {
      EmptyOne(Plain(0, Single, parts[0]));
    } else {
      TailEmpty(parts[1..]);
      EmptyOne(Plain(0, First, parts[0]));
      EmptySplit([Plain(0, First, parts[0])], Tail(parts[1..]));
    }
  }

  lemma {:induction false} CutAllEmpty(msgs: seq<seq<seq<byte>>>)
    requires forall i :: 0 <= i < |msgs| ==> msgs[i] != []
    ensures EmptyOnlyNext(CutAll(msgs)) <==> EndsNonempty(msgs)
    decreases |msgs|
  {
    hide Cut, EmptyOnlyNext, EndsNonempty;
    if msgs == [] {
      EmptyNothing();
    } else {
      CutEmpty(msgs[0]);
      CutAllEmpty(msgs[1..]);
      EmptySplit(Cut(msgs[0]), CutAll(msgs[1..]));
      EndsCons(msgs);
    }
  }

  lemma EmptyNothing()
    ensures EmptyOnlyNext([]) && EndsNonempty([])
  {
  }

  lemma EndsCons(msgs: seq<seq<seq<byte>>>)
    requires msgs != [] && forall i :: 0 <= i < |msgs| ==> msgs[i] != []
    ensures EndsNonempty(msgs) <==> msgs[0][0] != [] && msgs[0][|msgs[0]| - 1] != [] && EndsNonempty(msgs[1..])
  {
    var rest := msgs[1..];
    assert forall i :: 0 < i < |msgs| ==> msgs[i] == rest[i - 1];
    assert forall i :: 0 <= i < |rest| ==> rest[i] == msgs[i + 1];
  }

  /** Order updates are read exactly if they hold something. */
  predicate ReadUnlessEmpty(fs: seq<Fate>) {
    forall i :: 0 <= i < |fs| && fs[i].u.code == 0 ==> (fs[i].read <==> fs[i].u.data != [])
  }

  lemma ReadUnlessEmptySplit(fs: seq<Fate>, gs: seq<Fate>)
    ensures ReadUnlessEmpty(fs + gs) <==> ReadUnlessEmpty(fs) && ReadUnlessEmpty(gs)
  {
    var hs := fs + gs;
    assert forall i :: 0 <= i < |fs| ==> fs[i] == hs[i];
    assert forall i :: 0 <= i < |gs| ==> gs[i] == hs[|fs| + i];
  }

  lemma {:induction false} PacketsReadUnlessEmpty(us: seq<Update>)
    requires AllPackets(us)
    ensures ReadUnlessEmpty(PacketFates(us))
    decreases |us|
  {
    hide ReadUnlessEmpty;
    if us == [] {
      assert ReadUnlessEmpty([]) by { NothingToRead(); }
    } else {
      var f := Fate(Seen(us[0]), !Dropped(us[0]));
      PacketsReadUnlessEmpty(us[1..]);
      assert ReadUnlessEmpty([f]) by { OneToRead(f); }
      ReadUnlessEmptySplit([f], PacketFates(us[1..]));
    }
  }

  lemma OneToRead(f: Fate)
    requires f.u.code == 0 ==> (f.read <==> f.u.data != [])
    ensures ReadUnlessEmpty([f])
  {
  }

  lemma NothingToRead()
    ensures ReadUnlessEmpty([])
  {
  }

  lemma {:induction false} NoOrdersReadUnlessEmpty(us: seq<Update>)
    requires AllPackets(us) && !AnyPacket(us)
    ensures forall f <- PduFates(us) :: f.u.code != 0
    decreases |us|
  {
    hide Seen;
    if us != [] {
      PlainHasNoOrders(us);
      LateFollow(us[1..]);
      var fs := PduFates(us);
      forall i | 0 <= i < |fs|
        ensures fs[i].u.code != 0
      {
        assert fs[i].u == Seen(us[i]);
        SeenCode(us[i]);
      }
    }
  }

  lemma SeenCode(u: Update)
    ensures Seen(u).code == u.code
  {
  }

  lemma {:induction false} PlainHasNoOrders(us: seq<Update>)
    requires AllPackets(us) && !AnyPacket(us)
    ensures forall i :: 0 <= i < |us| ==> us[i].code != 0
    decreases |us|
  {
    if us != [] {
      assert forall i :: 0 <= i < |us| - 1 ==> us[1..][i] == us[i + 1];
      PlainHasNoOrders(us[1..]);
      forall i | 0 <= i < |us|
        ensures us[i].code != 0
      {
        if i > 0 {
          assert us[i] == us[1..][i - 1];
        }
      }
    }
  }

  lemma {:induction false} CompressedReadUnlessEmpty(ps: seq<Pdu>)
    requires AllPackets(AllUpdates(ps))
    ensures ReadUnlessEmpty(Fates(ps))
    decreases |ps|
  {
    hide PacketFates, LateFates, PduFates, AnyPacket;
    if ps != [] {
      var us, rest := ps[0].updates, AllUpdates(ps[1..]);
      assert AllPackets(us) && AllPackets(rest) by { PacketsSplit(us, rest); }
      CompressedReadUnlessEmpty(ps[1..]);
      if AnyPacket(us) {
        PacketsReadUnlessEmpty(us);
        PacketPdu(us);
      } else {
        NoOrdersReadUnlessEmpty(us);
      }
      ReadUnlessEmptySplit(PduFates(us), Fates(ps[1..]));
    }
  }

  lemma PacketPdu(us: seq<Update>)
    requires AnyPacket(us)
    ensures PduFates(us) == PacketFates(us)
  {
  }

  lemma PacketsSplit(us: seq<Update>, vs: seq<Update>)
    requires AllPackets(us + vs)
    ensures AllPackets(us) && AllPackets(vs)
  {
    var ws := us + vs;
    assert forall i :: 0 <= i < |us| ==> us[i] == ws[i];
    assert forall i :: 0 <= i < |vs| ==> vs[i] == ws[|us| + i];
  }

  lemma {:induction false} UnreadAreEmpty(fs: seq<Fate>)
    requires ReadUnlessEmpty(fs)
    ensures ReadUnlessEmpty(OrderFates(fs))
    ensures OnlyEmptyNextUnread(OrderFates(fs)) <==> EmptyOnlyNext(Plains(OrderFates(fs)))
    decreases |fs|
  {
    var gs := OrderFates(fs);
    if fs != [] {
      assert fs == [fs[0]] + fs[1..];
      ReadUnlessEmptySplit([fs[0]], fs[1..]);
      UnreadAreEmpty(fs[1..]);
      OrderFatesCons(fs[0], fs[1..]);
      ReadUnlessEmptySplit([fs[0]], OrderFates(fs[1..]));
    }
  }

  /** Of messages whose fragments are all compressed, all arrive if and only if none begins or ends with an empty
      fragment. */
  lemma DeliveredIffEndsNonempty(s: Mppc.State, p: Peer, ps: seq<Pdu>, msgs: seq<seq<seq<byte>>>)
    requires InStep(s, p) && SendableRun(p, ps) && AllPackets(AllUpdates(ps))
    requires forall i :: 0 <= i < |msgs| ==> msgs[i] != []
    requires Orders(AllUpdates(ps)) == CutAll(msgs)
    ensures RunLoop(Rx(s, [], IDLE), RunBytes(p, ps)).1 == Messages(msgs) <==> EndsNonempty(msgs)
  {
    hide RunLoop, RunBytes, OnlyNextUnread, OnlyEmptyNextUnread, EmptyOnlyNext, EndsNonempty, Orders, CutAll,
         OrderFates, Reads,
         ReadUnlessEmpty, Plains;
    EndToEnd(s, p, ps, msgs);
    CompressedReadUnlessEmpty(ps);
    UnreadAreEmpty(Fates(ps));
    OthersGoElsewhere(IDLE, Fates(ps));
    FatesOrders(ps);
    CutAllEmpty(msgs);
  }

  /** Two damaged messages can even come out as one that was never sent: the beginning of the first, whose empty LAST
      was dropped, and the end of the second, whose empty FIRST was. */
  lemma DamagedMessagesSplice(s: Mppc.State, p: Peer, ps: seq<Pdu>, a: seq<byte>, b: seq<byte>)
    requires InStep(s, p) && SendableRun(p, ps) && AllPackets(AllUpdates(ps)) && a != [] && b != []
    requires Orders(AllUpdates(ps)) == CutAll([[a, []], [[], b]])
    ensures RunLoop(Rx(s, [], IDLE), RunBytes(p, ps)).1 == [a + b]
  {
    hide RunLoop, RunBytes, ReassembleAll, Orders, OrderFates, Reads, ReadUnlessEmpty, CutAll;
    RunDelivers(s, IDLE, p, ps);
    FatesRead(ps);
    FatesOrders(ps);
    CompressedReadUnlessEmpty(ps);
    UnreadAreEmpty(Fates(ps));
    OthersGoElsewhere(IDLE, Fates(ps));
    FourFragments(a, b);
    SplicedFragments(OrderFates(Fates(ps)), a, b);
  }

  lemma FourFragments(a: seq<byte>, b: seq<byte>)
    ensures CutAll([[a, []], [[], b]])
            == [Plain(0, First, a), Plain(0, Last, []), Plain(0, First, []), Plain(0, Last, b)]
  {
    var m, n: seq<seq<byte>> := [a, []], [[], b];
    assert [m, n][1..] == [n] && [n][1..] == [] && m[1..] == [[]] && n[1..] == [b];
    assert CutAll([n]) == Cut(n) + [];
  }

  lemma SplicedFragments(fs: seq<Fate>, a: seq<byte>, b: seq<byte>)
    requires AllOrders(fs) && ReadUnlessEmpty(fs) && a != [] && b != []
    requires Plains(fs)
             == [Plain(0, First, a), Plain(0, Last, []), Plain(0, First, []), Plain(0, Last, b)]
    ensures ReassembleAll(IDLE, Reads(fs)).1 == [a + b]
  {
    hide ReassembleAll, Reads;
    var us := Plains(fs);
    assert fs[0].u == us[0] && fs[1].u == us[1] && fs[2].u == us[2] && fs[3].u == us[3];
    assert fs == [fs[0]] + ([fs[1]] + ([fs[2]] + ([fs[3]] + [])));
    NoReads();
    ReadsCons(fs[3], []);
    ReadsCons(fs[2], [fs[3]] + []);
    ReadsCons(fs[1], [fs[2]] + ([fs[3]] + []));
    ReadsCons(fs[0], [fs[1]] + ([fs[2]] + ([fs[3]] + [])));
    ReassembleStep(Assembly(a, true), us[3], []);
    NothingReassembled(IDLE);
    ReassembleStep(IDLE, us[0], [us[3]] + []);
  }
}
