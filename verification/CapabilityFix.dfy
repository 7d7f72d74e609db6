/**
 The rewriter that pads a short Bitmap Cache Rev2 capability of a DemandActive frame to its full size and
 corrects every length that encloses it: TPKT, MCS user data, share control, combined capabilities, capability.
 */
module CapabilityFix {
  import opened Bits
  import opened Options

  const REV2_TYPE: nat := 0x13
  const REV2_FULL: nat := 40

  /** Nothing to do, a rewritten frame, or an index out of range. */
  datatype Fix = Keep | Rewritten(out: seq<byte>) | Panics

  function Be16(n: nat): (s: seq<byte>)
    requires n < 0x1_0000
    ensures |s| == 2
  {
    [n / 256, n % 256]
  }

  function BigAt(b: seq<byte>, i: nat): (n: nat)
    requires i + 2 <= |b|
    ensures n < 0x1_0000
  {
    256 * (b[i] as int) + b[i + 1] as int
  }

  function Zeros(n: nat): (s: seq<byte>)
    ensures |s| == n
  {
    seq(n, _ => 0 as byte)
  }

  /** `s` with `v` written over it at `at`. */
  function Patch(s: seq<byte>, at: nat, v: seq<byte>): (r: seq<byte>)
    requires at + |v| <= |s|
    ensures |r| == |s|
  {
    s[..at] + v + s[at + |v|..]
  }

  function Grown16(n: nat, pad: nat): (r: nat)
    ensures r < 0x1_0000
  {
    (n + pad) % 0x1_0000
  }

  /** Two-byte MCS length: the high bit marks the form. */
  function McsLength(n: nat): (s: seq<byte>)
    ensures |s| == 2
  {
    [128 + n / 256 % 128, n % 256]
  }

  /** The frame with the capability of `clen` bytes at `p` padded, and the enclosing lengths raised. */
  function Widened(frame: seq<byte>, sc: nat, p: nat, clen: nat): (out: seq<byte>)
    requires sc in {14, 15} && sc + 18 <= p && p + 4 <= |frame| && p + clen <= |frame| && clen < REV2_FULL
    ensures |out| == |frame| + (REV2_FULL - clen)
  {
    var pad := REV2_FULL - clen;
    var o0 := frame[..p + clen] + Zeros(pad) + frame[p + clen..];
    var o1 := Patch(o0, p + 2, Le16(REV2_FULL));
    var o2 := Patch(o1, sc + 12, Le16(Grown16(U16At(o1, sc + 12), pad)));
    var o3 := Patch(o2, sc, Le16(Grown16(U16At(o2, sc), pad)));
    var o4 := if frame[13] >= 128 then Patch(o3, 13, McsLength(BigAt(frame, 13) % 0x8000 + pad)) else o3;
    Patch(o4, 2, Be16(Grown16(BigAt(frame, 2), pad)))
  }

  function Scan(frame: seq<byte>, sc: nat, p: nat, left: nat): Fix
    requires sc in {14, 15} && sc + 18 <= p && 15 <= |frame|
    decreases left
  {
    if left == 0 || p + 4 > |frame| then Keep
    else
      var (kind, clen) := (U16At(frame, p), U16At(frame, p + 2));
      if kind == REV2_TYPE && clen < REV2_FULL then
        if p + clen > |frame| then Panics else Rewritten(Widened(frame, sc, p, clen))
      else Scan(frame, sc, p + clen, left - 1)
  }

  function FixOf(frame: seq<byte>): Fix {
    if |frame| < 15 || frame[0] != 3 || frame[7] != 0x68 then Keep
    else
      var sc := if frame[13] >= 128 then 15 else 14;
      if |frame| < sc + 4 then Panics
      else if U16At(frame, sc + 2) % 16 != 1 then Keep
      else if |frame| < sc + 12 then Panics
      else
        var caps := sc + 14 + U16At(frame, sc + 10);
        if |frame| < caps + 2 then Panics else Scan(frame, sc, caps + 4, U16At(frame, caps))
  }

  method FixShortBitmapCacheRev2(frame: seq<byte>) returns (r: Fix)
    ensures r == FixOf(frame)
  {
    hide Patch, Zeros, McsLength, Grown16, U16At, BigAt;
    if |frame| < 15 || frame[0] != 3 {
      return Keep;
    }
    if frame[7] != 0x68 {
      return Keep;
    }
    var sc := if frame[13] >= 128 then 15 else 14;
    if |frame| < sc + 4 {
      return Panics;
    }
    if U16At(frame, sc + 2) % 16 != 1 {
      return Keep;
    }
    if |frame| < sc + 12 {
      return Panics;
    }
    var numCaps := sc + 14 + U16At(frame, sc + 10);
    if |frame| < numCaps + 2 {
      return Panics;
    }
    var p, left := numCaps + 4, U16At(frame, numCaps);
    while left > 0
      invariant sc + 18 <= p
      invariant Scan(frame, sc, p, left) == FixOf(frame)
    {
      if p + 4 > |frame| {
        return Keep;
      }
      var kind, clen := U16At(frame, p), U16At(frame, p + 2);
      if kind == REV2_TYPE && clen < REV2_FULL {
        if p + clen > |frame| {
          return Panics;
        }
        var pad := REV2_FULL - clen;
        var out := frame[..p + clen] + Zeros(pad) + frame[p + clen..];
        out := Patch(out, p + 2, Le16(clen + pad));
        out := Patch(out, sc + 12, Le16(Grown16(U16At(out, sc + 12), pad)));
        out := Patch(out, sc, Le16(Grown16(U16At(out, sc), pad)));
        if frame[13] >= 128 {
          out := Patch(out, 13, McsLength(BigAt(frame, 13) % 0x8000 + pad));
        }
        out := Patch(out, 2, Be16(Grown16(BigAt(frame, 2), pad)));
        return Rewritten(out);
      }
      p := p + clen;
      left := left - 1;
    }
    r := Keep;
  }

  // ---- Consistent frames --------------------------------------------------------------------------

  datatype Cap = Cap(kind: nat, body: seq<byte>)

  /** A DemandActive: everything but the lengths, which are computed from it. */
  datatype Demand = Demand(
    version: byte, x224: seq<byte>, mcs: seq<byte>, control: seq<byte>, descriptor: seq<byte>,
    pad: seq<byte>, caps: seq<Cap>, tail: seq<byte>)

  function CapBytes(c: Cap): seq<byte>
    requires c.kind < 0x1_0000 && |c.body| + 4 < 0x1_0000
  {
    Le16(c.kind) + Le16(4 + |c.body|) + c.body
  }

  predicate CapsFit(caps: seq<Cap>) {
    forall i :: 0 <= i < |caps| ==> caps[i].kind < 0x1_0000 && |caps[i].body| + 4 < 0x1_0000
  }

  function CapsBytes(caps: seq<Cap>): (s: seq<byte>)
    requires CapsFit(caps)
  {
    if caps == [] then [] else CapBytes(caps[0]) + CapsBytes(caps[1..])
  }

  function CapsSize(caps: seq<Cap>): nat {
    if caps == [] then 0 else 4 + |caps[0].body| + CapsSize(caps[1..])
  }

  /** Bytes behind the MCS length: share control header, share id, descriptor, capabilities, tail. */
  function UserSize(d: Demand): nat { 18 + |d.descriptor| + CapsSize(d.caps) + |d.tail| }

  /** Field sizes, a DemandActive type, and lengths that fit their fields. `control` is type, source and share id. */
  predicate WellFormed(d: Demand) {
    && |d.x224| == 3 && |d.mcs| == 5 && |d.control| == 8 && |d.pad| == 2
    && U16At(d.control, 0) % 16 == 1
    && CapsFit(d.caps) && |d.caps| < 0x1_0000 && UserSize(d) < 0x8000
  }

  /** The fields before the capabilities, with the given lengths. */
  function HeadWith(d: Demand, tpkt: nat, mcs: nat, total: nat, combined: nat): seq<seq<byte>>
    requires |d.descriptor| < 0x1_0000 && |d.caps| < 0x1_0000 && tpkt < 0x1_0000 && total < 0x1_0000
             && combined < 0x1_0000
  {
    [[3, d.version], Be16(tpkt), d.x224 + [0x68] + d.mcs, McsLength(mcs), Le16(total),
     d.control + Le16(|d.descriptor|), Le16(combined), d.descriptor + Le16(|d.caps|) + d.pad]
  }

  function Encode(d: Demand): seq<byte>
    requires WellFormed(d)
  {
    var n := UserSize(d);
    Flatten(HeadWith(d, 15 + n, n, n, 4 + CapsSize(d.caps))) + CapsBytes(d.caps) + d.tail
  }

  /** A Rev2 bitmap cache capability, of type 0x13, with fewer than 36 bytes behind its type and length. */
  predicate Short(c: Cap) { c.kind == 0x13 && |c.body| < 36 }

  function FirstShort(caps: seq<Cap>): (r: Option<nat>)
    ensures r.Some? ==> r.value < |caps| && Short(caps[r.value]) && forall i :: 0 <= i < r.value ==> !Short(caps[i])
    ensures r.None? ==> forall i :: 0 <= i < |caps| ==> !Short(caps[i])
  {
    if caps == [] then None
    else if Short(caps[0]) then Some(0)
    else match FirstShort(caps[1..]) case None => None case Some(i) => Some(i + 1)
  }

  /** With zeros up to 40 bytes in all. */
  function Full(c: Cap): (r: Cap)
    requires Short(c)
    ensures r.kind == c.kind && |r.body| == 36 && c.body <= r.body
  {
    c.(body := c.body + Zeros(36 - |c.body|))
  }

  /** The demand with its first short Rev2 capability padded. */
  function WidenFirst(d: Demand): Demand {
    match FirstShort(d.caps)
    case None => d
    case Some(i) => d.(caps := d.caps[i := Full(d.caps[i])])
  }

  // ---- Frames as lists of fields ----------------------------------------------------------------------

  function Flatten(cs: seq<seq<byte>>): seq<byte> {
    if cs == [] then [] else cs[0] + Flatten(cs[1..])
  }

  lemma Associate(a: seq<byte>, b: seq<byte>, c: seq<byte>)
    ensures a + (b + c) == (a + b) + c
  {
  }

  lemma {:induction false} FlattenConcat(a: seq<seq<byte>>, b: seq<seq<byte>>)
    ensures Flatten(a + b) == Flatten(a) + Flatten(b)
  {
    if a == [] {
      assert a + b == b;
    } else {
      FlattenConcat(a[1..], b);
      assert (a + b)[0] == a[0] && (a + b)[1..] == a[1..] + b;
      Associate(a[0], Flatten(a[1..]), Flatten(b));
    }
  }

  function Offset(cs: seq<seq<byte>>, k: nat): nat
    requires k <= |cs|
  {
    |Flatten(cs[..k])|
  }

  lemma FlattenAt(cs: seq<seq<byte>>, k: nat)
    requires k < |cs|
    ensures Flatten(cs) == Flatten(cs[..k]) + cs[k] + Flatten(cs[k + 1..])
    ensures Offset(cs, k + 1) == Offset(cs, k) + |cs[k]|
  {
    assert cs == cs[..k] + [cs[k]] + cs[k + 1..];
    assert cs[..k + 1] == cs[..k] + [cs[k]];
    FlattenConcat(cs[..k], [cs[k]]);
    FlattenConcat(cs[..k] + [cs[k]], cs[k + 1..]);
    assert Flatten([cs[k]]) == cs[k];
  }

  /** A field is read where it stands ... */
  lemma FieldRead(cs: seq<seq<byte>>, k: nat)
    requires k < |cs|
    ensures Offset(cs, k) + |cs[k]| <= |Flatten(cs)|
    ensures Flatten(cs)[Offset(cs, k)..Offset(cs, k) + |cs[k]|] == cs[k]
  {
    hide Flatten;
    FlattenAt(cs, k);
  }

  /** ... and writing over it changes that field alone. */
  lemma FieldWritten(cs: seq<seq<byte>>, k: nat, v: seq<byte>)
    requires k < |cs| && |v| == |cs[k]|
    ensures Offset(cs, k) + |v| <= |Flatten(cs)|
    ensures Patch(Flatten(cs), Offset(cs, k), v) == Flatten(cs[k := v])
    ensures forall j :: 0 <= j <= |cs| ==> Offset(cs[k := v], j) == Offset(cs, j)
  {
    hide Flatten;
    var cs' := cs[k := v];
    FlattenAt(cs, k);
    FlattenAt(cs', k);
    assert cs'[..k] == cs[..k] && cs'[k + 1..] == cs[k + 1..];
    forall j | 0 <= j <= |cs|
      ensures Offset(cs', j) == Offset(cs, j)
    {
      SameOffsets(cs, cs', j);
    }
  }

  lemma {:induction false} SameOffsets(a: seq<seq<byte>>, b: seq<seq<byte>>, j: nat)
    requires |a| == |b| && j <= |a| && forall i :: 0 <= i < |a| ==> |a[i]| == |b[i]|
    ensures Offset(a, j) == Offset(b, j)
  {
    hide Flatten;
    if j == 0 {
      assert a[..0] == b[..0] == [];
    } else {
      SameOffsets(a, b, j - 1);
      FlattenAt(a, j - 1);
      FlattenAt(b, j - 1);
    }
  }

  // ---- A well-formed frame, around one of its capabilities -----------------------------------------------

  lemma {:induction false} CapsSplit(caps: seq<Cap>, i: nat)
    requires CapsFit(caps) && i <= |caps|
    ensures CapsBytes(caps) == CapsBytes(caps[..i]) + CapsBytes(caps[i..])
    ensures CapsSize(caps) == CapsSize(caps[..i]) + CapsSize(caps[i..])
  {
    hide CapsBytes, CapsSize, CapBytes;
    if i == 0 {
      assert caps[..0] == [] && caps[0..] == caps;
      NoCaps();
    } else {
      CapsSplit(caps[1..], i - 1);
      assert caps[..i][1..] == caps[1..][..i - 1] && caps[1..][i - 1..] == caps[i..];
      CapsCons(caps);
      CapsCons(caps[..i]);
      assert CapsBytes(caps[1..][..i - 1]) + CapsBytes(caps[i..]) == CapsBytes(caps[1..]);
    }
  }

  lemma NoCaps()
    ensures CapsBytes([]) == [] && CapsSize([]) == 0
  {
  }

  lemma CapsCons(caps: seq<Cap>)
    requires CapsFit(caps) && caps != []
    ensures CapsBytes(caps) == CapBytes(caps[0]) + CapsBytes(caps[1..])
    ensures CapsSize(caps) == 4 + |caps[0].body| + CapsSize(caps[1..])
  {
  }

  lemma {:induction false} CapsLength(caps: seq<Cap>)
    requires CapsFit(caps)
    ensures |CapsBytes(caps)| == CapsSize(caps)
  {
    if caps != [] {
      CapsLength(caps[1..]);
    }
  }

  /** All lengths that the padding changes. */
  datatype Lengths = Lengths(tpkt: nat, mcs: nat, total: nat, combined: nat, cap: nat) {
    predicate Fit() { tpkt < 0x1_0000 && total < 0x1_0000 && combined < 0x1_0000 && cap < 0x1_0000 }
  }

  function LengthsOf(d: Demand, i: nat): (l: Lengths)
    requires WellFormed(d) && i < |d.caps|
    ensures l.Fit()
  {
    CapsSplit(d.caps, i);
    Lengths(15 + UserSize(d), UserSize(d), UserSize(d), 4 + CapsSize(d.caps), 4 + |d.caps[i].body|)
  }

  function Tail(d: Demand, i: nat, cap: nat, body: seq<byte>): seq<seq<byte>>
    requires WellFormed(d) && i < |d.caps| && cap < 0x1_0000
  {
    [CapsBytes(d.caps[..i]), Le16(d.caps[i].kind), Le16(cap), body, CapsBytes(d.caps[i + 1..]), d.tail]
  }

  function Fields(d: Demand, i: nat, l: Lengths, body: seq<byte>): seq<seq<byte>>
    requires WellFormed(d) && i < |d.caps| && l.Fit()
  {
    HeadWith(d, l.tpkt, l.mcs, l.total, l.combined) + Tail(d, i, l.cap, body)
  }

  lemma EncodeIsFields(d: Demand, i: nat)
    requires WellFormed(d) && i < |d.caps|
    ensures Encode(d) == Image(d, i, LengthsOf(d, i), d.caps[i].body)
  {
    hide HeadWith, CapsBytes, CapsSize;
    var l := LengthsOf(d, i);
    var h, t := HeadWith(d, l.tpkt, l.mcs, l.total, l.combined), Tail(d, i, l.cap, d.caps[i].body);
    FlattenConcat(h, t);
    TailBytes(d, i);
    assert Flatten(h) + CapsBytes(d.caps) + d.tail == Flatten(h) + (CapsBytes(d.caps) + d.tail);
  }

  lemma TailBytes(d: Demand, i: nat)
    requires WellFormed(d) && i < |d.caps| && 4 + |d.caps[i].body| < 0x1_0000
    ensures Flatten(Tail(d, i, 4 + |d.caps[i].body|, d.caps[i].body)) == CapsBytes(d.caps) + d.tail
  {
    hide CapsBytes;
    var c, a, b := d.caps[i], CapsBytes(d.caps[..i]), CapsBytes(d.caps[i + 1..]);
    CapsSplit(d.caps, i);
    CapsSplit(d.caps[i..], 1);
    assert d.caps[i..][1..] == d.caps[i + 1..] && d.caps[i..][..1] == [c];
    OneCap(c);
    FlattenSix(a, Le16(c.kind), Le16(4 + |c.body|), c.body, b, d.tail);
    assert a + (Le16(c.kind) + Le16(4 + |c.body|) + c.body) + b + d.tail == (a + (CapBytes(c) + b)) + d.tail;
  }

  lemma OneCap(c: Cap)
    requires c.kind < 0x1_0000 && |c.body| + 4 < 0x1_0000
    ensures CapsBytes([c]) == CapBytes(c)
  {
    assert [c][1..] == [];
    assert CapBytes(c) + [] == CapBytes(c);
  }

  lemma FlattenSix(a: seq<byte>, b: seq<byte>, c: seq<byte>, d: seq<byte>, e: seq<byte>, f: seq<byte>)
    ensures Flatten([a, b, c, d, e, f]) == a + (b + c + d) + e + f
  {
    assert [a, b, c, d, e, f] == [a, b, c] + [d, e, f];
    FlattenConcat([a, b, c], [d, e, f]);
    FlattenThree(a, b, c);
    FlattenThree(d, e, f);
  }

  lemma FlattenThree(a: seq<byte>, b: seq<byte>, c: seq<byte>)
    ensures Flatten([a, b, c]) == a + b + c
  {
    assert [a, b, c][1..] == [b, c] && [b, c][1..] == [c] && [c][1..] == [];
    assert Flatten([c]) == c;
    assert Flatten([b, c]) == b + c;
    assert Flatten([a, b, c]) == a + (b + c);
  }

  /** Where the fields stand. */
  lemma FieldOffsets(d: Demand, i: nat, l: Lengths, body: seq<byte>)
    requires WellFormed(d) && i < |d.caps| && l.Fit()
    ensures var cs := Fields(d, i, l, body);
            && |cs| == 14
            && Offset(cs, 0) == 0 && Offset(cs, 1) == 2 && Offset(cs, 2) == 4 && Offset(cs, 3) == 13
                && Offset(cs, 4) == 15
            && Offset(cs, 5) == 17 && Offset(cs, 6) == 27 && Offset(cs, 7) == 29 && Offset(cs, 8) == 33 + |d.descriptor|
            && Offset(cs, 9) == PosOf(d, i) && Offset(cs, 10) == PosOf(d, i) + 2 && Offset(cs, 11) == PosOf(d, i) + 4
  {
    hide Flatten, CapsBytes;
    var cs := Fields(d, i, l, body);
    HeadOffsets(cs);
    FlattenAt(cs, 7); FlattenAt(cs, 8); FlattenAt(cs, 9); FlattenAt(cs, 10);
    CapsLength(d.caps[..i]);
  }

  lemma HeadOffsets(cs: seq<seq<byte>>)
    requires |cs| >= 8 && |cs[0]| == 2 && |cs[1]| == 2 && |cs[2]| == 9 && |cs[3]| == 2 && |cs[4]| == 2 && |cs[5]| == 10
             && |cs[6]| == 2
    ensures Offset(cs, 0) == 0 && Offset(cs, 1) == 2 && Offset(cs, 2) == 4 && Offset(cs, 3) == 13 && Offset(cs, 4) == 15
    ensures Offset(cs, 5) == 17 && Offset(cs, 6) == 27 && Offset(cs, 7) == 29
  {
    hide Flatten;
    assert cs[..0] == [];
    assert Offset(cs, 0) == 0 by { NoFields(); }
    FlattenAt(cs, 0); FlattenAt(cs, 1); FlattenAt(cs, 2); FlattenAt(cs, 3); FlattenAt(cs, 4);
    FlattenAt(cs, 5); FlattenAt(cs, 6);
  }

  lemma NoFields()
    ensures Flatten([]) == []
  {
  }

  /** Position of the i-th capability. */
  function PosOf(d: Demand, i: nat): nat
    requires i <= |d.caps|
  {
    33 + |d.descriptor| + CapsSize(d.caps[..i])
  }

  // ---- The rewrite of a well-formed frame --------------------------------------------------------------------

  lemma ReadLe16(s: seq<byte>, at: nat, n: nat)
    requires at + 2 <= |s| && n < 0x1_0000 && s[at..at + 2] == Le16(n)
    ensures U16At(s, at) == n
  {
    assert s[at] == s[at..at + 2][0] && s[at + 1] == s[at..at + 2][1];
  }

  lemma Within(s: seq<byte>, a: nat, n: nat, k: nat)
    requires a + n <= |s| && k + 2 <= n
    ensures s[a..a + n][k..k + 2] == s[a + k..a + k + 2]
  {
    var t := s[a..a + n];
    assert t[k] == s[a + k] && t[k + 1] == s[a + k + 1];
    assert t[k..k + 2] == [t[k], t[k + 1]];
    assert s[a + k..a + k + 2] == [s[a + k], s[a + k + 1]];
  }

  lemma CapRead(d: Demand, i: nat)
    requires WellFormed(d) && i < |d.caps|
    ensures var (frame, p, c) := (Encode(d), PosOf(d, i), d.caps[i]);
            && p + 4 + |c.body| <= |frame| && U16At(frame, p) == c.kind && U16At(frame, p + 2) == 4 + |c.body|
            && PosOf(d, i + 1) == p + 4 + |c.body|
  {
    hide Flatten, Offset, Encode, Le16, CapsBytes, CapsSize, PosOf;
    var cs := Fields(d, i, LengthsOf(d, i), d.caps[i].body);
    EncodeIsFields(d, i);
    FieldOffsets(d, i, LengthsOf(d, i), d.caps[i].body);
    FieldRead(cs, 9);
    FieldRead(cs, 10);
    FieldRead(cs, 11);
    ReadLe16(Encode(d), PosOf(d, i), d.caps[i].kind);
    ReadLe16(Encode(d), PosOf(d, i) + 2, 4 + |d.caps[i].body|);
    NextPos(d, i);
  }

  lemma NextPos(d: Demand, i: nat)
    requires CapsFit(d.caps) && i < |d.caps|
    ensures PosOf(d, i + 1) == PosOf(d, i) + 4 + |d.caps[i].body|
  {
    var prefix := d.caps[..i + 1];
    CapsSplit(prefix, i);
    assert prefix[..i] == d.caps[..i] && prefix[i..] == [d.caps[i]];
    assert [d.caps[i]][1..] == [];
  }

  /** The rewrite around the i-th capability. */
  function WidenedAt(d: Demand, i: nat): seq<byte>
    requires WellFormed(d) && i < |d.caps| && Short(d.caps[i])
  {
    HeadRead(d);
    CapRead(d, i);
    Widened(Encode(d), 15, PosOf(d, i), 4 + |d.caps[i].body|)
  }

  lemma {:induction false} ScanFinds(d: Demand, i: nat)
    requires WellFormed(d) && i <= |d.caps|
    requires forall j :: 0 <= j < i ==> !Short(d.caps[j])
    ensures var (frame, t) := (Encode(d), FirstShort(d.caps));
            && |frame| >= 15
            && Scan(frame, 15, PosOf(d, i), |d.caps| - i) == if t.None? then Keep else Rewritten(WidenedAt(d, t.value))
    decreases |d.caps| - i
  {
    hide Encode, Widened, PosOf;
    HeadRead(d);
    if i < |d.caps| {
      CapRead(d, i);
      if !Short(d.caps[i]) {
        ScanFinds(d, i + 1);
      }
    }
  }

  /** The fields in front of the capabilities, where they stand. */
  lemma HeadFields(d: Demand)
    requires WellFormed(d)
    ensures var (frame, end) := (Encode(d), 33 + |d.descriptor|);
            && |frame| >= end
            && frame[0..2] == [3, d.version] && frame[4..13] == d.x224 + [0x68] + d.mcs
            && frame[13..15] == McsLength(UserSize(d))
            && frame[17..27] == d.control + Le16(|d.descriptor|)
            && frame[29..end] == d.descriptor + Le16(|d.caps|) + d.pad
  {
    hide Flatten, Offset, CapsBytes, CapsSize, Le16, McsLength;
    var n := UserSize(d);
    var h := HeadWith(d, 15 + n, n, n, 4 + CapsSize(d.caps));
    var cs := h + [CapsBytes(d.caps), d.tail];
    HeadIsFlat(d);
    HeadOffsets(cs);
    FieldRead(cs, 0); FieldRead(cs, 2); FieldRead(cs, 3); FieldRead(cs, 5); FieldRead(cs, 7);
  }

  lemma HeadRead(d: Demand)
    requires WellFormed(d)
    ensures var (frame, n) := (Encode(d), 29 + |d.descriptor|);
            && |frame| >= n + 4 && frame[0] == 3 && frame[7] == 0x68 && frame[13] >= 128
            && U16At(frame, 17) % 16 == 1 && U16At(frame, 25) == |d.descriptor| && U16At(frame, n) == |d.caps|
  {
    hide Encode, Le16, CapsSize;
    HeadFields(d);
    var frame, n := Encode(d), |d.descriptor|;
    assert frame[0] == frame[0..2][0] && frame[7] == frame[4..13][3] && frame[13] == frame[13..15][0];
    assert frame[17] == frame[17..27][0] == d.control[0] && frame[18] == frame[17..27][1] == d.control[1];
    Within(frame, 17, 10, 8);
    assert (d.control + Le16(n))[8..10] == Le16(n);
    ReadLe16(frame, 25, n);
    assert (d.descriptor + Le16(|d.caps|) + d.pad)[n..n + 2] == Le16(|d.caps|);
    Within(frame, 29, n + 4, n);
    ReadLe16(frame, 29 + n, |d.caps|);
  }

  lemma HeadIsFlat(d: Demand)
    requires WellFormed(d)
    ensures var n := UserSize(d);
            Encode(d) == Flatten(HeadWith(d, 15 + n, n, n, 4 + CapsSize(d.caps)) + [CapsBytes(d.caps), d.tail])
  {
    hide CapsBytes, CapsSize, HeadWith;
    var n := UserSize(d);
    var h := HeadWith(d, 15 + n, n, n, 4 + CapsSize(d.caps));
    FlattenConcat(h, [CapsBytes(d.caps), d.tail]);
    assert [CapsBytes(d.caps), d.tail][1..] == [d.tail] && [d.tail][1..] == [];
    assert Flatten([d.tail]) == d.tail;
    assert Flatten(h) + (CapsBytes(d.caps) + d.tail) == Flatten(h) + CapsBytes(d.caps) + d.tail;
  }

  /** The bytes of a frame whose lengths are `l`, and whose i-th capability has the given body. */
  function Image(d: Demand, i: nat, l: Lengths, body: seq<byte>): seq<byte>
    requires WellFormed(d) && i < |d.caps| && l.Fit()
  {
    Flatten(Fields(d, i, l, body))
  }

  /** The padding goes behind the capability's body. */
  lemma Padded(d: Demand, i: nat, l: Lengths, body: seq<byte>, zeros: seq<byte>)
    requires WellFormed(d) && i < |d.caps| && l.Fit()
    ensures var (s, at) := (Image(d, i, l, body), PosOf(d, i) + 4 + |body|);
            at <= |s| && s[..at] + zeros + s[at..] == Image(d, i, l, body + zeros)
  {
    hide Flatten, HeadWith, CapsBytes, Le16, PosOf;
    var a, b := Fields(d, i, l, body), Fields(d, i, l, body + zeros);
    FieldOffsets(d, i, l, body);
    FieldOffsets(d, i, l, body + zeros);
    FlattenAt(a, 11);
    FlattenAt(b, 11);
    SamePrefix(d, i, l, body, body + zeros);
    Inserted(Flatten(a[..11]), body, zeros, Flatten(a[12..]));
  }

  lemma SamePrefix(d: Demand, i: nat, l: Lengths, b1: seq<byte>, b2: seq<byte>)
    requires WellFormed(d) && i < |d.caps| && l.Fit()
    ensures var a, b := Fields(d, i, l, b1), Fields(d, i, l, b2);
            |a| == |b| == 14 && a[..11] == b[..11] && a[12..] == b[12..] && a[11] == b1 && b[11] == b2
  {
  }

  lemma Inserted(pre: seq<byte>, body: seq<byte>, zeros: seq<byte>, post: seq<byte>)
    ensures var (s, at) := (pre + body + post, |pre| + |body|);
            s[..at] + zeros + s[at..] == pre + (body + zeros) + post
  {
    var s := pre + body + post;
    assert s[..|pre| + |body|] == pre + body && s[|pre| + |body|..] == post;
  }

  /** What the rewriter reads of the lengths. */
  lemma LengthRead(d: Demand, i: nat, l: Lengths, body: seq<byte>)
    requires WellFormed(d) && i < |d.caps| && l.Fit() && l.mcs < 0x8000
    ensures var s := Image(d, i, l, body);
            && |s| >= 33 && U16At(s, 15) == l.total && U16At(s, 27) == l.combined
            && BigAt(s, 2) == l.tpkt && BigAt(s, 13) % 0x8000 == l.mcs && s[13] >= 128
  {
    hide Flatten, Offset, CapsBytes, Le16;
    var cs := Fields(d, i, l, body);
    FieldOffsets(d, i, l, body);
    FieldRead(cs, 1); FieldRead(cs, 3); FieldRead(cs, 4); FieldRead(cs, 6); FieldRead(cs, 7);
    var s := Flatten(cs);
    ReadLe16(s, 15, l.total);
    ReadLe16(s, 27, l.combined);
    assert s[2..4] == Be16(l.tpkt) && s[13..15] == McsLength(l.mcs);
    assert s[2] == s[2..4][0] && s[3] == s[2..4][1] && s[13] == s[13..15][0] && s[14] == s[13..15][1];
    BigHalves(l.tpkt);
    BigHalves(l.mcs);
  }

  lemma BigHalves(n: nat)
    ensures n == 256 * (n / 256) + n % 256
    ensures n < 0x8000 ==> n / 256 % 128 == n / 256 && (256 * (128 + n / 256) + n % 256) % 0x8000 == n
  {
  }

  // Each patch raises one length.

  lemma CapStep(d: Demand, i: nat, l: Lengths, body: seq<byte>, v: nat)
    requires WellFormed(d) && i < |d.caps| && l.Fit() && v < 0x1_0000
    ensures var s := Image(d, i, l, body);
            PosOf(d, i) + 4 <= |s| && Patch(s, PosOf(d, i) + 2, Le16(v)) == Image(d, i, l.(cap := v), body)
  {
    var cs := Fields(d, i, l, body);
    assert Fields(d, i, l.(cap := v), body) == cs[10 := Le16(v)];
    hide Fields, Flatten, Patch, Le16, PosOf;
    FieldOffsets(d, i, l, body);
    FieldWritten(cs, 10, Le16(v));
  }

  lemma CombinedStep(d: Demand, i: nat, l: Lengths, body: seq<byte>, v: nat)
    requires WellFormed(d) && i < |d.caps| && l.Fit() && v < 0x1_0000
    ensures var s := Image(d, i, l, body); 29 <= |s| && Patch(s, 27, Le16(v)) == Image(d, i, l.(combined := v), body)
  {
    var cs := Fields(d, i, l, body);
    assert Fields(d, i, l.(combined := v), body) == cs[6 := Le16(v)];
    hide Fields, Flatten, Patch, Le16, PosOf;
    FieldOffsets(d, i, l, body);
    FieldWritten(cs, 6, Le16(v));
  }

  lemma TotalStep(d: Demand, i: nat, l: Lengths, body: seq<byte>, v: nat)
    requires WellFormed(d) && i < |d.caps| && l.Fit() && v < 0x1_0000
    ensures var s := Image(d, i, l, body); 17 <= |s| && Patch(s, 15, Le16(v)) == Image(d, i, l.(total := v), body)
  {
    var cs := Fields(d, i, l, body);
    assert Fields(d, i, l.(total := v), body) == cs[4 := Le16(v)];
    hide Fields, Flatten, Patch, Le16, PosOf;
    FieldOffsets(d, i, l, body);
    FieldWritten(cs, 4, Le16(v));
  }

  lemma McsStep(d: Demand, i: nat, l: Lengths, body: seq<byte>, v: nat)
    requires WellFormed(d) && i < |d.caps| && l.Fit()
    ensures var s := Image(d, i, l, body); 15 <= |s| && Patch(s, 13, McsLength(v)) == Image(d, i, l.(mcs := v), body)
  {
    var cs := Fields(d, i, l, body);
    assert Fields(d, i, l.(mcs := v), body) == cs[3 := McsLength(v)];
    hide Fields, Flatten, Patch, McsLength, PosOf;
    FieldOffsets(d, i, l, body);
    FieldWritten(cs, 3, McsLength(v));
  }

  lemma TpktStep(d: Demand, i: nat, l: Lengths, body: seq<byte>, v: nat)
    requires WellFormed(d) && i < |d.caps| && l.Fit() && v < 0x1_0000
    ensures var s := Image(d, i, l, body); 4 <= |s| && Patch(s, 2, Be16(v)) == Image(d, i, l.(tpkt := v), body)
  {
    var cs := Fields(d, i, l, body);
    assert Fields(d, i, l.(tpkt := v), body) == cs[1 := Be16(v)];
    hide Fields, Flatten, Patch, Be16, PosOf;
    FieldOffsets(d, i, l, body);
    FieldWritten(cs, 1, Be16(v));
  }

  /** Around a well-formed frame's short capability, the rewriter computes the encoding of the padded demand. */
  lemma WidenedIsEncode(d: Demand, i: nat)
    requires WellFormed(d) && i < |d.caps| && Short(d.caps[i])
             && UserSize(d) + REV2_FULL - 4 - |d.caps[i].body| < 0x8000
    ensures var e := d.(caps := d.caps[i := Full(d.caps[i])]);
            WellFormed(e) && WidenedAt(d, i) == Encode(e)
  {
    hide Encode, Image, Patch, CapsBytes, CapsSize, Zeros, UserSize, WellFormed, PosOf, Le16, Be16, McsLength, U16At,
         BigAt, LengthsOf;
    var c := d.caps[i];
    var pad, n := REV2_FULL - 4 - |c.body|, UserSize(d);
    var body := c.body + Zeros(pad);
    var l0 := LengthsOf(d, i);
    LengthsAre(d, i);
    EncodeIsFields(d, i);
    HeadRead(d);
    CapRead(d, i);
    LengthRead(d, i, l0, c.body);
    Padded(d, i, l0, c.body, Zeros(pad));
    var l1 := l0.(cap := REV2_FULL);
    CapStep(d, i, l0, body, REV2_FULL);
    LengthRead(d, i, l1, body);
    var l2 := l1.(combined := l0.combined + pad);
    CombinedStep(d, i, l1, body, l0.combined + pad);
    LengthRead(d, i, l2, body);
    var l3 := l2.(total := n + pad);
    TotalStep(d, i, l2, body, n + pad);
    var l4 := l3.(mcs := n + pad);
    McsStep(d, i, l3, body, n + pad);
    TpktStep(d, i, l4, body, 15 + n + pad);
    EncodeFull(d, i);
  }

  lemma LengthsAre(d: Demand, i: nat)
    requires WellFormed(d) && i < |d.caps|
    ensures var (l, n) := (LengthsOf(d, i), UserSize(d));
            l == Lengths(15 + n, n, n, 4 + CapsSize(d.caps), 4 + |d.caps[i].body|) && l.combined + 14 <= n < 0x8000
  {
  }

  /** Padding one capability adds its bytes to the sizes and changes nothing else. */
  lemma EncodeFull(d: Demand, i: nat)
    requires WellFormed(d) && i < |d.caps| && Short(d.caps[i])
             && UserSize(d) + REV2_FULL - 4 - |d.caps[i].body| < 0x8000
    ensures var pad := REV2_FULL - 4 - |d.caps[i].body|;
            var e := d.(caps := d.caps[i := Full(d.caps[i])]);
            var l := Lengths(15 + UserSize(d) + pad, UserSize(d) + pad, UserSize(d) + pad, 4 + CapsSize(d.caps) + pad,
                             REV2_FULL);
            && WellFormed(e) && l.Fit()
            && Encode(e) == Image(d, i, l, d.caps[i].body + Zeros(pad))
  {
    hide CapsBytes, CapsSize, Flatten, Encode;
    var pad := REV2_FULL - 4 - |d.caps[i].body|;
    var e := d.(caps := d.caps[i := Full(d.caps[i])]);
    LengthsAre(d, i);
    FullSize(d, i);
    EncodeIsFields(e, i);
    assert e.caps[..i] == d.caps[..i] && e.caps[i + 1..] == d.caps[i + 1..];
  }

  lemma FullSize(d: Demand, i: nat)
    requires WellFormed(d) && i < |d.caps| && Short(d.caps[i])
    ensures var caps := d.caps[i := Full(d.caps[i])];
            CapsFit(caps) && CapsSize(caps) == CapsSize(d.caps) + REV2_FULL - 4 - |d.caps[i].body|
  {
    hide CapsSize;
    var caps := d.caps[i := Full(d.caps[i])];
    CapsSplit(d.caps, i);
    CapsSplit(caps, i);
    assert caps[..i] == d.caps[..i] && caps[i..][1..] == d.caps[i..][1..];
    CapsCons(d.caps[i..]);
    CapsCons(caps[i..]);
  }

  // ---- Main results ------------------------------------------------------------------------------------------------

  /** There is room for the padding in every length field. */
  predicate HasRoom(d: Demand)
    requires WellFormed(d)
  {
    FirstShort(d.caps).None? || UserSize(WidenFirst(d)) < 0x8000
  }

  /** For every well-formed DemandActive with room for the padding, the rewriter returns the encoding, with all its
      lengths consistent, of the same demand with the first short Rev2 capability padded; without such a capability it
      keeps the frame. */
  lemma FixPadsFirst(d: Demand)
    requires WellFormed(d) && HasRoom(d)
    ensures WellFormed(WidenFirst(d))
    ensures FixOf(Encode(d)) == if FirstShort(d.caps).None? then Keep else Rewritten(Encode(WidenFirst(d)))
  {
    hide Encode, Widened, Scan;
    HeadRead(d);
    ScanFinds(d, 0);
    assert d.caps[..0] == [];
    NoCaps();
    var t := FirstShort(d.caps);
    if t.Some? {
      FullSize(d, t.value);
      WidenedIsEncode(d, t.value);
    }
  }

  function ShortCount(caps: seq<Cap>): nat {
    if caps == [] then 0 else ShortCount(caps[1..]) + if Short(caps[0]) then 1 else 0
  }

  lemma {:induction false} CountNone(caps: seq<Cap>)
    ensures FirstShort(caps).None? <==> ShortCount(caps) == 0
  {
    if caps != [] {
      CountNone(caps[1..]);
    }
  }

  lemma {:induction false} CountDrops(caps: seq<Cap>)
    requires FirstShort(caps).Some?
    ensures var i := FirstShort(caps).value; ShortCount(caps[i := Full(caps[i])]) == ShortCount(caps) - 1
  {
    var i := FirstShort(caps).value;
    var after := caps[i := Full(caps[i])];
    if i > 0 {
      CountDrops(caps[1..]);
      assert after[1..] == caps[1..][i - 1 := Full(caps[i])];
    } else {
      assert after[1..] == caps[1..];
    }
  }

  /** Run again, it finds nothing exactly when there was at most one short capability. */
  lemma RerunKeepsIff(d: Demand)
    requires WellFormed(d) && HasRoom(d) && WellFormed(WidenFirst(d)) && HasRoom(WidenFirst(d))
    ensures FixOf(Encode(WidenFirst(d))) == Keep <==> ShortCount(d.caps) <= 1
  {
    hide Encode, FixOf;
    FixPadsFirst(WidenFirst(d));
    CountNone(d.caps);
    CountNone(WidenFirst(d).caps);
    if FirstShort(d.caps).Some? {
      CountDrops(d.caps);
    }
  }

  // ---- Where the lengths stop being consistent --------------------------------------------------

  /** On any frame whose TPKT length is right, it stays right exactly while the frame is shorter than 64K. */
  lemma TpktStaysRightIff(frame: seq<byte>)
    requires FixOf(frame).Rewritten? && BigAt(frame, 2) == |frame|
    ensures var out := FixOf(frame).out; |out| >= 4 && (BigAt(out, 2) == |out| <==> |out| < 0x1_0000)
  {
    hide Scan, Widened, BigAt, U16At;
    var sc := if frame[13] >= 128 then 15 else 14;
    var caps := sc + 14 + U16At(frame, sc + 10);
    var p, clen := ScanPlace(frame, sc, caps + 4, U16At(frame, caps));
    LastPatch(frame, sc, p, clen);
  }

  lemma {:induction false} ScanPlace(frame: seq<byte>, sc: nat, p: nat, left: nat) returns (q: nat, clen: nat)
    requires sc in {14, 15} && sc + 18 <= p && 15 <= |frame| && Scan(frame, sc, p, left).Rewritten?
    ensures p <= q && q + 4 <= |frame| && q + clen <= |frame| && clen < REV2_FULL
    ensures Scan(frame, sc, p, left).out == Widened(frame, sc, q, clen)
    decreases left
  {
    hide Widened;
    q, clen := p, U16At(frame, p + 2);
    if !(U16At(frame, p) == REV2_TYPE && clen < REV2_FULL) {
      q, clen := ScanPlace(frame, sc, p + clen, left - 1);
    }
  }

  lemma LastPatch(frame: seq<byte>, sc: nat, p: nat, clen: nat)
    requires sc in {14, 15} && sc + 18 <= p && p + 4 <= |frame| && p + clen <= |frame| && clen < REV2_FULL
    ensures BigAt(Widened(frame, sc, p, clen), 2) == Grown16(BigAt(frame, 2), REV2_FULL - clen)
  {
    hide Zeros, McsLength, Le16;
    BigHalves(Grown16(BigAt(frame, 2), REV2_FULL - clen));
  }

  /** The MCS length tells the bytes behind it. */
  predicate McsRight(frame: seq<byte>)
    requires |frame| >= 15
  {
    if frame[13] >= 128 then BigAt(frame, 13) % 0x8000 == |frame| - 15 else frame[13] == |frame| - 14
  }

  /** A right MCS length stays right exactly in the two-byte form, below 32K. */
  lemma McsStaysRightIff(frame: seq<byte>)
    requires FixOf(frame).Rewritten? && McsRight(frame)
    ensures var out := FixOf(frame).out; |out| >= 15 && (McsRight(out) <==> frame[13] >= 128 && |out| - 15 < 0x8000)
  {
    hide Scan, Widened, BigAt, U16At;
    var sc := if frame[13] >= 128 then 15 else 14;
    var caps := sc + 14 + U16At(frame, sc + 10);
    var p, clen := ScanPlace(frame, sc, caps + 4, U16At(frame, caps));
    McsPatched(frame, sc, p, clen);
  }

  lemma McsPatched(frame: seq<byte>, sc: nat, p: nat, clen: nat)
    requires |frame| >= 15 && sc == (if frame[13] >= 128 then 15 else 14) && sc + 18 <= p && p + 4 <= |frame|
             && p + clen <= |frame| && clen < REV2_FULL
    ensures var out := Widened(frame, sc, p, clen);
            && (frame[13] < 128 ==> out[13] == frame[13])
            && (frame[13] >= 128 ==>
                  && out[13] >= 128
                  && BigAt(out, 13) % 0x8000 == (BigAt(frame, 13) % 0x8000 + REV2_FULL - clen) % 0x8000)
  {
    hide Zeros, Le16, Be16, BigAt, U16At, Grown16, McsLength;
    var out := Widened(frame, sc, p, clen);
    if frame[13] >= 128 {
      var m := McsLength(BigAt(frame, 13) % 0x8000 + (REV2_FULL - clen));
      assert out[13] == m[0] && out[14] == m[1];
      McsReads(out, BigAt(frame, 13) % 0x8000 + (REV2_FULL - clen));
    } else {
      var pad := REV2_FULL - clen;
      var o0 := frame[..p + clen] + Zeros(pad) + frame[p + clen..];
      var o1 := Patch(o0, p + 2, Le16(REV2_FULL));
      var o2 := Patch(o1, sc + 12, Le16(Grown16(U16At(o1, sc + 12), pad)));
      var o3 := Patch(o2, sc, Le16(Grown16(U16At(o2, sc), pad)));
      assert o0[13] == o1[13] == o2[13] == o3[13];
    }
  }

  lemma McsReads(s: seq<byte>, n: nat)
    requires |s| >= 15 && s[13] == McsLength(n)[0] && s[14] == McsLength(n)[1]
    ensures s[13] >= 128 && BigAt(s, 13) % 0x8000 == n % 0x8000
  {
    var m := n / 256;
    var k := m % 128;
    assert n == 256 * m + n % 256 && m == 128 * (m / 128) + k;
    LowFifteen(m / 128, k, n % 256);
    assert BigAt(s, 13) == 0x8000 + (256 * k + n % 256);
  }

  lemma LowFifteen(q: nat, k: nat, r: nat)
    requires k < 128 && r < 256
    ensures var n := 0x8000 * q + 256 * k + r; n / 256 % 128 == k && n % 256 == r && n % 0x8000 == 256 * k + r
  {
    assert (0x8000 * q + 256 * k + r) / 256 == 128 * q + k;
  }
}
