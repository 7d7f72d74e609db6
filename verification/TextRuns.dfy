/**
 Where the glyphs of a text run land: an encoder of runs over glyphs, stored fragments and replays, and the position
 law of its bytes as sums of advances. Sections 2.2.2.2.1.1.2.13 to 2.2.2.2.1.1.2.15 of MS-RDPEGDI.
 */
module TextRuns {
  import opened Options
  import opened Bits
  import opened Tables
  import opened Glyphs

  // ---- The encoder -----------------------------------------------------------------------

  /** With a fixed advance none are sent. An advance goes out in one byte, or wide behind the byte 0x80. */
  datatype Item =
    | PutGlyph(index: byte, advance: nat, wide: bool)
    | Store(id: byte, size: byte)
    | Replay(id: byte, advance: nat, wide: bool)

  predicate Legal(it: Item) {
    match it
    case PutGlyph(index, a, wide) => index < 0xFE && a < 65536 && (wide || (a < 256 && a != 0x80))
    case Store(_, _) => true
    case Replay(_, a, wide) => a < 65536 && (wide || (a < 256 && a != 0x80))
  }

  function Sent(a: nat, wide: bool, fixed: bool): seq<byte>
    requires a < 65536 && (wide || (a < 256 && a != 0x80))
  {
    if fixed then [] else if wide then [0x80, a % 256, a / 256] else [a]
  }

  function ItemCode(it: Item, fixed: bool): seq<byte>
    requires Legal(it)
  {
    match it
    case PutGlyph(index, a, wide) => [index] + Sent(a, wide, fixed)
    case Store(id, size) => [0xFF, id, size]
    case Replay(id, a, wide) => [0xFE, id] + Sent(a, wide, fixed)
  }

  function RunCode(items: seq<Item>, fixed: bool): seq<byte>
    requires forall it <- items :: Legal(it)
  {
    if items == [] then []
    else RunCode(items[..|items| - 1], fixed) + ItemCode(items[|items| - 1], fixed)
  }

  // ---- What the bytes of a run ask for ------------------------------------------------------

  datatype Op = Place(index: byte, advance: nat) | Keep(id: byte, bytes: seq<byte>) | Again(id: byte, advance: nat)

  /** The last `n` bytes, or all there are. */
  function Last(s: seq<byte>, n: nat): seq<byte> {
    if n <= |s| then s[|s| - n..] else s
  }

  /** An item behind the bytes `before`: a fragment holds the last of them. */
  function OpOf(it: Item, before: seq<byte>, fixed: bool): Op {
    match it
    case PutGlyph(index, a, _) => Place(index, if fixed then 0 else a)
    case Store(id, size) => Keep(id, Last(before, size))
    case Replay(id, a, _) => Again(id, if fixed then 0 else a)
  }

  function OpsOf(items: seq<Item>, fixed: bool): seq<Op>
    requires forall it <- items :: Legal(it)
  {
    seq(|items|, k requires 0 <= k < |items| => OpOf(items[k], RunCode(items[..k], fixed), fixed))
  }

  /** Any bytes, as found in a fragment that was cut out of a run. */
  function Ops(data: seq<byte>, i: nat, fixed: bool): seq<Op>
    decreases |data| - i
  {
    if i >= |data| then []
    else if data[i] == 0xFF then
      if i + 2 < |data| then [Keep(data[i + 1], Last(data[..i], data[i + 2]))] + Ops(data, i + 3, fixed) else []
    else if data[i] == 0xFE then
      if i + 1 < |data| then
        var a := if fixed then (0, i + 2) else GlyphDelta(data, i + 2);
        [Again(data[i + 1], a.0)] + Ops(data, a.1, fixed)
      else []
    else
      var a := if fixed then (0, i + 1) else GlyphDelta(data, i + 1);
      [Place(data[i], a.0)] + Ops(data, a.1, fixed)
  }

  /** An advance that is missing or cut off counts as zero. */
  lemma CutAdvance(data: seq<byte>, i: nat)
    ensures i >= |data| ==> GlyphDelta(data, i) == (0, i)
    ensures i < |data| < i + 3 && data[i] == 0x80 ==> GlyphDelta(data, i) == (0, i + 1)
  {
  }

  lemma SentIsRead(a: nat, wide: bool, data: seq<byte>, i: nat)
    requires a < 65536 && (wide || (a < 256 && a != 0x80))
    requires var c := Sent(a, wide, false); i + |c| <= |data| && data[i..i + |c|] == c
    ensures GlyphDelta(data, i) == (a, i + |Sent(a, wide, false)|)
  {
    var c := Sent(a, wide, false);
    assert data[i] == data[i..i + |c|][0];
    if wide {
      assert data[i + 1] == data[i..i + |c|][1] && data[i + 2] == data[i..i + |c|][2];
    }
  }

  /** Where item `k` stands in the bytes of its run. */
  lemma {:induction false} ItemStands(items: seq<Item>, k: nat, fixed: bool)
    requires k < |items| && forall it <- items :: Legal(it)
    ensures var (d, a, b) := (RunCode(items, fixed), RunCode(items[..k], fixed), ItemCode(items[k], fixed));
            && RunCode(items[..k + 1], fixed) == a + b
            && a + b <= d
    decreases |items|
  {
    hide ItemCode;
    var n := |items| - 1;
    assert items[..k + 1][..k] == items[..k];
    if k == n {
      assert items[..k + 1] == items;
    } else {
      ItemStands(items[..n], k, fixed);
      assert items[..n][..k] == items[..k] && items[..n][..k + 1] == items[..k + 1];
    }
  }

  lemma PrefixParts(a: seq<byte>, b: seq<byte>, d: seq<byte>)
    requires a + b <= d
    ensures |a| + |b| <= |d| && d[..|a|] == a && d[|a|..|a| + |b|] == b
  {
    assert d[..|a| + |b|] == a + b;
  }

  /** The bytes of a run ask for exactly its items. */
  lemma {:induction false} RunIsRead(items: seq<Item>, k: nat, fixed: bool)
    requires k <= |items| && forall it <- items :: Legal(it)
    ensures Ops(RunCode(items, fixed), |RunCode(items[..k], fixed)|, fixed) == OpsOf(items, fixed)[k..]
    decreases |items| - k
  {
    hide GlyphDelta, RunCode, Ops, OpOf, ItemCode;
    var d, i := RunCode(items, fixed), |RunCode(items[..k], fixed)|;
    if k == |items| {
      assert items[..k] == items;
      OpsStep(d, i, fixed);
    } else {
      ItemStands(items, k, fixed);
      var code := ItemCode(items[k], fixed);
      PrefixParts(RunCode(items[..k], fixed), code, d);
      OneItemRead(items[k], fixed, d, i);
      RunIsRead(items, k + 1, fixed);
      assert OpsOf(items, fixed)[k..] == [OpsOf(items, fixed)[k]] + OpsOf(items, fixed)[k + 1..];
    }
  }

  lemma GlyphRead(it: Item, fixed: bool, d: seq<byte>, i: nat)
    requires Legal(it) && it.PutGlyph?
    requires var c := ItemCode(it, fixed); i + |c| <= |d| && d[i..i + |c|] == c
    ensures Ops(d, i, fixed) == [OpOf(it, d[..i], fixed)] + Ops(d, i + |ItemCode(it, fixed)|, fixed)
  {
    hide GlyphDelta, Last, Sent, Ops;
    var c := ItemCode(it, fixed);
    OpsStep(d, i, fixed);
    SameBytes(c, d, i);
    assert d[i] == c[0];
    SentBehind(it.advance, it.wide, fixed, [it.index], d, i);
  }

  lemma StoreRead(it: Item, fixed: bool, d: seq<byte>, i: nat)
    requires Legal(it) && it.Store?
    requires var c := ItemCode(it, fixed); i + |c| <= |d| && d[i..i + |c|] == c
    ensures Ops(d, i, fixed) == [OpOf(it, d[..i], fixed)] + Ops(d, i + |ItemCode(it, fixed)|, fixed)
  {
    hide GlyphDelta, Last, Sent, Ops;
    var c := ItemCode(it, fixed);
    OpsStep(d, i, fixed);
    SameBytes(c, d, i);
    assert d[i] == c[0];
    assert d[i + 1] == c[1] && d[i + 2] == c[2];
  }

  lemma ReplayRead(it: Item, fixed: bool, d: seq<byte>, i: nat)
    requires Legal(it) && it.Replay?
    requires var c := ItemCode(it, fixed); i + |c| <= |d| && d[i..i + |c|] == c
    ensures Ops(d, i, fixed) == [OpOf(it, d[..i], fixed)] + Ops(d, i + |ItemCode(it, fixed)|, fixed)
  {
    hide GlyphDelta, Last, Sent, Ops;
    var c := ItemCode(it, fixed);
    OpsStep(d, i, fixed);
    SameBytes(c, d, i);
    assert d[i] == c[0];
    assert d[i + 1] == c[1];
    SentBehind(it.advance, it.wide, fixed, [0xFE, it.id], d, i);
  }

  lemma OneItemRead(it: Item, fixed: bool, d: seq<byte>, i: nat)
    requires Legal(it)
    requires var c := ItemCode(it, fixed); i + |c| <= |d| && d[i..i + |c|] == c
    ensures Ops(d, i, fixed) == [OpOf(it, d[..i], fixed)] + Ops(d, i + |ItemCode(it, fixed)|, fixed)
  {
    hide ItemCode, Ops, OpOf;
    match it
    case PutGlyph(_, _, _) => GlyphRead(it, fixed, d, i);
    case Store(_, _) => StoreRead(it, fixed, d, i);
    case Replay(_, _, _) => ReplayRead(it, fixed, d, i);
  }

  lemma OpsStep(data: seq<byte>, i: nat, fixed: bool)
    ensures var a1 := if fixed then (0, i + 1) else GlyphDelta(data, i + 1);
            var a2 := if fixed then (0, i + 2) else GlyphDelta(data, i + 2);
            Ops(data, i, fixed) ==
            if i >= |data| then []
            else if data[i] == 0xFF then
              if i + 2 < |data| then [Keep(data[i + 1], Last(data[..i], data[i + 2]))] + Ops(data, i + 3, fixed) else []
            else if data[i] == 0xFE then
              if i + 1 < |data| then [Again(data[i + 1], a2.0)] + Ops(data, a2.1, fixed) else []
            else [Place(data[i], a1.0)] + Ops(data, a1.1, fixed)
  {
  }

  lemma SameBytes(c: seq<byte>, d: seq<byte>, i: nat)
    requires i + |c| <= |d| && d[i..i + |c|] == c
    ensures forall j {:trigger c[j]} :: 0 <= j < |c| ==> d[i + j] == c[j]
  {
    forall j | 0 <= j < |c|
      ensures d[i + j] == c[j]
    {
      assert d[i + j] == d[i..i + |c|][j];
    }
  }

  lemma SentBehind(a: nat, wide: bool, fixed: bool, head: seq<byte>, d: seq<byte>, i: nat)
    requires a < 65536 && (wide || (a < 256 && a != 0x80))
    requires var c := head + Sent(a, wide, fixed); i + |c| <= |d| && d[i..i + |c|] == c
    ensures fixed ==> Sent(a, wide, fixed) == []
    ensures !fixed ==> GlyphDelta(d, i + |head|) == (a, i + |head| + |Sent(a, wide, fixed)|)
  {
    if !fixed {
      var t := Sent(a, wide, fixed);
      var j := i + |head|;
      assert d[j..j + |t|] == d[i..j + |t|][|head|..] == t;
      SentIsRead(a, wide, d, j);
    }
  }

  // ---- Steps of the pen ---------------------------------------------------------------------

  /** A glyph painted at the pen, if any, and how far the pen moves after it. */
  datatype Step = Step(glyph: Option<Glyph>, advance: nat)

  /** The fragment cache by id; one never stored is empty. */
  type Book = b: seq<seq<byte>> | |b| == 256 witness seq(256, _ => [])

  function BookOf(fs: Fragments): Book {
    seq(256, id requires 0 <= id => if id < |fs| then fs[id] else [])
  }

  /** An index that is not cached paints nothing and leaves the pen where it is. */
  function GlyphStep(font: Font, index: byte, advance: nat): Step {
    var g := Lookup(font.glyphs, font.cacheId, index);
    Step(g, if g.None? then 0 else if font.charInc != 0 then font.charInc else advance)
  }

  /** The steps of a run, with replays unfolded up to eight deep, and the fragments it leaves. */
  function Steps(font: Font, book: Book, ops: seq<Op>, depth: nat): (seq<Step>, Book)
    requires depth <= 8
    decreases 8 - depth, |ops|
  {
    if ops == [] then ([], book)
    else match ops[0]
      case Place(index, a) =>
        var rest := Steps(font, book, ops[1..], depth);
        ([GlyphStep(font, index, a)] + rest.0, rest.1)
      case Keep(id, bytes) =>
        var rest := Steps(font, book[id := bytes], ops[1..], depth);
        ([Step(None, 0)] + rest.0, rest.1)
      case Again(id, a) =>
        var inner := if depth == 8 then ([], book)
                     else Steps(font, book, Ops(book[id], 0, font.charInc != 0), depth + 1);
        var rest := Steps(font, inner.1, ops[1..], depth);
        (inner.0 + [Step(None, a)] + rest.0, rest.1)
  }

  function Sum(steps: seq<Step>): nat {
    if steps == [] then 0 else steps[0].advance + Sum(steps[1..])
  }

  function Count(steps: seq<Step>): nat {
    if steps == [] then 0 else (if steps[0].glyph.Some? then 1 else 0) + Count(steps[1..])
  }

  lemma {:induction false} SumJoin(a: seq<Step>, b: seq<Step>)
    ensures Sum(a + b) == Sum(a) + Sum(b) && Count(a + b) == Count(a) + Count(b)
    decreases |a|
  {
    if a == [] {
      assert a + b == b;
    } else {
      assert (a + b)[1..] == a[1..] + b;
      SumJoin(a[1..], b);
    }
  }

  /** The glyphs painted, in order: each at the pen's start plus all advances before it, shifted by its bearing. */
  ghost predicate Positions(ds: seq<Draw>, steps: seq<Step>, x: int, y: int) {
    && |ds| == Count(steps)
    && forall j {:trigger steps[j]} :: 0 <= j < |steps| && steps[j].glyph.Some? ==>
         var (k, g) := (Count(steps[..j]), steps[j].glyph.value);
         k < |ds| && ds[k] == Draw(x + Sum(steps[..j]) + g.x, y + g.y, g)
  }

  lemma NoPositions(x: int, y: int)
    ensures Positions([], [], x, y)
  {
  }

  lemma OnePosition(s: Step, x: int, y: int)
    ensures Positions(if s.glyph.Some? then [Draw(x + s.glyph.value.x, y + s.glyph.value.y, s.glyph.value)] else [],
                      [s], x, y)
    ensures Sum([s]) == s.advance
  {
    assert [s][1..] == [] && [s][..0] == [];
    assert Sum([s][..0]) == 0 && Count([s][..0]) == 0;
  }

  lemma PositionsJoin(ds: seq<Draw>, es: seq<Draw>, a: seq<Step>, b: seq<Step>, x: int, y: int)
    requires Positions(ds, a, x, y) && Positions(es, b, x + Sum(a), y)
    ensures Positions(ds + es, a + b, x, y) && Sum(a + b) == Sum(a) + Sum(b)
  {
    hide Sum, Count;
    var c := a + b;
    SumJoin(a, b);
    forall j | 0 <= j < |c| && c[j].glyph.Some?
      ensures var (k, g) := (Count(c[..j]), c[j].glyph.value);
              k < |ds + es| && (ds + es)[k] == Draw(x + Sum(c[..j]) + g.x, y + g.y, g)
    {
      if j < |a| {
        assert c[..j] == a[..j] && c[j] == a[j];
      } else {
        RightPosition(ds, es, a, b, x, y, j - |a|);
        assert c[..j] == a + b[..j - |a|] && c[j] == b[j - |a|];
      }
    }
  }

  lemma RightPosition(ds: seq<Draw>, es: seq<Draw>, a: seq<Step>, b: seq<Step>, x: int, y: int, j: nat)
    requires |ds| == Count(a) && Positions(es, b, x + Sum(a), y) && j < |b| && b[j].glyph.Some?
    ensures var (k, g) := (Count(a + b[..j]), b[j].glyph.value);
            k < |ds + es| && (ds + es)[k] == Draw(x + Sum(a + b[..j]) + g.x, y + g.y, g)
  {
    hide Sum, Count;
    SumJoin(a, b[..j]);
    var k := Count(b[..j]);
    assert (ds + es)[|ds| + k] == es[k];
  }

  // ---- The law --------------------------------------------------------------------------------

  /** `pen` became `r`: the steps were made from its position, the fragments are those of the book. */
  ghost predicate Made(font: Font, pen: Pen, r: Pen, steps: seq<Step>, book: Book) {
    && pen.draws <= r.draws
    && Positions(r.draws[|pen.draws|..], steps, pen.gx, font.y)
    && r.gx == pen.gx + Sum(steps)
    && BookOf(r.fragments) == book
  }

  lemma MadeJoin(font: Font, p: Pen, q: Pen, r: Pen, a: seq<Step>, b: seq<Step>, book: Book, book': Book)
    requires Made(font, p, q, a, book) && Made(font, q, r, b, book')
    ensures Made(font, p, r, a + b, book')
  {
    hide Positions, BookOf, Sum;
    var n, m := |p.draws|, |q.draws|;
    PositionsJoin(q.draws[n..], r.draws[m..], a, b, p.gx, font.y);
    SplitAt(p.draws, q.draws, r.draws);
  }

  lemma SplitAt(a: seq<Draw>, b: seq<Draw>, c: seq<Draw>)
    requires a <= b <= c
    ensures a <= c && c[|a|..] == b[|a|..] + c[|b|..]
  {
  }

  lemma MadeNothing(font: Font, pen: Pen)
    ensures Made(font, pen, pen, [], BookOf(pen.fragments))
  {
  }

  lemma MadeShift(font: Font, pen: Pen, a: nat)
    ensures Made(font, pen, pen.(gx := pen.gx + a), [Step(None, a)], BookOf(pen.fragments))
  {
    OnePosition(Step(None, a), pen.gx, font.y);
  }

  lemma MadeGlyph(font: Font, pen: Pen, index: byte, a: nat)
    ensures var g := Lookup(font.glyphs, font.cacheId, index);
            Made(font, pen, Drawn(font, pen, g, if font.charInc != 0 then font.charInc as int else a),
                 [GlyphStep(font, index, a)], BookOf(pen.fragments))
  {
    OnePosition(GlyphStep(font, index, a), pen.gx, font.y);
  }

  lemma MadeKeep(font: Font, pen: Pen, id: byte, bytes: seq<byte>)
    ensures Made(font, pen, pen.(fragments := WithFragment(pen.fragments, id, bytes)), [Step(None, 0)],
                 BookOf(pen.fragments)[id := bytes])
  {
    var fs := WithFragment(pen.fragments, id, bytes);
    assert BookOf(fs) == BookOf(pen.fragments)[id := bytes];
    OnePosition(Step(None, 0), pen.gx, font.y);
  }

  /** For any bytes, from any pen and fragment cache. */
  lemma {:induction false} BytesLaw(font: Font, data: seq<byte>, i: nat, pen: Pen, depth: nat)
    requires depth <= 8
    ensures var s := Steps(font, BookOf(pen.fragments), Ops(data, i, font.charInc != 0), depth);
            Made(font, pen, Process(font, data, i, pen, depth), s.0, s.1)
    decreases 8 - depth, |data| - i, 1
  {
    hide Made, BookOf, GlyphStep, Drawn, Lookup, WithFragment, GlyphDelta;
    var fixed := font.charInc != 0;
    var r := Process(font, data, i, pen, depth);
    var ops, book := Ops(data, i, fixed), BookOf(pen.fragments);
    if ops == [] {
      MadeNothing(font, pen);
    } else {
      var s := Steps(font, book, ops, depth);
      match ops[0]
      case Place(index, a) =>
        var next := if fixed then i + 1 else GlyphDelta(data, i + 1).1;
        var g := Lookup(font.glyphs, font.cacheId, index);
        var q := Drawn(font, pen, g, if fixed then font.charInc as int else a);
        MadeGlyph(font, pen, index, a);
        DrawnKeepsFragments(font, pen, g, if fixed then font.charInc as int else a);
        BytesLaw(font, data, next, q, depth);
        var rest := Steps(font, book, Ops(data, next, fixed), depth);
        assert ops[1..] == Ops(data, next, fixed);
        MadeJoin(font, pen, q, r, [GlyphStep(font, index, a)], rest.0, book, rest.1);
      case Keep(id, bytes) =>
        var q := pen.(fragments := WithFragment(pen.fragments, id, bytes));
        MadeKeep(font, pen, id, bytes);
        BookKept(pen.fragments, id, bytes);
        BytesLaw(font, data, i + 3, q, depth);
        var rest := Steps(font, book[id := bytes], Ops(data, i + 3, fixed), depth);
        assert ops[1..] == Ops(data, i + 3, fixed);
        MadeJoin(font, pen, q, r, [Step(None, 0)], rest.0, book[id := bytes], rest.1);
      case Again(id, a) =>
        ReplayLaw(font, data, i, pen, depth);
    }
  }

  lemma {:induction false} ReplayLaw(font: Font, data: seq<byte>, i: nat, pen: Pen, depth: nat)
    requires depth <= 8 && i + 1 < |data| && data[i] == 0xFE
    ensures var s := Steps(font, BookOf(pen.fragments), Ops(data, i, font.charInc != 0), depth);
            Made(font, pen, Process(font, data, i, pen, depth), s.0, s.1)
    decreases 8 - depth, |data| - i, 0
  {
    hide Made, BookOf, GlyphStep, Drawn, Lookup, WithFragment, GlyphDelta, FragmentIn;
    var fixed, book, id := font.charInc != 0, BookOf(pen.fragments), data[i + 1];
    var a := if fixed then (0, i + 2) else GlyphDelta(data, i + 2);
    var inner := if depth == 8 then ([], book) else Steps(font, book, Ops(book[id], 0, fixed), depth + 1);
    var q := Inside(font, pen, id, depth);
    if depth == 8 {
      MadeNothing(font, pen);
    } else {
      InsideIs(font, pen, id, depth);
      BytesLaw(font, book[id], 0, pen, depth + 1);
    }
    var q' := q.(gx := q.gx + a.0);
    MadeShift(font, q, a.0);
    MadeBook(font, pen, q, inner.0, inner.1);
    MadeJoin(font, pen, q, q', inner.0, [Step(None, a.0)], inner.1, inner.1);
    BytesLaw(font, data, a.1, q', depth);
    var rest := Steps(font, inner.1, Ops(data, a.1, fixed), depth);
    MadeJoin(font, pen, q', Process(font, data, i, pen, depth), inner.0 + [Step(None, a.0)], rest.0, inner.1, rest.1);
    assert Ops(data, i, fixed)[1..] == Ops(data, a.1, fixed);
  }

  /** The pen after the fragment of a replay. */
  function Inside(font: Font, pen: Pen, id: byte, depth: nat): Pen {
    var f := FragmentIn(pen.fragments, id);
    if f.Some? then Process(font, f.value, 0, pen, depth + 1) else pen
  }

  lemma InsideIs(font: Font, pen: Pen, id: byte, depth: nat)
    ensures depth >= 8 ==> Inside(font, pen, id, depth) == pen
    ensures Inside(font, pen, id, depth) == Process(font, BookOf(pen.fragments)[id], 0, pen, depth + 1)
  {
  }

  lemma MadeBook(font: Font, pen: Pen, r: Pen, steps: seq<Step>, book: Book)
    requires Made(font, pen, r, steps, book)
    ensures BookOf(r.fragments) == book
  {
  }

  lemma BookKept(fs: Fragments, id: byte, bytes: seq<byte>)
    ensures BookOf(WithFragment(fs, id, bytes)) == BookOf(fs)[id := bytes]
  {
    assert BookOf(WithFragment(fs, id, bytes)) == BookOf(fs)[id := bytes];
  }

  /** For any encoded run, from any pen and fragment cache, with fixed and with sent advances: each glyph stands at the
      pen's start plus the advances before it plus its bearing, the pen ends behind all advances, and every stored
      fragment holds the last bytes before its escape. */
  lemma RunLaw(font: Font, items: seq<Item>, pen: Pen)
    requires forall it <- items :: Legal(it)
    ensures var fixed := font.charInc != 0;
            var s := Steps(font, BookOf(pen.fragments), OpsOf(items, fixed), 0);
            Made(font, pen, Process(font, RunCode(items, fixed), 0, pen, 0), s.0, s.1)
  {
    hide Made, Steps, Process;
    var fixed := font.charInc != 0;
    RunIsRead(items, 0, fixed);
    assert RunCode(items[..0], fixed) == [];
    assert OpsOf(items, fixed)[0..] == OpsOf(items, fixed);
    BytesLaw(font, RunCode(items, fixed), 0, pen, 0);
  }

  // ---- Runs without replays -------------------------------------------------------------------

  /** One step per item: its glyph if cached, and the fixed or the sent advance. */
  function Moves(font: Font, items: seq<Item>): seq<Step> {
    seq(|items|, k requires 0 <= k < |items| =>
        if items[k].PutGlyph? then GlyphStep(font, items[k].index, items[k].advance) else Step(None, 0))
  }

  lemma {:induction false} PlainSteps(font: Font, book: Book, items: seq<Item>, n: nat)
    requires n <= |items| && forall it <- items :: Legal(it) && !it.Replay?
    ensures Steps(font, book, OpsOf(items, font.charInc != 0)[n..], 0).0 == Moves(font, items)[n..]
    decreases |items| - n
  {
    hide RunCode, Lookup, Last, Ops;
    var ops := OpsOf(items, font.charInc != 0);
    if n < |items| {
      assert items[n] in items;
      assert ops[n..][1..] == ops[n + 1..];
      PlainSteps(font, if items[n].Store? then book[items[n].id := ops[n].bytes] else book, items, n + 1);
      assert Moves(font, items)[n..] == [Moves(font, items)[n]] + Moves(font, items)[n + 1..];
    }
  }

  /** No item from `n` on stores under `id`. */
  ghost predicate NoStore(items: seq<Item>, n: nat, id: byte) {
    forall j {:trigger items[j]} :: n <= j < |items| ==> !(items[j].Store? && items[j].id == id)
  }

  lemma {:induction false} PlainBook(font: Font, book: Book, items: seq<Item>, n: nat, k: nat, id: byte)
    requires n <= |items| && forall it <- items :: Legal(it) && !it.Replay?
    ensures var s := Steps(font, book, OpsOf(items, font.charInc != 0)[n..], 0);
            && (NoStore(items, n, id) ==> s.1[id] == book[id])
            && (n <= k < |items| && items[k].Store? && items[k].id == id && NoStore(items, k + 1, id) ==>
                  s.1[id] == Last(RunCode(items[..k], font.charInc != 0), items[k].size))
    decreases |items| - n
  {
    hide RunCode, Lookup, Last, Ops, GlyphStep;
    var ops := OpsOf(items, font.charInc != 0);
    if n < |items| {
      assert items[n] in items;
      assert ops[n..][1..] == ops[n + 1..];
      PlainBook(font, if items[n].Store? then book[items[n].id := ops[n].bytes] else book, items, n + 1, k, id);
    }
  }

  /** A run of glyphs and stores paints its cached glyphs at the sums of the advances before them, and leaves under
      each id the last `size` bytes sent before the last escape for it. */
  lemma PlainRun(font: Font, items: seq<Item>, pen: Pen, k: nat)
    requires forall it <- items :: Legal(it) && !it.Replay?
    requires k < |items|
    ensures var r := Process(font, RunCode(items, font.charInc != 0), 0, pen, 0);
            && pen.draws <= r.draws && Positions(r.draws[|pen.draws|..], Moves(font, items), pen.gx, font.y)
            && r.gx == pen.gx + Sum(Moves(font, items))
            && (items[k].Store? && NoStore(items, k + 1, items[k].id) ==>
                  BookOf(r.fragments)[items[k].id] == Last(RunCode(items[..k], font.charInc != 0), items[k].size))
  {
    hide Steps, Process, Positions, Moves, RunCode, Last, BookOf, NoStore;
    RunLaw(font, items, pen);
    PlainSteps(font, BookOf(pen.fragments), items, 0);
    if items[k].Store? {
      PlainBook(font, BookOf(pen.fragments), items, 0, k, items[k].id);
    }
    assert OpsOf(items, font.charInc != 0)[0..] == OpsOf(items, font.charInc != 0);
    assert Moves(font, items)[0..] == Moves(font, items);
  }

  lemma {:induction false} EvenSteps(steps: seq<Step>, c: nat)
    requires forall s <- steps :: s.glyph.Some? && s.advance == c
    ensures Sum(steps) == |steps| * c && Count(steps) == |steps|
    decreases |steps|
  {
    if steps != [] {
      EvenSteps(steps[1..], c);
    }
  }

  /** With a fixed advance, bytes that are all cached indices land at even distances. */
  lemma FixedPitch(font: Font, data: seq<byte>, pen: Pen, k: nat)
    requires font.charInc != 0 && k < |data|
    requires forall b <- data :: b < 0xFE && Lookup(font.glyphs, font.cacheId, b).Some?
    ensures var r := Process(font, data, 0, pen, 0);
            var g := Lookup(font.glyphs, font.cacheId, data[k]).value;
            && |r.draws| == |pen.draws| + |data| && r.gx == pen.gx + |data| * font.charInc
            && r.draws[|pen.draws| + k] == Draw(pen.gx + k * font.charInc + g.x, font.y + g.y, g)
  {
    hide Process, Lookup;
    var items := seq(|data|, i requires 0 <= i < |data| => PutGlyph(data[i], 0, false));
    assert forall i :: 0 <= i < |data| ==> data[i] in data;
    IndicesCode(data, items);
    PlainRun(font, items, pen, k);
    var m := Moves(font, items);
    EvenSteps(m, font.charInc);
    EvenSteps(m[..k], font.charInc);
    assert m[k].glyph.Some?;
  }

  lemma {:induction false} IndicesCode(data: seq<byte>, items: seq<Item>)
    requires |items| == |data|
    requires forall i :: 0 <= i < |data| ==> data[i] < 0xFE && items[i] == PutGlyph(data[i], 0, false)
    ensures RunCode(items, true) == data
    decreases |data|
  {
    if data != [] {
      var n := |data| - 1;
      IndicesCode(data[..n], items[..n]);
      assert data == data[..n] + [data[n]];
    }
  }
}
