/** Cached glyphs, and text runs with their fragment escapes. Section 2.2.2.2.1.1.2 of MS-RDPEGDI. */
module Glyphs {
  import opened Options
  import opened Bits
  import opened Rects
  import opened Pictures
  import opened Canvas
  import opened Tables

  /** A one-bit-per-pixel glyph with its bearing. */
  datatype Glyph = Glyph(x: int, y: int, cx: nat, cy: nat, aj: seq<byte>)

  type GlyphTable = Table<Glyph>

  type Fragments = seq<seq<byte>>

  function FragmentIn(fs: Fragments, id: nat): Option<seq<byte>> {
    if id < |fs| then Some(fs[id]) else None
  }

  function WithFragment(fs: Fragments, id: nat, bytes: seq<byte>): Fragments {
    Grown(fs, id + 1, [])[id := bytes]
  }

  class GlyphCache {
    var glyphs: GlyphTable
    var fragments: Fragments

    constructor ()
      ensures glyphs == [] && fragments == []
    {
      glyphs, fragments := [], [];
    }

    method Insert(id: nat, index: nat, g: Glyph)
      modifies this`glyphs
      ensures glyphs == Inserted(old(glyphs), id, index, g)
    {
      if id >= |glyphs| {
        glyphs := glyphs + seq(id + 1 - |glyphs|, _ => []);
      }
      var cache := glyphs[id];
      if index >= |cache| {
        cache := cache + seq(index + 1 - |cache|, _ => None);
      }
      glyphs := glyphs[id := cache[index := Some(g)]];
    }

    method PutFragment(id: nat, bytes: seq<byte>)
      modifies this`fragments
      ensures fragments == WithFragment(old(fragments), id, bytes)
    {
      if id >= |fragments| {
        fragments := fragments + seq(id + 1 - |fragments|, _ => []);
      }
      fragments := fragments[id := bytes];
    }
  }

  // ---- Text runs --------------------------------------------------------------------

  /** A glyph painted at a pen position, bearing included. */
  datatype Draw = Draw(x: int, y: int, g: Glyph)

  /** What a run carries along: pen position, fragment cache, and the glyphs painted so far. */
  datatype Pen = Pen(gx: int, fragments: Fragments, draws: seq<Draw>)

  /** What stays fixed during a run. */
  datatype Font = Font(glyphs: GlyphTable, cacheId: nat, charInc: byte, y: int)

  /** An advance byte, or the two-byte value behind 0x80; nothing left reads as zero. Returns the value and the next
      index. */
  function GlyphDelta(data: seq<byte>, i: nat): (r: (nat, nat))
    ensures i <= r.1 && (i <= |data| ==> r.1 <= |data|)
  {
    if i >= |data| then (0, i)
    else if data[i] == 0x80 then
      if i + 2 < |data| then (data[i + 1] as int + 256 * (data[i + 2] as int), i + 3) else (0, i + 1)
    else (data[i], i + 1)
  }

  /** An advance is sent in one byte if it fits and is not the escape, or behind the escape in two. */
  function AdvanceCode(v: nat, wide: bool): seq<byte>
    requires v < 0x1_0000 && (!wide ==> v < 256 && v != 0x80)
  {
    if wide then [0x80] + Le16(v) else [v]
  }

  /** Every advance is read back from either form. */
  lemma AdvanceRoundTrip(v: nat, wide: bool, data: seq<byte>, i: nat)
    requires v < 0x1_0000 && (!wide ==> v < 256 && v != 0x80)
    requires var c := AdvanceCode(v, wide); i + |c| <= |data| && data[i..i + |c|] == c
    ensures GlyphDelta(data, i) == (v, i + |AdvanceCode(v, wide)|)
  {
    var c := AdvanceCode(v, wide);
    assert data[i] == data[i..i + |c|][0];
    if wide {
      assert data[i + 1] == data[i..i + |c|][1] && data[i + 2] == data[i..i + |c|][2];
    }
  }

  function Remaining(depth: nat): nat { if depth > 8 then 0 else 9 - depth }

  /** A run of glyph indices from position `i`: 0xFF stores the bytes before it as a fragment, 0xFE replays one. */
  function Process(font: Font, data: seq<byte>, i: nat, pen: Pen, depth: nat): Pen
    decreases Remaining(depth), |data| - i
  {
    if depth > 8 || i >= |data| then pen
    else if data[i] == 0xFF then
      if i + 2 < |data| then
        var start := if data[i + 2] <= i then i - data[i + 2] else 0;
        Process(font, data, i + 3, pen.(fragments := WithFragment(pen.fragments, data[i + 1], data[start..i])), depth)
      else pen
    else if data[i] == 0xFE then
      if i + 1 >= |data| then pen
      else
        var delta := if font.charInc == 0 then GlyphDelta(data, i + 2) else (0, i + 2);
        var frag := FragmentIn(pen.fragments, data[i + 1]);
        var inner := if frag.Some? then Process(font, frag.value, 0, pen, depth + 1) else pen;
        Process(font, data, delta.1, inner.(gx := inner.gx + delta.0), depth)
    else
      var g := Lookup(font.glyphs, font.cacheId, data[i]);
      var delta := if font.charInc == 0 then GlyphDelta(data, i + 1) else (font.charInc as nat, i + 1);
      Process(font, data, delta.1, Drawn(font, pen, g, delta.0), depth)
  }

  /** An uncached index paints nothing and does not move the pen. */
  function Drawn(font: Font, pen: Pen, g: Option<Glyph>, advance: int): Pen {
    if g.None? then pen
    else pen.(gx := pen.gx + advance, draws := pen.draws + [Draw(pen.gx + g.value.x, font.y + g.value.y, g.value)])
  }

  function DrawRect(d: Draw): Rect { Rect(d.x, d.y, d.g.cx, d.g.cy) }

  function DrawPaint(p: Picture, d: Draw, bounds: Option<Rect>, c: Rgba): Paint {
    GlyphPaint(Clip(p.width, p.height, DrawRect(d), bounds), d.x, d.y, d.g.cx, d.g.aj, c)
  }

  function PaintDraws(p: Picture, ds: seq<Draw>, bounds: Option<Rect>, c: Rgba): (q: Picture)
    requires p.Valid()
    ensures q.Valid() && SameSize(p, q)
    decreases |ds|
  {
    if ds == [] then p
    else Painted(PaintDraws(p, ds[..|ds| - 1], bounds, c), DrawPaint(p, ds[|ds| - 1], bounds, c))
  }

  function Grow(dirty: Rect, r: Rect): Rect {
    if r.IsEmpty() then dirty else if dirty.IsEmpty() then r else dirty.Union(r)
  }

  function DirtyOf(p: Picture, ds: seq<Draw>, bounds: Option<Rect>): Rect
    decreases |ds|
  {
    if ds == [] then Rect(0, 0, 0, 0)
    else Grow(DirtyOf(p, ds[..|ds| - 1], bounds), Clip(p.width, p.height, DrawRect(ds[|ds| - 1]), bounds))
  }

  method ReadGlyphDelta(data: seq<byte>, i: nat) returns (v: int, next: nat)
    ensures (v, next) == GlyphDelta(data, i)
  {
    next := i;
    if next >= |data| {
      return 0, next;
    }
    var b := data[next];
    next := next + 1;
    if b == 0x80 {
      if next + 1 < |data| {
        v := data[next] as int + 256 * (data[next + 1] as int);
        next := next + 2;
      } else {
        v := 0;
      }
    } else {
      v := b;
    }
  }

  method ProcessGlyphBytes(canvas: OrderCanvas, clip: Option<Rect>, cache: GlyphCache, font: Font, fore: Rgba,
                           data: seq<byte>, x: int, box: Rect, depth: nat, ghost p: Picture, ghost before: seq<Draw>)
    returns (gx: int, dirty: Rect)
    requires canvas.Valid() && p.Valid() && cache.glyphs == font.glyphs
    requires canvas.Pic() == PaintDraws(p, before, clip, fore) && box == DirtyOf(p, before, clip)
    modifies canvas.data, cache`fragments
    ensures canvas.Valid()
    ensures var pen := Process(font, data, 0, Pen(x, old(cache.fragments), before), depth);
            && gx == pen.gx && cache.fragments == pen.fragments
            && canvas.Pic() == PaintDraws(p, pen.draws, clip, fore) && dirty == DirtyOf(p, pen.draws, clip)
    decreases Remaining(depth)
  {
    hide Painted, PaintDraws, DirtyOf, GlyphPaint, Clip, WithFragment, GlyphDelta, Rect.Union, Lookup, FragmentIn,
         Picture.Get,
         Picture.Valid;
    gx, dirty := x, box;
    if depth > 8 {
      return;
    }
    ghost var start := Pen(x, cache.fragments, before);
    ghost var draws := before;
    var i := 0;
    while i < |data|
      invariant canvas.Valid() && cache.glyphs == font.glyphs
      invariant canvas.Pic() == PaintDraws(p, draws, clip, fore) && dirty == DirtyOf(p, draws, clip)
      invariant Process(font, data, i, Pen(gx, cache.fragments, draws), depth) == Process(font, data, 0, start, depth)
    {
      ghost var here := Pen(gx, cache.fragments, draws);
      var b := data[i];
      i := i + 1;
      if b == 0xFF {
        if i + 1 < |data| {
          var id := data[i];
          var size := data[i + 1];
          var fragEnd := i - 1;
          var fragStart := if size <= fragEnd then fragEnd - size else 0;
          cache.PutFragment(id, data[fragStart..fragEnd]);
          i := i + 2;
        } else {
          return;
        }
      } else if b == 0xFE {
        if i >= |data| {
          return;
        }
        var id := data[i];
        i := i + 1;
        var delta := 0;
        if font.charInc == 0 {
          delta, i := ReadGlyphDelta(data, i);
        }
        var frag := FragmentIn(cache.fragments, id);
        if frag.Some? {
          gx, dirty := ProcessGlyphBytes(canvas, clip, cache, font, fore, frag.value, gx, dirty, depth + 1, p, draws);
          draws := Process(font, frag.value, 0, here, depth + 1).draws;
        }
        gx := gx + delta;
      } else {
        var g := Lookup(cache.glyphs, font.cacheId, b);
        var adv := 0;
        if g.Some? {
          ghost var d := Draw(gx + g.value.x, font.y + g.value.y, g.value);
          PaintDrawsNext(p, draws, d, clip, fore);
          var r := canvas.BlitGlyph(gx + g.value.x, font.y + g.value.y, g.value.cx, g.value.cy, g.value.aj, clip, fore);
          if !r.IsEmpty() {
            dirty := if dirty.IsEmpty() then r else dirty.Union(r);
          }
          draws := draws + [d];
          if font.charInc != 0 {
            adv := font.charInc;
          } else {
            adv, i := ReadGlyphDelta(data, i);
          }
        } else if font.charInc == 0 {
          var _, next := ReadGlyphDelta(data, i);
          i := next;
        }
        gx := gx + adv;
      }
    }
  }

  lemma PaintDrawsNext(p: Picture, ds: seq<Draw>, d: Draw, bounds: Option<Rect>, c: Rgba)
    requires p.Valid()
    ensures PaintDraws(p, ds + [d], bounds, c) == Painted(PaintDraws(p, ds, bounds, c), DrawPaint(p, d, bounds, c))
    ensures DirtyOf(p, ds + [d], bounds) == Grow(DirtyOf(p, ds, bounds), Clip(p.width, p.height, DrawRect(d), bounds))
  {
    assert (ds + [d])[..|ds|] == ds;
  }

  /** The dirty rectangle of a run covers every pixel it changed, nested fragments included. */
  lemma {:induction false} RunWithinDirty(p: Picture, ds: seq<Draw>, bounds: Option<Rect>, c: Rgba)
    requires p.Valid()
    ensures var d := DirtyOf(p, ds, bounds);
            (d.IsEmpty() || d.Small()) && ChangedWithin(p, PaintDraws(p, ds, bounds, c), d)
    decreases |ds|
  {
    hide Painted, Clip, Picture.Get;
    if ds != [] {
      var rest, last := ds[..|ds| - 1], ds[|ds| - 1];
      RunWithinDirty(p, rest, bounds, c);
      var q := PaintDraws(p, rest, bounds, c);
      var r, d := Clip(p.width, p.height, DrawRect(last), bounds), DirtyOf(p, rest, bounds);
      ClipInside(p.width, p.height, DrawRect(last), bounds);
      PaintedWithin(q, DrawPaint(p, last, bounds, c), r);
      UnionCovers(d, r);
    }
  }

  // ---- Fragment replay is macro expansion -----------------------------------------------

  /** From position `i` on, escapes are replays only (an operand byte may have any value). */
  predicate NoAdds(data: seq<byte>, i: nat)
    decreases |data| - i
  {
    i >= |data| ||
    if data[i] == 0xFE then NoAdds(data, i + 2) else data[i] != 0xFF && NoAdds(data, i + 1)
  }

  /** The run with its replays replaced by the fragments' contents, to the depth limit. */
  function Expand(fs: Fragments, data: seq<byte>, i: nat, depth: nat): seq<byte>
    decreases Remaining(depth), |data| - i
  {
    if depth > 8 || i >= |data| then []
    else if data[i] == 0xFE then
      if i + 1 >= |data| then []
      else
        var frag := FragmentIn(fs, data[i + 1]);
        (if frag.Some? then Expand(fs, frag.value, 0, depth + 1) else []) + Expand(fs, data, i + 2, depth)
    else [data[i]] + Expand(fs, data, i + 1, depth)
  }

  ghost predicate Flat(s: seq<byte>) {
    forall b <- s :: b < 0xFE
  }

  /** A run without any escapes. */
  function FlatRun(font: Font, s: seq<byte>, pen: Pen): Pen
    decreases |s|
  {
    if s == [] then pen
    else FlatRun(font, s[1..], Drawn(font, pen, Lookup(font.glyphs, font.cacheId, s[0]), font.charInc))
  }

  lemma {:induction false} FlatRunSplit(font: Font, s: seq<byte>, t: seq<byte>, pen: Pen)
    ensures FlatRun(font, s + t, pen) == FlatRun(font, t, FlatRun(font, s, pen))
    ensures FlatRun(font, s, pen).fragments == pen.fragments
    decreases |s|
  {
    if s == [] {
      assert s + t == t;
    } else {
      assert (s + t)[1..] == s[1..] + t;
      FlatRunSplit(font, s[1..], t, Drawn(font, pen, Lookup(font.glyphs, font.cacheId, s[0]), font.charInc));
    }
  }

  lemma {:induction false} FlatIsProcess(font: Font, s: seq<byte>, i: nat, pen: Pen)
    requires Flat(s) && font.charInc != 0 && i <= |s|
    ensures Process(font, s, i, pen, 0) == FlatRun(font, s[i..], pen)
    decreases |s| - i
  {
    if i < |s| {
      assert s[i] in s;
      assert s[i..][1..] == s[i + 1..];
      FlatIsProcess(font, s, i + 1, Drawn(font, pen, Lookup(font.glyphs, font.cacheId, s[i]), font.charInc));
    }
  }

  lemma {:induction false} ExpandIsFlat(fs: Fragments, data: seq<byte>, i: nat, depth: nat)
    requires NoAdds(data, i) && forall f <- fs :: NoAdds(f, 0)
    ensures Flat(Expand(fs, data, i, depth))
    decreases Remaining(depth), |data| - i
  {
    if depth <= 8 && i < |data| {
      if data[i] == 0xFE {
        if i + 1 < |data| {
          if data[i + 1] < |fs| {
            ExpandIsFlat(fs, fs[data[i + 1]], 0, depth + 1);
          }
          ExpandIsFlat(fs, data, i + 2, depth);
        }
      } else {
        ExpandIsFlat(fs, data, i + 1, depth);
      }
    }
  }

  lemma {:induction false} ProcessIsExpansion(font: Font, data: seq<byte>, i: nat, pen: Pen, depth: nat)
    requires font.charInc != 0 && NoAdds(data, i) && forall f <- pen.fragments :: NoAdds(f, 0)
    ensures Process(font, data, i, pen, depth) == FlatRun(font, Expand(pen.fragments, data, i, depth), pen)
    decreases Remaining(depth), |data| - i
  {
    hide Drawn, Flat;
    var fs := pen.fragments;
    if depth <= 8 && i < |data| {
      if data[i] == 0xFE {
        if i + 1 < |data| {
          var frag := FragmentIn(fs, data[i + 1]);
          var e := if frag.Some? then Expand(fs, frag.value, 0, depth + 1) else [];
          if frag.Some? {
            ProcessIsExpansion(font, frag.value, 0, pen, depth + 1);
          }
          FlatRunSplit(font, e, Expand(fs, data, i + 2, depth), pen);
          var inner := FlatRun(font, e, pen);
          assert inner.(gx := inner.gx + 0) == inner;
          ProcessIsExpansion(font, data, i + 2, inner, depth);
        }
      } else {
        var next := Drawn(font, pen, Lookup(font.glyphs, font.cacheId, data[i]), font.charInc);
        DrawnKeepsFragments(font, pen, Lookup(font.glyphs, font.cacheId, data[i]), font.charInc);
        ProcessIsExpansion(font, data, i + 1, next, depth);
        assert ([data[i]] + Expand(fs, data, i + 1, depth))[1..] == Expand(fs, data, i + 1, depth);
      }
    }
  }

  lemma DrawnKeepsFragments(font: Font, pen: Pen, g: Option<Glyph>, advance: int)
    ensures Drawn(font, pen, g, advance).fragments == pen.fragments
  {
  }

  /** With a fixed advance and no 0xFF escapes, a run paints the same glyphs at the same places, and leaves the
      pen where the escape-free run of its expansion does. */
  lemma ReplayIsMacroExpansion(font: Font, data: seq<byte>, pen: Pen)
    requires font.charInc != 0 && NoAdds(data, 0) && forall f <- pen.fragments :: NoAdds(f, 0)
    ensures Process(font, data, 0, pen, 0) == Process(font, Expand(pen.fragments, data, 0, 0), 0, pen, 0)
  {
    ProcessIsExpansion(font, data, 0, pen, 0);
    var e := Expand(pen.fragments, data, 0, 0);
    ExpandIsFlat(pen.fragments, data, 0, 0);
    FlatIsProcess(font, e, 0, pen);
    assert e[0..] == e;
  }
}
