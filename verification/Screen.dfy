/**
 The RFB screen: four bytes a pixel in one flat array. Its value is the picture
 that reading pixels back (with full alpha) shows.
 */
module Screens {
  import opened Bits
  import opened Framebuffers

  function Min(a: int, b: int): int { if a < b then a else b }

  /** The byte offset of a pixel in rows of w pixels. */
  function Offset(w: nat, x: nat, y: nat): (o: nat) { y * (4 * w) + x * 4 }

  lemma OffsetInRange(w: nat, h: nat, x: nat, y: nat)
    requires x < w && y < h
    ensures Offset(w, x, y) + 4 <= h * (4 * w)
  {
    RowBefore(y, h, 4 * w);
  }

  lemma {:induction false} RowBefore(y: nat, v: nat, s: nat)
    requires y < v
    ensures y * s + s <= v * s
  {
    if v == y + 1 {
      OneMore(y, s);
    } else {
      RowBefore(y, v - 1, s);
      OneMore(v - 1, s);
    }
  }

  lemma OffsetsApart(w: nat, x: nat, y: nat, u: nat, v: nat)
    requires x < w && u < w && (x != u || y != v)
    ensures Offset(w, x, y) + 4 <= Offset(w, u, v) || Offset(w, u, v) + 4 <= Offset(w, x, y)
  {
    if y < v { RowBefore(y, v, 4 * w); }
    if v < y { RowBefore(v, y, 4 * w); }
  }

  function Opaque(c: RGBA): RGBA { c.(a := 255) }

  function AtOr(p: Picture, x: int, y: int): RGBA
    requires p.Valid()
  {
    if p.Inside(x, y) then p.At(x, y) else BLACK
  }

  /** p with the w by h rectangle at (x0, y0) replaced by f of the position inside it. */
  function PaintRect(p: Picture, x0: int, y0: int, w: int, h: int, f: (int, int) -> RGBA): (q: Picture)
    requires p.Valid()
    ensures q.Valid() && q.w == p.w && q.h == p.h
    ensures forall x, y :: p.Inside(x, y) ==>
      q.At(x, y) == if x0 <= x < x0 + w && y0 <= y < y0 + h then f(x - x0, y - y0) else p.At(x, y)
  {
    Build(p.w, p.h, (x, y) =>
      if x0 <= x < x0 + w && y0 <= y < y0 + h then f(x - x0, y - y0) else AtOr(p, x, y))
  }

  function Fill(p: Picture, x0: int, y0: int, w: int, h: int, c: RGBA): (q: Picture)
    requires p.Valid()
    ensures q.Valid() && q.w == p.w && q.h == p.h
  {
    PaintRect(p, x0, y0, w, h, (_, _) => Opaque(c))
  }

  /** Rows of the rectangle above dy, and row dy left of dx, are painted. */
  ghost predicate RectUpTo(p: Picture, q: Picture, x0: int, y0: int, w: int, f: (int, int) -> RGBA, dx: int, dy: int) {
    && p.Valid() && q.Valid() && q.w == p.w && q.h == p.h
    && (forall x, y :: p.Inside(x, y) ==>
          q.At(x, y) == if x0 <= x < x0 + w && y0 <= y && (y - y0 < dy || (y - y0 == dy && x - x0 < dx))
                        then f(x - x0, y - y0) else p.At(x, y))
  }

  lemma RectStart(p: Picture, x0: int, y0: int, w: int, f: (int, int) -> RGBA)
    requires p.Valid()
    ensures RectUpTo(p, p, x0, y0, w, f, 0, 0)
  {
  }

  lemma RectNext(p: Picture, q: Picture, x0: int, y0: int, w: int, f: (int, int) -> RGBA, dx: int, dy: int)
    requires RectUpTo(p, q, x0, y0, w, f, dx, dy) && 0 <= dx < w && 0 <= dy
    ensures RectUpTo(p, q.Store(x0 + dx, y0 + dy, f(dx, dy)), x0, y0, w, f, dx + 1, dy)
  {
  }

  lemma RectRow(p: Picture, q: Picture, x0: int, y0: int, w: int, f: (int, int) -> RGBA, dx: int, dy: int)
    requires RectUpTo(p, q, x0, y0, w, f, dx, dy) && dx >= w
    ensures RectUpTo(p, q, x0, y0, w, f, 0, dy + 1)
  {
  }

  lemma RectDone(p: Picture, q: Picture, x0: int, y0: int, w: int, h: int, f: (int, int) -> RGBA, dy: int)
    requires RectUpTo(p, q, x0, y0, w, f, 0, dy) && (dy == h || (dy == 0 && h < 0))
    ensures q == PaintRect(p, x0, y0, w, h, f)
  {
    SamePixels(q, PaintRect(p, x0, y0, w, h, f));
  }

  /** Row-major position: where the pixel (dx, dy) of rows of w pixels stands. */
  lemma IndexOf(w: nat, dx: nat, dy: nat)
    requires dx < w
    ensures (dy * w + dx) / w == dy && (dy * w + dx) % w == dx
  {
    var k := dy * w + dx;
    assert w * (k / w) + k % w == k;
    var d := k / w - dy;
    assert w * d == w * (k / w) - w * dy;
    assert d >= 1 ==> w * d >= w;
    assert d <= -1 ==> w * d + w <= 0;
  }

  ghost predicate Shows(pix: seq<byte>, w: nat, h: nat, pic: Picture) {
    && pic.Valid() && pic.w == w && pic.h == h && |pix| == h * (4 * w)
    && forall x, y :: pic.Inside(x, y) ==>
         && Offset(w, x, y) + 4 <= |pix|
         && pic.At(x, y) == PixelAt(pix, Offset(w, x, y))
  }

  ghost function PixelAt(pix: seq<byte>, o: nat): RGBA
    requires o + 4 <= |pix|
  {
    RGBA(pix[o], pix[o + 1], pix[o + 2], 255)
  }

  ghost function WritePixel(pix: seq<byte>, o: nat, c: RGBA): seq<byte>
    requires o + 4 <= |pix| && IsColor(c)
  {
    var r: byte, g: byte, b: byte := c.r, c.g, c.b;
    pix[o := r][o + 1 := g][o + 2 := b][o + 3 := 255]
  }

  /** Writing the four bytes of one pixel changes that pixel and no other. */
  lemma ShowsStore(pix: seq<byte>, w: nat, h: nat, pic: Picture, x: nat, y: nat, c: RGBA)
    requires Shows(pix, w, h, pic) && x < w && y < h
    requires IsColor(c)
    ensures var o := Offset(w, x, y);
      && o + 4 <= |pix|
      && Shows(WritePixel(pix, o, c), w, h, pic.Store(x, y, Opaque(c)))
  {
    OffsetInRange(w, h, x, y);
    var o := Offset(w, x, y);
    var q, p' := WritePixel(pix, o, c), pic.Store(x, y, Opaque(c));
    forall u, v | p'.Inside(u, v)
      ensures Offset(w, u, v) + 4 <= |q| && p'.At(u, v) == PixelAt(q, Offset(w, u, v))
    {
      assert pic.Inside(u, v);
      if u != x || v != y { OffsetsApart(w, x, y, u, v); }
    }
  }

  ghost predicate IsColor(c: RGBA) {
    0 <= c.r < 256 && 0 <= c.g < 256 && 0 <= c.b < 256
  }

  class Screen {
    var w: nat
    var h: nat
    var pix: array<byte>
    var revision: nat
    ghost var pic: Picture

    ghost predicate Valid()
      reads this, pix
    {
      w > 0 && h > 0 && Shows(pix[..], w, h, pic)
    }

    constructor (width: int, height: int)
      ensures Valid() && fresh(pix) && revision == 0
      ensures pic == Filled(if width <= 0 then 1 else width, if height <= 0 then 1 else height, BLACK)
    {
      var ww, hh := if width <= 0 then 1 else width, if height <= 0 then 1 else height;
      w, h := ww, hh;
      MulNonNeg(hh, 4 * ww);
      pix := new byte[hh * (4 * ww)](_ => 0);
      revision := 0;
      pic := Filled(ww, hh, BLACK);
      new;
      BlankShows(pix[..], ww, hh);
    }

    /** Counts a finished update. */
    method Commit()
      modifies this`revision
      ensures revision == old(revision) + 1
    {
      revision := revision + 1;
    }

    /** Ignores coordinates outside the framebuffer. */
    method SetPixel(x: int, y: int, c: RGBA)
      requires Valid() && IsColor(c)
      modifies this`pic, pix
      ensures Valid() && pic == old(pic).Store(x, y, Opaque(c))
    {
      ShowsValid(pix[..], w, h, pic);
      hide Shows, Offset, Picture.Store;
      if x < 0 || y < 0 || x >= w || y >= h {
        StoreOutside(pic, x, y, Opaque(c), w, h, pix[..]);
        return;
      }
      ShowsStore(pix[..], w, h, pic, x, y, c);
      ghost var was := pix[..];
      var offset := Offset(w, x, y);
      pix[offset] := c.r;
      pix[offset + 1] := c.g;
      pix[offset + 2] := c.b;
      pix[offset + 3] := 255;
      assert pix[..] == WritePixel(was, offset, c);
      pic := pic.Store(x, y, Opaque(c));
    }

    method At(x: int, y: int) returns (c: RGBA)
      requires Valid()
      ensures c == AtOr(pic, x, y) && IsColor(c) && Opaque(c) == c
    {
      if x < 0 || y < 0 || x >= w || y >= h {
        return BLACK;
      }
      OffsetInRange(w, h, x, y);
      assert pic.Inside(x, y);
      var offset := Offset(w, x, y);
      c := RGBA(pix[offset], pix[offset + 1], pix[offset + 2], 255);
    }

    method FillRect(x: int, y: int, rw: int, rh: int, c: RGBA)
      requires Valid() && IsColor(c)
      modifies this`pic, pix
      ensures Valid() && pic == Fill(old(pic), x, y, rw, rh, c)
    {
      hide Shows, RectUpTo, PaintRect;
      ghost var f := (_: int, _: int) => Opaque(c);
      assert old(pic).Valid() by { ShowsValid(pix[..], w, h, pic); }
      RectStart(pic, x, y, rw, f);
      var dy := 0;
      while dy < rh
        invariant Valid() && 0 <= dy && (dy <= rh || dy == 0)
        invariant RectUpTo(old(pic), pic, x, y, rw, f, 0, dy)
      {
        var dx := 0;
        while dx < rw
          invariant Valid() && 0 <= dx && (dx <= rw || dx == 0)
          invariant RectUpTo(old(pic), pic, x, y, rw, f, dx, dy)
        {
          RectNext(old(pic), pic, x, y, rw, f, dx, dy);
          SetPixel(x + dx, y + dy, c);
          dx := dx + 1;
        }
        RectRow(old(pic), pic, x, y, rw, f, dx, dy);
        dy := dy + 1;
      }
      RectDone(old(pic), pic, x, y, rw, rh, f, dy);
    }

    /** Reads the whole source before it writes, so overlap does no harm. */
    method CopyRect(srcX: int, srcY: int, dstX: int, dstY: int, rw: int, rh: int)
      requires Valid()
      modifies this`pic, pix
      ensures Valid() && pic == CopiedRect(old(pic), srcX, srcY, dstX, dstY, rw, rh)
    {
      hide Shows, RectUpTo, PaintRect;
      ghost var p := pic;
      ShowsValid(pix[..], w, h, p);
      ghost var f := (i: int, j: int) => Opaque(AtOr(p, srcX + i, srcY + j));
      RectStart(p, dstX, dstY, rw, f);
      if rw <= 0 || rh <= 0 {
        NothingPainted(p, dstX, dstY, rw, rh, f);
        return;
      }
      var scratch := CopyOut(srcX, srcY, rw, rh);
      var i := 0;
      var dy := 0;
      while dy < rh
        invariant Valid() && 0 <= dy <= rh && i == dy * rw
        invariant RectUpTo(p, pic, dstX, dstY, rw, f, 0, dy)
      {
        RowBefore(dy, rh, rw);
        var dx := 0;
        while dx < rw
          invariant Valid() && 0 <= dx <= rw && i == dy * rw + dx
          invariant RectUpTo(p, pic, dstX, dstY, rw, f, dx, dy)
        {
          IndexOf(rw, dx, dy);
          RectNext(p, pic, dstX, dstY, rw, f, dx, dy);
          SetPixel(dstX + dx, dstY + dy, scratch[i]);
          dx := dx + 1;
          i := i + 1;
        }
        RectRow(p, pic, dstX, dstY, rw, f, dx, dy);
        dy := dy + 1;
      }
      RectDone(p, pic, dstX, dstY, rw, rh, f, dy);
    }

    /** The scratch copy of CopyRect, row by row. */
    method CopyOut(srcX: int, srcY: int, rw: int, rh: int) returns (scratch: seq<RGBA>)
      requires Valid() && rw > 0 && rh > 0
      ensures |scratch| == rh * rw
      ensures forall k :: 0 <= k < |scratch| ==>
        scratch[k] == AtOr(pic, srcX + k % rw, srcY + k / rw) && IsColor(scratch[k])
    {
      ShowsValid(pix[..], w, h, pic);
      hide Shows;
      scratch := [];
      var dy := 0;
      while dy < rh
        invariant 0 <= dy <= rh && |scratch| == dy * rw
        invariant forall k :: 0 <= k < |scratch| ==>
          scratch[k] == AtOr(pic, srcX + k % rw, srcY + k / rw) && IsColor(scratch[k])
      {
        var dx := 0;
        while dx < rw
          invariant 0 <= dx <= rw && |scratch| == dy * rw + dx
          invariant forall k :: 0 <= k < |scratch| ==>
            scratch[k] == AtOr(pic, srcX + k % rw, srcY + k / rw) && IsColor(scratch[k])
        {
          var c := At(srcX + dx, srcY + dy);
          IndexOf(rw, dx, dy);
          scratch := scratch + [c];
          dx := dx + 1;
        }
        dy := dy + 1;
      }
    }

    /** Replaces the framebuffer, keeping the overlapping top-left region. */
    method Resize(width: int, height: int)
      requires Valid()
      modifies this`w, this`h, this`pix, this`pic
      ensures Valid() && pic == ResizedTo(old(pic), width, height)
      ensures pix == old(pix) || fresh(pix)
    {
      ShowsValid(pix[..], w, h, pic);
      if width <= 0 || height <= 0 {
        return;
      }
      if w == width && h == height {
        SamePixels(pic, ResizedTo(pic, width, height));
        return;
      }
      MulNonNeg(height, 4 * width);
      var next := new byte[height * (4 * width)](_ => 0);
      CopyRegion(next, width, height, Min(width, w), Min(height, h));
      w, h, pix, pic := width, height, next, ResizedTo(pic, width, height);
    }

    method CopyRegion(dst: array<byte>, dw: nat, dh: nat, cw: nat, ch: nat)
      requires Valid() && dst != pix && dst.Length == dh * (4 * dw)
      requires forall i :: 0 <= i < dst.Length ==> dst[i] == 0
      requires dw > 0 && dh > 0 && cw == Min(dw, w) && ch == Min(dh, h)
      modifies dst
      ensures Shows(dst[..], dw, dh, ResizedTo(pic, dw, dh))
    {
      NoneCopied(pix[..], dst[..], w, h, dw, dh, cw);
      ghost var src := pix[..];
      ShowsValid(src, w, h, pic);
      hide Shows, RowsCopied;
      var y := 0;
      while y < ch
        invariant 0 <= y <= ch && pix[..] == src
        invariant RowsCopied(pix[..], dst[..], w, h, dw, dh, cw, y)
      {
        var to, from := Offset(dw, 0, y), Offset(w, 0, y);
        RowBefore(y, dh, 4 * dw);
        RowBefore(y, h, 4 * w);
        ghost var was := dst[..];
        assert to + cw * 4 <= dst.Length && from + cw * 4 <= pix.Length;
        CopySlice(dst, to, pix, from, cw * 4);
        RowCopied(pix[..], was, dst[..], w, h, dw, dh, cw, y);
        y := y + 1;
      }
      CopiedShows(pix[..], dst[..], w, h, dw, dh, cw, ch, pic);
    }
  }

  /** The rectangle at (dx, dy) shows what the old picture had at (sx, sy), black beyond its edge. */
  function CopiedRect(p: Picture, sx: int, sy: int, dx: int, dy: int, w: int, h: int): (q: Picture)
    requires p.Valid()
    ensures q.Valid() && q.w == p.w && q.h == p.h
  {
    PaintRect(p, dx, dy, w, h, (i, j) => Opaque(AtOr(p, sx + i, sy + j)))
  }

  function ResizedTo(p: Picture, w: int, h: int): (q: Picture)
    requires p.Valid()
    ensures q.Valid()
  {
    if w <= 0 || h <= 0 then p else Build(w, h, (x, y) => AtOr(p, x, y))
  }

  /** The first k rows of dst hold the first cw pixels of the rows of src; the rest is zero. */
  ghost predicate RowsCopied(src: seq<byte>, dst: seq<byte>, w: nat, h: nat, dw: nat, dh: nat, cw: nat, k: nat) {
    && |src| == h * (4 * w) && |dst| == dh * (4 * dw) && cw <= w && cw <= dw && k <= h && k <= dh
    && forall x, y :: 0 <= x < dw && 0 <= y < dh ==>
         && Offset(dw, x, y) + 4 <= |dst|
         && PixelAt(dst, Offset(dw, x, y)) == SourcePixel(src, w, h, cw, k, x, y)
  }

  ghost function SourcePixel(src: seq<byte>, w: nat, h: nat, cw: nat, k: nat, x: nat, y: nat): RGBA
    requires |src| == h * (4 * w) && cw <= w && k <= h
  {
    if x < cw && y < k then OffsetInRange(w, h, x, y); PixelAt(src, Offset(w, x, y)) else BLACK
  }

  lemma NoneCopied(src: seq<byte>, dst: seq<byte>, w: nat, h: nat, dw: nat, dh: nat, cw: nat)
    requires |src| == h * (4 * w) && |dst| == dh * (4 * dw) && cw <= w && cw <= dw
    requires forall i :: 0 <= i < |dst| ==> dst[i] == 0
    ensures RowsCopied(src, dst, w, h, dw, dh, cw, 0)
  {
    forall x, y | 0 <= x < dw && 0 <= y < dh
      ensures Offset(dw, x, y) + 4 <= |dst| && PixelAt(dst, Offset(dw, x, y)) == BLACK
    {
      OffsetInRange(dw, dh, x, y);
    }
  }

  /** dst is was with n bytes of src put in at `to`. */
  ghost predicate Spliced(src: seq<byte>, was: seq<byte>, dst: seq<byte>, from: nat, to: nat, n: nat) {
    && |dst| == |was| && to + n <= |dst| && from + n <= |src|
    && forall j :: 0 <= j < |dst| ==> dst[j] == if to <= j < to + n then src[from + (j - to)] else was[j]
  }

  method CopySlice(dst: array<byte>, to: nat, src: array<byte>, from: nat, n: nat)
    requires dst != src && to + n <= dst.Length && from + n <= src.Length
    modifies dst
    ensures Spliced(src[..], old(dst[..]), dst[..], from, to, n)
  {
    for i := 0 to n
      invariant Spliced(src[..], old(dst[..]), dst[..], from, to, i)
    {
      dst[to + i] := src[from + i];
    }
  }

  lemma PixelSpliced(src: seq<byte>, was: seq<byte>, dst: seq<byte>, from: nat, to: nat, n: nat, o: nat)
    requires Spliced(src, was, dst, from, to, n) && o + 4 <= |dst|
    ensures o + 4 <= to || to + n <= o ==> PixelAt(dst, o) == PixelAt(was, o)
    ensures to <= o && o + 4 <= to + n ==> PixelAt(dst, o) == PixelAt(src, from + (o - to))
  {
  }

  lemma RowCopied(src: seq<byte>, was: seq<byte>, dst: seq<byte>, w: nat, h: nat, dw: nat, dh: nat, cw: nat, k: nat)
    requires RowsCopied(src, was, w, h, dw, dh, cw, k) && k < h && k < dh
    requires Spliced(src, was, dst, Offset(w, 0, k), Offset(dw, 0, k), cw * 4)
    ensures RowsCopied(src, dst, w, h, dw, dh, cw, k + 1)
  {
    hide Spliced;
    SplicedLength(src, was, dst, Offset(w, 0, k), Offset(dw, 0, k), cw * 4);
    forall x, y | 0 <= x < dw && 0 <= y < dh
      ensures Offset(dw, x, y) + 4 <= |dst|
      ensures PixelAt(dst, Offset(dw, x, y)) == SourcePixel(src, w, h, cw, k + 1, x, y)
    {
      assert PixelAt(was, Offset(dw, x, y)) == SourcePixel(src, w, h, cw, k, x, y);
      PixelSpliced(src, was, dst, Offset(w, 0, k), Offset(dw, 0, k), cw * 4, Offset(dw, x, y));
      if y < k { RowBefore(y, k, 4 * dw); }
      if y > k { RowBefore(k, y, 4 * dw); }
    }
  }

  lemma SplicedLength(src: seq<byte>, was: seq<byte>, dst: seq<byte>, from: nat, to: nat, n: nat)
    requires Spliced(src, was, dst, from, to, n)
    ensures |dst| == |was|
  {
  }

  lemma CopiedShows(src: seq<byte>, dst: seq<byte>, w: nat, h: nat, dw: nat, dh: nat, cw: nat, ch: nat, p: Picture)
    requires Shows(src, w, h, p) && RowsCopied(src, dst, w, h, dw, dh, cw, ch)
    requires dw > 0 && dh > 0 && cw == Min(dw, w) && ch == Min(dh, h)
    ensures Shows(dst, dw, dh, ResizedTo(p, dw, dh))
  {
    var q := ResizedTo(p, dw, dh);
    forall x, y | q.Inside(x, y)
      ensures Offset(dw, x, y) + 4 <= |dst| && q.At(x, y) == PixelAt(dst, Offset(dw, x, y))
    {
      assert p.Inside(x, y) <==> x < cw && y < ch;
    }
  }

  lemma NothingPainted(p: Picture, x0: int, y0: int, w: int, h: int, f: (int, int) -> RGBA)
    requires p.Valid() && (w <= 0 || h <= 0)
    ensures PaintRect(p, x0, y0, w, h, f) == p
  {
    SamePixels(PaintRect(p, x0, y0, w, h, f), p);
  }

  lemma BlankShows(pix: seq<byte>, w: nat, h: nat)
    requires |pix| == h * (4 * w) && forall i :: 0 <= i < |pix| ==> pix[i] == 0
    ensures Shows(pix, w, h, Filled(w, h, BLACK))
  {
    var p := Filled(w, h, BLACK);
    forall x, y | p.Inside(x, y)
      ensures Offset(w, x, y) + 4 <= |pix| && p.At(x, y) == PixelAt(pix, Offset(w, x, y))
    {
      OffsetInRange(w, h, x, y);
    }
  }

  lemma ShowsValid(pix: seq<byte>, w: nat, h: nat, pic: Picture)
    requires Shows(pix, w, h, pic)
    ensures pic.Valid() && pic.w == w && pic.h == h
  {
  }

  lemma StoreOutside(p: Picture, x: int, y: int, c: RGBA, w: nat, h: nat, pix: seq<byte>)
    requires Shows(pix, w, h, p) && !p.Inside(x, y)
    ensures p.Store(x, y, c) == p
  {
  }
}
