/**
 The decoder's framebuffer: a picture value for specifications, and the class
 whose stores report whether they changed a pixel.
 */
module Framebuffers {

  datatype RGBA = RGBA(r: int, g: int, b: int, a: int)

  const BLACK := RGBA(0, 0, 0, 255)
  const BLANK := RGBA(8, 10, 12, 255)
  const BLOCK_WIDTH := 16

  datatype Picture = Picture(w: nat, h: nat, rows: seq<seq<RGBA>>) {
    ghost predicate Valid() {
      |rows| == h && forall y :: 0 <= y < h ==> |rows[y]| == w
    }

    predicate Inside(x: int, y: int) {
      0 <= x < w && 0 <= y < h
    }

    function At(x: int, y: int): RGBA
      requires Valid() && Inside(x, y)
    {
      rows[y][x]
    }

    function Store(x: int, y: int, c: RGBA): (p: Picture)
      requires Valid()
      ensures p.Valid() && p.w == w && p.h == h
      ensures forall u, v :: Inside(u, v) ==> p.At(u, v) == if u == x && v == y then c else At(u, v)
    {
      if Inside(x, y) then Picture(w, h, rows[y := rows[y][x := c]]) else this
    }
  }

  /** Two pictures of one size are equal when every pixel is. */
  lemma SamePixels(p: Picture, q: Picture)
    requires p.Valid() && q.Valid() && p.w == q.w && p.h == q.h
    requires forall x, y :: p.Inside(x, y) ==> p.At(x, y) == q.At(x, y)
    ensures p == q
  {
    forall y | 0 <= y < p.h
      ensures p.rows[y] == q.rows[y]
    {
      forall x | 0 <= x < p.w
        ensures p.rows[y][x] == q.rows[y][x]
      {
        assert p.Inside(x, y) && p.At(x, y) == q.At(x, y);
      }
    }
  }

  function Filled(w: nat, h: nat, c: RGBA): (p: Picture)
    ensures p.Valid() && p.w == w && p.h == h
    ensures forall x, y :: p.Inside(x, y) ==> p.At(x, y) == c
  {
    Picture(w, h, seq(h, _ => seq(w, _ => c)))
  }

  /** A new framebuffer is not black, so clearing it is a change. */
  lemma FilledDiffer(w: nat, h: nat)
    requires w > 0 && h > 0
    ensures Filled(w, h, BLANK) != Filled(w, h, BLACK)
  {
    var p, q := Filled(w, h, BLANK), Filled(w, h, BLACK);
    assert p.Inside(0, 0) && q.Inside(0, 0) && p.At(0, 0) != q.At(0, 0);
  }

  function Build(w: nat, h: nat, f: (int, int) -> RGBA): (p: Picture)
    ensures p.Valid() && p.w == w && p.h == h
    ensures forall x, y :: p.Inside(x, y) ==> p.At(x, y) == f(x, y)
  {
    Picture(w, h, seq(h, y => seq(w, x => f(x, y))))
  }

  /** The pixel at (x, y) after n copies of a block side by side from (x0, y0). */
  function StripPixel(p: Picture, block: seq<RGBA>, x0: int, y0: int, bh: nat, n: nat, x: int, y: int): RGBA
    requires p.Valid() && |block| == 256 && bh <= 16
  {
    if y0 <= y < y0 + bh && x0 <= x < x0 + BLOCK_WIDTH * n
      then block[(y - y0) * BLOCK_WIDTH + (x - x0) % BLOCK_WIDTH]
    else if p.Inside(x, y) then p.At(x, y) else BLACK
  }

  function Strip(p: Picture, block: seq<RGBA>, x0: int, y0: int, bh: nat, n: nat): (q: Picture)
    requires p.Valid() && |block| == 256 && bh <= 16
    ensures q.Valid() && q.w == p.w && q.h == p.h
    ensures forall x, y :: p.Inside(x, y) ==> q.At(x, y) == StripPixel(p, block, x0, y0, bh, n, x, y)
  {
    Build(p.w, p.h, (x, y) => StripPixel(p, block, x0, y0, bh, n, x, y))
  }

  lemma StripZero(p: Picture, block: seq<RGBA>, x0: int, y0: int, bh: nat)
    requires p.Valid() && |block| == 256 && bh <= 16
    ensures Strip(p, block, x0, y0, bh, 0) == p
  {
    SamePixels(Strip(p, block, x0, y0, bh, 0), p);
  }

  /** A strip of n + 1 blocks is a strip of n and one more block beside it, and
      the whole strip changed the picture exactly when one of the two parts did. */
  lemma StripStep(p: Picture, block: seq<RGBA>, x0: int, y0: int, bh: nat, n: nat)
    requires p.Valid() && |block| == 256 && bh <= 16
    ensures var q := Strip(p, block, x0, y0, bh, n);
      var r := Strip(q, block, x0 + BLOCK_WIDTH * n, y0, bh, 1);
      r == Strip(p, block, x0, y0, bh, n + 1) && (r != p <==> (q != p || r != q))
  {
    var q := Strip(p, block, x0, y0, bh, n);
    var r := Strip(q, block, x0 + BLOCK_WIDTH * n, y0, bh, 1);
    SamePixels(r, Strip(p, block, x0, y0, bh, n + 1));
    if r == p { SamePixels(q, p); }
  }

  /** The first k pixels of a block, in row order, have been stored. */
  ghost predicate StoredUpTo(p: Picture, q: Picture, block: seq<RGBA>, x0: int, y0: int, k: nat)
    requires |block| == 256
  {
    && p.Valid() && q.Valid() && q.w == p.w && q.h == p.h
    && (forall x, y :: p.Inside(x, y) ==>
          var i := (y - y0) * BLOCK_WIDTH + (x - x0);
          q.At(x, y) == if x0 <= x < x0 + BLOCK_WIDTH && 0 <= i < k && i < 256 then block[i] else p.At(x, y))
  }

  lemma StoredNext(p: Picture, q: Picture, block: seq<RGBA>, x0: int, y0: int, k: nat)
    requires |block| == 256 && k < 256 && StoredUpTo(p, q, block, x0, y0, k)
    ensures var q' := q.Store(x0 + k % 16, y0 + k / 16, block[k]);
      StoredUpTo(p, q', block, x0, y0, k + 1) && (q' != p <==> (q != p || q' != q))
  {
    var q' := q.Store(x0 + k % 16, y0 + k / 16, block[k]);
    if q' == p {
      SamePixels(q, p);
    }
  }

  lemma StoredAll(p: Picture, q: Picture, block: seq<RGBA>, x0: int, y0: int, bh: nat)
    requires |block| == 256 && bh <= 16 && StoredUpTo(p, q, block, x0, y0, bh * 16)
    ensures q == Strip(p, block, x0, y0, bh, 1)
  {
    SamePixels(q, Strip(p, block, x0, y0, bh, 1));
  }

  class Framebuffer {
    const w: nat
    const h: nat
    const img: array2<RGBA>
    ghost var pic: Picture

    ghost predicate Valid()
      reads this, img
    {
      && w > 0 && h > 0 && img.Length0 == h && img.Length1 == w
      && pic.Valid() && pic.w == w && pic.h == h
      && forall x, y :: pic.Inside(x, y) ==> pic.At(x, y) == img[y, x]
    }

    constructor (w: int, h: int)
      ensures Valid() && fresh(img)
      ensures pic == Filled(if w <= 0 then 800 else w, if h <= 0 then 600 else h, BLANK)
    {
      var ww := if w <= 0 then 800 else w;
      var hh := if h <= 0 then 600 else h;
      this.w, this.h := ww, hh;
      img := new RGBA[hh, ww]((_, _) => BLANK);
      pic := Filled(ww, hh, BLANK);
    }

    /** Reports exactly whether the picture changed. */
    method StorePixel(x: int, y: int, c: RGBA) returns (changed: bool)
      requires Valid()
      modifies this, img
      ensures Valid() && pic == old(pic).Store(x, y, c)
      ensures changed <==> pic != old(pic)
    {
      if !(0 <= x < w && 0 <= y < h) || img[y, x] == c {
        SamePixels(pic.Store(x, y, c), pic);
        return false;
      }
      assert pic.Inside(x, y) && pic.At(x, y) != c;
      img[y, x] := c;
      pic := pic.Store(x, y, c);
      assert pic.At(x, y) == c;
      return true;
    }

    method Clear(c: RGBA) returns (changed: bool)
      requires Valid()
      modifies this, img
      ensures Valid() && pic == Filled(w, h, c)
      ensures changed <==> pic != old(pic)
    {
      changed := false;
      ghost var was := pic;
      var y := 0;
      while y < h
        invariant 0 <= y <= h && Valid()
        invariant Cleared(was, pic, c, 0, y) && (changed <==> pic != was)
      {
        var x := 0;
        while x < w
          invariant 0 <= x <= w && 0 <= y < h && Valid()
          invariant Cleared(was, pic, c, x, y) && (changed <==> pic != was)
        {
          if img[y, x] != c {
            assert pic.At(x, y) == img[y, x];
            ghost var before := pic;
            img[y, x] := c;
            pic := pic.Store(x, y, c);
            assert was.At(x, y) == before.At(x, y) && pic.At(x, y) == c;
            changed := true;
          }
          x := x + 1;
        }
        y := y + 1;
      }
      SamePixels(pic, Filled(w, h, c));
    }

    /** Copies one block to (x0, y0), clipped to the picture. */
    method PaintBlock(block: array<RGBA>, x0: int, y0: int, bh: nat) returns (changed: bool)
      requires Valid() && block.Length == 256 && bh <= 16
      modifies this, img
      ensures Valid() && block[..] == old(block[..])
      ensures pic == Strip(old(pic), block[..], x0, y0, bh, 1)
      ensures changed <==> pic != old(pic)
    {
      changed := false;
      ghost var was, b := pic, block[..];
      for y := 0 to bh
        invariant Valid() && block[..] == b
        invariant StoredUpTo(was, pic, b, x0, y0, y * 16) && (changed <==> pic != was)
      {
        for x := 0 to BLOCK_WIDTH
          invariant Valid() && block[..] == b
          invariant StoredUpTo(was, pic, b, x0, y0, y * 16 + x) && (changed <==> pic != was)
        {
          var idx := y * BLOCK_WIDTH + x;
          StoredNext(was, pic, b, x0, y0, idx);
          assert idx % 16 == x && idx / 16 == y;
          var stored := StorePixel(x0 + x, y0 + y, block[idx]);
          changed := stored || changed;
        }
      }
      StoredAll(was, pic, b, x0, y0, bh);
    }
  }

  /** Rows above y, and row y left of x, hold colour c; the rest is untouched. */
  ghost predicate Cleared(p: Picture, q: Picture, c: RGBA, x: int, y: int) {
    && p.Valid() && q.Valid() && q.w == p.w && q.h == p.h
    && (forall u, v :: p.Inside(u, v) ==> q.At(u, v) == if v < y || (v == y && u < x) then c else p.At(u, v))
  }
}
