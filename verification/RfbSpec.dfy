/**
 What each RFB rectangle encoding does to a picture, as functions of the picture
 and the bytes that follow the rectangle header (sections 7.7.1 to 7.7.4 of RFC 6143),
 and what holds of those functions.
 */
module RfbSpec {
  import opened Bits
  import opened Framebuffers
  import opened Screens

  datatype PixelFormat = PixelFormat(bitsPerPixel: byte, bigEndian: bool,
                                     redMax: nat, greenMax: nat, blueMax: nat,
                                     redShift: byte, greenShift: byte, blueShift: byte)
  {
    function Bpp(): (n: nat) { bitsPerPixel / 8 }

    /** One pixel as an unsigned integer in the server's byte order. */
    function Raw(b: seq<byte>): nat
      requires |b| == Bpp()
    {
      if Bpp() == 1 || Bpp() == 2 || Bpp() == 4 then (if bigEndian then BigEndian(b) else LittleEndian(b)) else 0
    }

    function Color(b: seq<byte>): (c: RGBA)
      requires |b| == Bpp()
      ensures IsColor(c) && c.a == 255
    {
      var v := Raw(b);
      RGBA(Scale(And(Shr(v, redShift), redMax), redMax),
           Scale(And(Shr(v, greenShift), greenMax), greenMax),
           Scale(And(Shr(v, blueShift), blueMax), blueMax), 255)
    }
  }

  function Scale(value: nat, max: nat): (s: nat)
    ensures s < 256
  {
    if max == 0 then 0 else (value * 255 / max) % 256
  }

  datatype Rect = Rect(x: nat, y: nat, w: nat, h: nat)

  /** The colour of the k-th pixel of `data`, black when there is no such pixel. */
  function PixelOf(fmt: PixelFormat, data: seq<byte>, k: int): (c: RGBA)
    ensures IsColor(c) && c.a == 255
  {
    if 0 <= k && k * fmt.Bpp() + fmt.Bpp() <= |data| then
      MulNonNeg(k, fmt.Bpp());
      fmt.Color(data[k * fmt.Bpp()..k * fmt.Bpp() + fmt.Bpp()])
    else BLACK
  }

  /** w by h pixels of `data`, row by row, painted at (x0, y0). */
  function PaintData(fmt: PixelFormat, p: Picture, x0: int, y0: int, w: nat, h: nat, data: seq<byte>): (q: Picture)
    requires p.Valid()
    ensures q.Valid() && q.w == p.w && q.h == p.h
  {
    PaintRect(p, x0, y0, w, h, (dx, dy) => PixelOf(fmt, data, dy * w + dx))
  }

  /** Bytes off the stream, or none when it is too short. */
  datatype Taken = Short | Taken(data: seq<byte>, rest: seq<byte>)

  function Take(input: seq<byte>, n: int): (t: Taken)
    ensures t.Taken? ==> n >= 0 && |t.data| == n && input == t.data + t.rest
  {
    if n < 0 || |input| < n then Short else Taken(input[..n], input[n..])
  }

  datatype Decoded = Failed(pic: Picture) | Decoded(pic: Picture, rest: seq<byte>)

  function Raw(fmt: PixelFormat, r: Rect, p: Picture, input: seq<byte>): (d: Decoded)
    requires p.Valid()
    ensures d.pic.Valid()
  {
    if fmt.Bpp() == 0 then Failed(p)
    else match Take(input, r.w * r.h * fmt.Bpp())
      case Short => Failed(p)
      case Taken(data, rest) => Decoded(PaintData(fmt, p, r.x, r.y, r.w, r.h, data), rest)
  }

  function Copy(r: Rect, p: Picture, input: seq<byte>): (d: Decoded)
    requires p.Valid()
    ensures d.pic.Valid()
  {
    match Take(input, 4)
    case Short => Failed(p)
    case Taken(src, rest) => Decoded(CopiedRect(p, BigEndian(src[..2]), BigEndian(src[2..]), r.x, r.y, r.w, r.h), rest)
  }

  // ---- Subrectangles ----------------------------------------------------------

  datatype Sub = Sub(color: RGBA, x: nat, y: nat, w: nat, h: nat) {
    predicate Covers(dx: int, dy: int) {
      x <= dx < x + w && y <= dy < y + h
    }
  }

  /** Solid rectangles painted one after the other, positions relative to (x0, y0). */
  function PaintSubs(p: Picture, x0: int, y0: int, subs: seq<Sub>): (q: Picture)
    requires p.Valid()
    ensures q.Valid() && q.w == p.w && q.h == p.h
  {
    if subs == [] then p
    else
      var last := subs[|subs| - 1];
      Fill(PaintSubs(p, x0, y0, subs[..|subs| - 1]), x0 + last.x, y0 + last.y, last.w, last.h, last.color)
  }

  datatype Cover = Uncovered | CoveredBy(k: nat)

  /** Which subrectangle is the last to cover a position. */
  function LastCover(subs: seq<Sub>, dx: int, dy: int): (c: Cover)
    ensures c.CoveredBy? ==> c.k < |subs| && subs[c.k].Covers(dx, dy)
    ensures c.CoveredBy? ==> forall j :: c.k < j < |subs| ==> !subs[j].Covers(dx, dy)
    ensures c.Uncovered? ==> forall j :: 0 <= j < |subs| ==> !subs[j].Covers(dx, dy)
  {
    if subs == [] then Uncovered
    else if subs[|subs| - 1].Covers(dx, dy) then CoveredBy(|subs| - 1)
    else LastCover(subs[..|subs| - 1], dx, dy)
  }

  /** Painting subrectangles in order leaves at each position the colour of the
      last one that covers it, and the old colour where none does. */
  lemma {:induction false} PaintSubsPixel(p: Picture, x0: int, y0: int, subs: seq<Sub>, x: int, y: int)
    requires p.Valid() && p.Inside(x, y)
    ensures PaintSubs(p, x0, y0, subs).At(x, y) ==
      match LastCover(subs, x - x0, y - y0)
      case Uncovered => p.At(x, y)
      case CoveredBy(k) => Opaque(subs[k].color)
  {
    if subs == [] {
    } else {
      PaintSubsPixel(p, x0, y0, subs[..|subs| - 1], x, y);
    }
  }

  // ---- RRE ----------------------------------------------------------------------

  const MAX_RECTANGLES := 4096

  /** The first n subrectangles of an RRE body. */
  function RreSubs(fmt: PixelFormat, body: seq<byte>, n: nat): (subs: seq<Sub>)
    requires n * (fmt.Bpp() + 8) <= |body|
    ensures |subs| == n
  {
    if n == 0 then []
    else
      var bpp := fmt.Bpp();
      var o := (n - 1) * (bpp + 8);
      assert n * (bpp + 8) == o + bpp + 8;
      MulNonNeg(n - 1, bpp + 8);
      RreSubs(fmt, body, n - 1) +
      [Sub(fmt.Color(body[o..o + bpp]),
           BigEndian(body[o + bpp..o + bpp + 2]), BigEndian(body[o + bpp + 2..o + bpp + 4]),
           BigEndian(body[o + bpp + 4..o + bpp + 6]), BigEndian(body[o + bpp + 6..o + bpp + 8]))]
  }

  function Rre(fmt: PixelFormat, r: Rect, p: Picture, input: seq<byte>): (d: Decoded)
    requires p.Valid()
    ensures d.pic.Valid()
  {
    match Take(input, 4 + fmt.Bpp())
    case Short => Failed(p)
    case Taken(header, body) =>
      var count := BigEndian(header[..4]);
      if count > MAX_RECTANGLES * 16 then Failed(p)
      else match Take(body, count * (fmt.Bpp() + 8))
        case Short => Failed(p)
        case Taken(data, rest) =>
          var background := Fill(p, r.x, r.y, r.w, r.h, fmt.Color(header[4..]));
          Decoded(PaintSubs(background, r.x, r.y, RreSubs(fmt, data, count)), rest)
  }

  // ---- Hextile --------------------------------------------------------------------

  function Bit(flags: byte, mask: nat): bool
    requires mask > 0
  {
    (flags / mask) % 2 == 1
  }

  const RAW := 1
  const BACKGROUND := 2
  const FOREGROUND := 4
  const SUBRECTS := 8
  const COLOURED := 16

  /** The picture with the colours that carry over to the next tile. */
  datatype Tiles = TilesFailed(pic: Picture) | Tiles(pic: Picture, background: RGBA, foreground: RGBA, rest: seq<byte>)

  function SubSize(fmt: PixelFormat, flags: byte): nat {
    if Bit(flags, COLOURED) then 2 + fmt.Bpp() else 2
  }

  /** The first n subrectangles of a tile body. */
  function TileSubs(fmt: PixelFormat, flags: byte, foreground: RGBA, body: seq<byte>, n: nat): (subs: seq<Sub>)
    requires n * SubSize(fmt, flags) <= |body|
    ensures |subs| == n
  {
    if n == 0 then []
    else
      var size := SubSize(fmt, flags);
      var o := (n - 1) * size;
      assert n * size == o + size;
      MulNonNeg(n - 1, size);
      var at := o + size - 2;
      var color := if Bit(flags, COLOURED) then fmt.Color(body[o..at]) else foreground;
      TileSubs(fmt, flags, foreground, body, n - 1) +
      [Sub(color, body[at] / 16, body[at] % 16, body[at + 1] / 16 + 1, body[at + 1] % 16 + 1)]
  }

  /** One optional colour at the head of a tile. */
  function TileColor(fmt: PixelFormat, present: bool, carried: RGBA, input: seq<byte>): (t: (Taken, RGBA))
    ensures IsColor(carried) ==> IsColor(t.1)
  {
    if !present then (Taken([], input), carried)
    else match Take(input, fmt.Bpp())
      case Short => (Short, carried)
      case Taken(data, rest) => (Taken(data, rest), fmt.Color(data))
  }

  function TileBody(fmt: PixelFormat, p: Picture, x0: int, y0: int, flags: byte,
                    bg: RGBA, fg: RGBA, input: seq<byte>): (t: Tiles)
    requires p.Valid()
    ensures t.pic.Valid()
  {
    if !Bit(flags, SUBRECTS) then Tiles(p, bg, fg, input)
    else if input == [] then TilesFailed(p)
    else
      var count := input[0];
      match Take(input[1..], count * SubSize(fmt, flags))
      case Short => TilesFailed(p)
      case Taken(body, rest) =>
        Tiles(PaintSubs(p, x0, y0, TileSubs(fmt, flags, fg, body, count)), bg, fg, rest)
  }

  function Tile(fmt: PixelFormat, x0: int, y0: int, w: nat, h: nat, t: Tiles): (u: Tiles)
    requires t.Tiles? && t.pic.Valid()
    ensures u.pic.Valid()
  {
    if t.rest == [] then TilesFailed(t.pic)
    else
      var flags, input := t.rest[0], t.rest[1..];
      if Bit(flags, RAW) then
        match Take(input, w * h * fmt.Bpp())
        case Short => TilesFailed(t.pic)
        case Taken(data, rest) => t.(pic := PaintData(fmt, t.pic, x0, y0, w, h, data), rest := rest)
      else
        var (b, bg) := TileColor(fmt, Bit(flags, BACKGROUND), t.background, input);
        if b.Short? then TilesFailed(t.pic)
        else
          var (f, fg) := TileColor(fmt, Bit(flags, FOREGROUND), t.foreground, b.rest);
          if f.Short? then TilesFailed(t.pic)
          else TileBody(fmt, Fill(t.pic, x0, y0, w, h, bg), x0, y0, flags, bg, fg, f.rest)
  }

  /** The tiles from (tx, ty) on, left to right and top to bottom. */
  function TilesFrom(fmt: PixelFormat, r: Rect, tx: nat, ty: nat, t: Tiles): (u: Tiles)
    requires t.pic.Valid()
    ensures u.pic.Valid()
    decreases if r.h > ty then r.h - ty else 0, if r.w > tx then r.w - tx else 0
  {
    if t.TilesFailed? || ty >= r.h then t
    else if tx >= r.w then TilesFrom(fmt, r, 0, ty + 16, t)
    else
      TilesFrom(fmt, r, tx + 16, ty,
                Tile(fmt, r.x + tx, r.y + ty, Min(16, r.w - tx), Min(16, r.h - ty), t))
  }

  const NO_COLOR := RGBA(0, 0, 0, 0)

  function Hextile(fmt: PixelFormat, r: Rect, p: Picture, input: seq<byte>): (d: Decoded)
    requires p.Valid()
    ensures d.pic.Valid()
  {
    match TilesFrom(fmt, r, 0, 0, Tiles(p, NO_COLOR, NO_COLOR, input))
    case TilesFailed(q) => Failed(q)
    case Tiles(q, _, _, rest) => Decoded(q, rest)
  }
}
