/** What holds of the RFB encodings for every stream. */
module RfbTheorems {
  import opened Bits
  import opened Framebuffers
  import opened Screens
  import opened RfbSpec

  // ---- Channels ------------------------------------------------------------------

  lemma {:induction false} AndBelow(a: nat, b: nat)
    ensures And(a, b) <= b
  {
    if a == 0 || b == 0 {
    } else {
      AndBelow(a / 2, b / 2);
    }
  }

  lemma Quotient(n: nat, d: nat)
    requires d > 0
    ensures (n / d) * d <= n < (n / d) * d + d
  {
    assert n == d * (n / d) + n % d;
  }

  lemma Times(a: nat, b: nat, d: nat)
    requires a <= b
    ensures a * d <= b * d
  {
  }

  /** A channel of any width fills the byte: its largest value, and no other, comes out
      as 255, and every value as its share of 255 rounded down, never wrapped around. */
  lemma ChannelFillsByte(raw: nat, max: nat)
    requires max > 0
    ensures var v := And(raw, max);
      && Scale(v, max) == v * 255 / max
      && (Scale(v, max) == 255 <==> v == max)
  {
    hide And;
    AndBelow(raw, max);
    ScaleFills(And(raw, max), max);
  }

  lemma ScaleFills(v: nat, max: nat)
    requires 0 < max && v <= max
    ensures Scale(v, max) == v * 255 / max && (Scale(v, max) == 255 <==> v == max)
  {
    var n, q := v * 255, v * 255 / max;
    Quotient(n, max);
    if q >= 256 { Times(256, q, max); }
    if q <= 254 { Times(q, 254, max); } else { Times(255, q, max); }
  }

  // ---- Which pixels an encoding touches ------------------------------------------

  /** The subrectangles a Hextile tile carries; none when it is raw or cut short. */
  function TileParts(fmt: PixelFormat, t: Tiles): seq<Sub>
    requires t.Tiles?
  {
    if t.rest == [] || Bit(t.rest[0], RAW) || !Bit(t.rest[0], SUBRECTS) then []
    else
      var flags := t.rest[0];
      var b := TileColor(fmt, Bit(flags, BACKGROUND), t.background, t.rest[1..]).0;
      if b.Short? then []
      else
        var (f, fg) := TileColor(fmt, Bit(flags, FOREGROUND), t.foreground, b.rest);
        if f.Short? || f.rest == [] then []
        else match Take(f.rest[1..], f.rest[0] * SubSize(fmt, flags))
          case Short => []
          case Taken(body, _) => TileSubs(fmt, flags, fg, body, f.rest[0])
  }

  lemma RawOutside(fmt: PixelFormat, x0: int, y0: int, w: nat, h: nat, t: Tiles, x: int, y: int)
    requires t.Tiles? && t.pic.Valid() && t.pic.Inside(x, y) && (t.rest == [] || Bit(t.rest[0], RAW))
    requires !(x0 <= x < x0 + w && y0 <= y < y0 + h)
    ensures var u := Tile(fmt, x0, y0, w, h, t);
      && u.pic.w == t.pic.w && u.pic.h == t.pic.h && u.pic.At(x, y) == t.pic.At(x, y) && TileParts(fmt, t) == []
  {
    hide TileSubs, TileBody, TileColor, PixelOf;
  }

  lemma PartsOutside(fmt: PixelFormat, x0: int, y0: int, w: nat, h: nat, t: Tiles, x: int, y: int)
    requires t.Tiles? && t.pic.Valid() && t.pic.Inside(x, y) && t.rest != [] && !Bit(t.rest[0], RAW)
    requires !(x0 <= x < x0 + w && y0 <= y < y0 + h)
    ensures var u := Tile(fmt, x0, y0, w, h, t);
      && u.pic.w == t.pic.w && u.pic.h == t.pic.h
      && u.pic.At(x, y) == match LastCover(TileParts(fmt, t), x - x0, y - y0)
                           case Uncovered => t.pic.At(x, y)
                           case CoveredBy(k) => Opaque(TileParts(fmt, t)[k].color)
  {
    hide LastCover, TileSubs, PaintData;
    LastCoverNone(x - x0, y - y0);
    var flags := t.rest[0];
    var (b, bg) := TileColor(fmt, Bit(flags, BACKGROUND), t.background, t.rest[1..]);
    if b.Taken? {
      var (f, fg) := TileColor(fmt, Bit(flags, FOREGROUND), t.foreground, b.rest);
      if f.Taken? {
        var p := Fill(t.pic, x0, y0, w, h, bg);
        assert p.At(x, y) == t.pic.At(x, y);
        TileBodyPixel(fmt, p, x0, y0, flags, bg, fg, f.rest, x, y);
      }
    }
  }

  /** A pixel outside its tile is touched exactly when a subrectangle reaches it; the
      last one to do so gives its colour. */
  lemma TileOutside(fmt: PixelFormat, x0: int, y0: int, w: nat, h: nat, t: Tiles, x: int, y: int)
    requires t.Tiles? && t.pic.Valid() && t.pic.Inside(x, y)
    requires !(x0 <= x < x0 + w && y0 <= y < y0 + h)
    ensures var u := Tile(fmt, x0, y0, w, h, t);
      && u.pic.w == t.pic.w && u.pic.h == t.pic.h
      && u.pic.At(x, y) == match LastCover(TileParts(fmt, t), x - x0, y - y0)
                           case Uncovered => t.pic.At(x, y)
                           case CoveredBy(k) => Opaque(TileParts(fmt, t)[k].color)
  {
    hide LastCover, TileParts, Tile;
    LastCoverNone(x - x0, y - y0);
    if t.rest == [] || Bit(t.rest[0], RAW) {
      RawOutside(fmt, x0, y0, w, h, t, x, y);
    } else {
      PartsOutside(fmt, x0, y0, w, h, t, x, y);
    }
  }

  lemma LastCoverNone(dx: int, dy: int)
    ensures LastCover([], dx, dy) == Uncovered
  {
  }

  lemma TileBodyPixel(fmt: PixelFormat, p: Picture, x0: int, y0: int, flags: byte,
                      bg: RGBA, fg: RGBA, input: seq<byte>, x: int, y: int)
    requires p.Valid() && p.Inside(x, y)
    ensures var u := TileBody(fmt, p, x0, y0, flags, bg, fg, input);
      && u.pic.w == p.w && u.pic.h == p.h
      && (if !Bit(flags, SUBRECTS) || input == [] || Take(input[1..], input[0] * SubSize(fmt, flags)).Short?
          then u.pic == p
          else
            var subs := TileSubs(fmt, flags, fg, Take(input[1..], input[0] * SubSize(fmt, flags)).data, input[0]);
            u.pic.At(x, y) == match LastCover(subs, x - x0, y - y0)
                              case Uncovered => p.At(x, y)
                              case CoveredBy(k) => Opaque(subs[k].color))
  {
    if Bit(flags, SUBRECTS) && input != [] {
      var b := Take(input[1..], input[0] * SubSize(fmt, flags));
      if b.Taken? {
        PaintSubsPixel(p, x0, y0, TileSubs(fmt, flags, fg, b.data, input[0]), x, y);
      }
    }
  }

  /** Inside a tile that is not raw, a pixel no subrectangle covers shows the
      background, which is carried over to the next tile. */
  lemma TileInside(fmt: PixelFormat, x0: int, y0: int, w: nat, h: nat, t: Tiles, x: int, y: int)
    requires t.Tiles? && t.pic.Valid() && t.pic.Inside(x, y) && Tile(fmt, x0, y0, w, h, t).Tiles?
    requires !Bit(t.rest[0], RAW) && x0 <= x < x0 + w && y0 <= y < y0 + h
    ensures var u := Tile(fmt, x0, y0, w, h, t);
      && u.pic.w == t.pic.w && u.pic.h == t.pic.h
      && u.pic.At(x, y) == match LastCover(TileParts(fmt, t), x - x0, y - y0)
                           case Uncovered => Opaque(u.background)
                           case CoveredBy(k) => Opaque(TileParts(fmt, t)[k].color)
  {
    hide LastCover, TileSubs;
    LastCoverNone(x - x0, y - y0);
    var flags := t.rest[0];
    var (b, bg) := TileColor(fmt, Bit(flags, BACKGROUND), t.background, t.rest[1..]);
    var (f, fg) := TileColor(fmt, Bit(flags, FOREGROUND), t.foreground, b.rest);
    TileBodyPixel(fmt, Fill(t.pic, x0, y0, w, h, bg), x0, y0, flags, bg, fg, f.rest, x, y);
  }

  /** All subrectangles of all tiles from (tx, ty) on stay inside their tile. */
  ghost predicate Confined(fmt: PixelFormat, r: Rect, tx: nat, ty: nat, t: Tiles)
    requires t.pic.Valid()
    decreases if r.h > ty then r.h - ty else 0, if r.w > tx then r.w - tx else 0
  {
    if t.TilesFailed? || ty >= r.h then true
    else if tx >= r.w then Confined(fmt, r, 0, ty + 16, t)
    else
      var w, h := Min(16, r.w - tx), Min(16, r.h - ty);
      && (forall s :: s in TileParts(fmt, t) ==> s.x + s.w <= w && s.y + s.h <= h)
      && Confined(fmt, r, tx + 16, ty, Tile(fmt, r.x + tx, r.y + ty, w, h, t))
  }

  /** Then no pixel outside the rectangle changes, even when the stream is cut short. */
  lemma {:induction false} HextileStaysInside(fmt: PixelFormat, r: Rect, tx: nat, ty: nat, t: Tiles, x: int, y: int)
    requires t.pic.Valid() && t.pic.Inside(x, y) && Confined(fmt, r, tx, ty, t)
    requires !(r.x <= x < r.x + r.w && r.y <= y < r.y + r.h)
    ensures var q := TilesFrom(fmt, r, tx, ty, t).pic;
      q.w == t.pic.w && q.h == t.pic.h && q.At(x, y) == t.pic.At(x, y)
    decreases if r.h > ty then r.h - ty else 0, if r.w > tx then r.w - tx else 0
  {
    hide Tile, TileParts;
    if t.TilesFailed? || ty >= r.h {
    } else if tx >= r.w {
      HextileStaysInside(fmt, r, 0, ty + 16, t, x, y);
    } else {
      var w, h := Min(16, r.w - tx), Min(16, r.h - ty);
      TileOutside(fmt, r.x + tx, r.y + ty, w, h, t, x, y);
      HextileStaysInside(fmt, r, tx + 16, ty, Tile(fmt, r.x + tx, r.y + ty, w, h, t), x, y);
    }
  }

  // ---- What a whole Hextile rectangle shows --------------------------------------------

  lemma TileSize(fmt: PixelFormat, x0: int, y0: int, w: nat, h: nat, t: Tiles)
    requires t.Tiles? && t.pic.Valid()
    ensures var u := Tile(fmt, x0, y0, w, h, t); u.pic.w == t.pic.w && u.pic.h == t.pic.h
  {
    hide PixelFormat.Color, TileSubs, PaintRect;
  }

  /** The colours a tile hands on: its own if it specifies them, else those it was given. */
  lemma TileCarries(fmt: PixelFormat, x0: int, y0: int, w: nat, h: nat, t: Tiles)
    requires t.Tiles? && t.pic.Valid() && Tile(fmt, x0, y0, w, h, t).Tiles?
    ensures var u, flags, n := Tile(fmt, x0, y0, w, h, t), t.rest[0], fmt.Bpp();
      var hasBg, hasFg := !Bit(flags, RAW) && Bit(flags, BACKGROUND), !Bit(flags, RAW) && Bit(flags, FOREGROUND);
      var at := if hasBg then 1 + n else 1;
      && (if hasBg then 1 + n <= |t.rest| && u.background == fmt.Color(t.rest[1..1 + n])
          else u.background == t.background)
      && (if hasFg then at + n <= |t.rest| && u.foreground == fmt.Color(t.rest[at..at + n])
          else u.foreground == t.foreground)
  {
    hide PixelFormat.Color, TileSubs, PaintSubs, PaintData, Fill;
    var rest, n := t.rest[1..], fmt.Bpp();
    if n <= |rest| {
      assert rest[..n] == t.rest[1..1 + n] && rest[n..] == t.rest[1 + n..];
      if n <= |rest[n..]| { assert rest[n..][..n] == t.rest[1 + n..1 + n + n]; }
    }
  }

  /** What a tile shows at a pixel inside it: its own raw data, or the last subrectangle
      that covers the pixel, or else the background it specifies or was handed. */
  function TileShows(fmt: PixelFormat, x0: int, y0: int, w: nat, h: nat, t: Tiles, x: int, y: int): RGBA
    requires t.Tiles? && t.pic.Valid() && t.rest != []
  {
    if Bit(t.rest[0], RAW) then
      match Take(t.rest[1..], w * h * fmt.Bpp())
      case Short => BLACK
      case Taken(data, _) => PixelOf(fmt, data, (y - y0) * w + (x - x0))
    else
      match LastCover(TileParts(fmt, t), x - x0, y - y0)
      case CoveredBy(k) => Opaque(TileParts(fmt, t)[k].color)
      case Uncovered =>
        Opaque(TileColor(fmt, Bit(t.rest[0], BACKGROUND), t.background, t.rest[1..]).1)
  }

  lemma TileShown(fmt: PixelFormat, x0: int, y0: int, w: nat, h: nat, t: Tiles, x: int, y: int)
    requires t.Tiles? && t.pic.Valid() && t.pic.Inside(x, y) && Tile(fmt, x0, y0, w, h, t).Tiles?
    requires x0 <= x < x0 + w && y0 <= y < y0 + h
    ensures t.rest != []
    ensures var u := Tile(fmt, x0, y0, w, h, t);
      u.pic.w == t.pic.w && u.pic.h == t.pic.h && u.pic.At(x, y) == TileShows(fmt, x0, y0, w, h, t, x, y)
  {
    hide PixelOf, LastCover, TileSubs, PixelFormat.Color;
    if !Bit(t.rest[0], RAW) {
      TileInside(fmt, x0, y0, w, h, t, x, y);
      TileCarries(fmt, x0, y0, w, h, t);
      hide PaintSubs;
    }
  }

  /** Not above tile row ty, and in that row not left of tile column tx. */
  predicate Later(dx: int, dy: int, tx: int, ty: int) {
    dy >= ty && (dx >= tx || dy >= ty + 16)
  }

  /** The picture, the colours and the stream when the tile at (cx, cy) is reached. */
  function Before(fmt: PixelFormat, r: Rect, tx: nat, ty: nat, t: Tiles, cx: nat, cy: nat): (s: Tiles)
    requires t.pic.Valid()
    ensures s.pic.Valid()
    decreases if r.h > ty then r.h - ty else 0, if r.w > tx then r.w - tx else 0
  {
    if t.TilesFailed? || ty >= r.h || (tx == cx && ty == cy) then t
    else if tx >= r.w then Before(fmt, r, 0, ty + 16, t, cx, cy)
    else
      Before(fmt, r, tx + 16, ty, Tile(fmt, r.x + tx, r.y + ty, Min(16, r.w - tx), Min(16, r.h - ty), t), cx, cy)
  }

  /** Tiles from (tx, ty) on leave the pixels of the tiles before them alone. */
  lemma {:induction false} LaterTilesLeave(fmt: PixelFormat, r: Rect, tx: nat, ty: nat, t: Tiles, x: int, y: int)
    requires t.pic.Valid() && t.pic.Inside(x, y) && Confined(fmt, r, tx, ty, t)
    requires x - r.x < r.w && !Later(x - r.x, y - r.y, tx, ty)
    ensures var q := TilesFrom(fmt, r, tx, ty, t).pic;
      q.w == t.pic.w && q.h == t.pic.h && q.At(x, y) == t.pic.At(x, y)
    decreases if r.h > ty then r.h - ty else 0, if r.w > tx then r.w - tx else 0
  {
    hide Tile, TileParts;
    if t.TilesFailed? || ty >= r.h {
    } else if tx >= r.w {
      LaterTilesLeave(fmt, r, 0, ty + 16, t, x, y);
    } else {
      var w, h := Min(16, r.w - tx), Min(16, r.h - ty);
      TileOutside(fmt, r.x + tx, r.y + ty, w, h, t, x, y);
      LaterTilesLeave(fmt, r, tx + 16, ty, Tile(fmt, r.x + tx, r.y + ty, w, h, t), x, y);
    }
  }

  /** At the end every pixel shows what its own tile left there: the tiles partition the
      rectangle, for every stream whose subrectangles stay inside their tiles. */
  lemma {:induction false} TileStands(fmt: PixelFormat, r: Rect, tx: nat, ty: nat, t: Tiles,
                                      cx: nat, cy: nat, x: int, y: int)
    requires t.pic.Valid() && t.pic.Inside(x, y) && Confined(fmt, r, tx, ty, t) && TilesFrom(fmt, r, tx, ty, t).Tiles?
    requires cx <= x - r.x < cx + 16 && x - r.x < r.w && cy <= y - r.y < cy + 16 && y - r.y < r.h
    requires tx % 16 == 0 && ty % 16 == 0 && cx % 16 == 0 && cy % 16 == 0
    requires ty < cy || (ty == cy && tx <= cx)
    ensures var s := Before(fmt, r, tx, ty, t, cx, cy);
      && s.Tiles?
      && var u := Tile(fmt, r.x + cx, r.y + cy, Min(16, r.w - cx), Min(16, r.h - cy), s);
         && u.Tiles? && s.pic.w == u.pic.w == t.pic.w && s.pic.h == u.pic.h == t.pic.h
         && TilesFrom(fmt, r, tx, ty, t).pic.w == u.pic.w && TilesFrom(fmt, r, tx, ty, t).pic.h == u.pic.h
         && TilesFrom(fmt, r, tx, ty, t).pic.At(x, y) == u.pic.At(x, y)
    decreases if r.h > ty then r.h - ty else 0, if r.w > tx then r.w - tx else 0
  {
    hide Tile, TileParts;
    if tx == cx && ty == cy {
      var u := Tile(fmt, r.x + tx, r.y + ty, Min(16, r.w - tx), Min(16, r.h - ty), t);
      TileSize(fmt, r.x + tx, r.y + ty, Min(16, r.w - tx), Min(16, r.h - ty), t);
      LaterTilesLeave(fmt, r, tx + 16, ty, u, x, y);
    } else if tx >= r.w {
      TileStands(fmt, r, 0, ty + 16, t, cx, cy, x, y);
    } else {
      var u := Tile(fmt, r.x + tx, r.y + ty, Min(16, r.w - tx), Min(16, r.h - ty), t);
      TileSize(fmt, r.x + tx, r.y + ty, Min(16, r.w - tx), Min(16, r.h - ty), t);
      TileStands(fmt, r, tx + 16, ty, u, cx, cy, x, y);
    }
  }

  /** The 16 by 16 cell of an offset. */
  function Cell(d: nat): (b: nat)
    ensures b % 16 == 0 && b <= d < b + 16
  {
    d - d % 16
  }

  /** The picture function of Hextile: for every stream that decodes and whose subrectangles
      stay inside their tiles, a pixel outside the rectangle is as before, and one inside
      shows what its own tile shows there, given the colours carried on to that tile. */
  lemma HextilePicture(fmt: PixelFormat, r: Rect, p: Picture, input: seq<byte>, x: int, y: int)
    requires p.Valid() && p.Inside(x, y) && Hextile(fmt, r, p, input).Decoded?
    requires Confined(fmt, r, 0, 0, Tiles(p, NO_COLOR, NO_COLOR, input))
    ensures var q := Hextile(fmt, r, p, input).pic;
      && q.w == p.w && q.h == p.h
      && if !(r.x <= x < r.x + r.w && r.y <= y < r.y + r.h) then q.At(x, y) == p.At(x, y)
         else
           var cx, cy := Cell(x - r.x), Cell(y - r.y);
           var s := Before(fmt, r, 0, 0, Tiles(p, NO_COLOR, NO_COLOR, input), cx, cy);
           && s.Tiles? && s.rest != []
           && q.At(x, y) == TileShows(fmt, r.x + cx, r.y + cy, Min(16, r.w - cx), Min(16, r.h - cy), s, x, y)
  {
    hide TilesFrom, TileShows, Before, Confined, Tile, Cell;
    var t := Tiles(p, NO_COLOR, NO_COLOR, input);
    if r.x <= x < r.x + r.w && r.y <= y < r.y + r.h {
      var cx, cy := Cell(x - r.x), Cell(y - r.y);
      TileStands(fmt, r, 0, 0, t, cx, cy, x, y);
      TileShown(fmt, r.x + cx, r.y + cy, Min(16, r.w - cx), Min(16, r.h - cy), Before(fmt, r, 0, 0, t, cx, cy), x, y);
    } else {
      HextileStaysInside(fmt, r, 0, 0, t, x, y);
    }
  }

  /** The subrectangles an RRE stream carries; none when it is cut short. */
  function RreParts(fmt: PixelFormat, input: seq<byte>): seq<Sub> {
    match Take(input, 4 + fmt.Bpp())
    case Short => []
    case Taken(header, body) =>
      var n := BigEndian(header[..4]);
      match Take(body, n * (fmt.Bpp() + 8))
      case Short => []
      case Taken(data, _) => RreSubs(fmt, data, n)
  }

  /** An RRE rectangle shows at each pixel the last subrectangle that covers it, else
      its background inside the rectangle and the old picture outside; it takes its
      header and its subrectangles off the stream and nothing more. */
  lemma RrePixel(fmt: PixelFormat, r: Rect, p: Picture, input: seq<byte>, x: int, y: int)
    requires p.Valid() && p.Inside(x, y) && Rre(fmt, r, p, input).Decoded?
    ensures var d, subs := Rre(fmt, r, p, input), RreParts(fmt, input);
      && |subs| <= 65536 && d.pic.w == p.w && d.pic.h == p.h && 4 + fmt.Bpp() <= |input|
      && |input| == 4 + fmt.Bpp() + |subs| * (fmt.Bpp() + 8) + |d.rest| && d.rest == input[|input| - |d.rest|..]
      && d.pic.At(x, y) ==
           match LastCover(subs, x - r.x, y - r.y)
           case CoveredBy(k) => Opaque(subs[k].color)
           case Uncovered =>
             if r.x <= x < r.x + r.w && r.y <= y < r.y + r.h then fmt.Color(input[4..4 + fmt.Bpp()]) else p.At(x, y)
  {
    hide LastCover, RreSubs, PixelFormat.Color, PaintSubs;
    var header := Take(input, 4 + fmt.Bpp());
    var n := BigEndian(header.data[..4]);
    var body := Take(header.rest, n * (fmt.Bpp() + 8));
    assert header.data[4..] == input[4..4 + fmt.Bpp()];
    var background := Fill(p, r.x, r.y, r.w, r.h, fmt.Color(header.data[4..]));
    PaintSubsPixel(background, r.x, r.y, RreSubs(fmt, body.data, n), x, y);
  }

  // ---- Raw tiles ---------------------------------------------------------------------

  /** Rows of pixels, each pixel as its bytes on the wire. */
  type Grid = seq<seq<seq<byte>>>

  ghost predicate GridOk(fmt: PixelFormat, g: Grid, w: nat, h: nat) {
    |g| == h && (forall y :: 0 <= y < h ==> |g[y]| == w)
    && (forall y, x :: 0 <= y < h && 0 <= x < w ==> |g[y][x]| == fmt.Bpp())
  }

  function Flat(ps: seq<seq<byte>>): seq<byte> {
    if ps == [] then [] else Flat(ps[..|ps| - 1]) + ps[|ps| - 1]
  }

  function Pixels(g: Grid): seq<seq<byte>> {
    if g == [] then [] else Pixels(g[..|g| - 1]) + g[|g| - 1]
  }

  function SubGrid(g: Grid, tx: nat, ty: nat, w: nat, h: nat): (s: Grid)
    requires ty + h <= |g| && forall y :: ty <= y < ty + h ==> tx + w <= |g[y]|
    ensures |s| == h && forall y :: 0 <= y < h ==> s[y] == g[ty + y][tx..tx + w]
  {
    seq(h, j requires 0 <= j < h => g[ty + j][tx..tx + w])
  }

  /** The bytes of a picture in Raw encoding. */
  function RawBytes(g: Grid): seq<byte> { Flat(Pixels(g)) }

  /** The same picture as a Hextile stream of raw tiles, from tile (tx, ty) on. */
  function RawTileBytes(fmt: PixelFormat, g: Grid, w: nat, h: nat, tx: nat, ty: nat): seq<byte>
    requires GridOk(fmt, g, w, h)
    decreases if h > ty then h - ty else 0, if w > tx then w - tx else 0
  {
    if ty >= h then []
    else if tx >= w then RawTileBytes(fmt, g, w, h, 0, ty + 16)
    else
      [RAW] + RawBytes(SubGrid(g, tx, ty, Min(16, w - tx), Min(16, h - ty))) + RawTileBytes(fmt, g, w, h, tx + 16, ty)
  }

  lemma {:induction false} FlatLength(ps: seq<seq<byte>>, n: nat)
    requires forall p :: p in ps ==> |p| == n
    ensures |Flat(ps)| == |ps| * n
  {
    if ps == [] {
    } else {
      FlatLength(ps[..|ps| - 1], n);
      OneMore(|ps| - 1, n);
    }
  }

  lemma {:induction false} FlatAt(ps: seq<seq<byte>>, n: nat, k: nat)
    requires (forall p :: p in ps ==> |p| == n) && k < |ps|
    ensures 0 <= k * n && k * n + n <= |Flat(ps)| && Flat(ps)[k * n..k * n + n] == ps[k]
  {
    var front, o := ps[..|ps| - 1], k * n;
    FlatLength(front, n);
    FlatLength(ps, n);
    RowBefore(k, |ps|, n);
    MulNonNeg(k, n);
    if k == |front| {
      OneMore(|front|, n);
      SliceOfSum(Flat(front), ps[k], o, n);
    } else {
      FlatAt(front, n, k);
      SliceOfSum(Flat(front), ps[|ps| - 1], o, n);
    }
  }

  /** n elements of a sum that lie within its first part, or are its second part. */
  lemma SliceOfSum(a: seq<byte>, b: seq<byte>, o: nat, n: nat)
    ensures o + n <= |a| ==> (a + b)[o..o + n] == a[o..o + n]
    ensures o == |a| && n == |b| ==> (a + b)[o..o + n] == b
  {
  }

  lemma {:induction false} PixelsLength(g: Grid, w: nat)
    requires forall row :: row in g ==> |row| == w
    ensures |Pixels(g)| == |g| * w
  {
    if g == [] {
    } else {
      PixelsLength(g[..|g| - 1], w);
      OneMore(|g| - 1, w);
    }
  }

  lemma {:induction false} PixelsAt(g: Grid, w: nat, dx: nat, dy: nat)
    requires (forall row :: row in g ==> |row| == w) && dx < w && dy < |g|
    ensures 0 <= dy * w + dx < |Pixels(g)| && Pixels(g)[dy * w + dx] == g[dy][dx]
  {
    var front := g[..|g| - 1];
    PixelsLength(front, w);
    PixelsLength(g, w);
    RowBefore(dy, |g|, w);
    MulNonNeg(dy, w);
    if dy < |front| { PixelsAt(front, w, dx, dy); }
  }

  lemma {:induction false} PixelsWidth(g: Grid, n: nat)
    requires forall y, x :: 0 <= y < |g| && 0 <= x < |g[y]| ==> |g[y][x]| == n
    ensures forall p :: p in Pixels(g) ==> |p| == n
  {
    if g == [] {
    } else {
      PixelsWidth(g[..|g| - 1], n);
    }
  }

  function GridColor(fmt: PixelFormat, g: Grid, dx: int, dy: int): RGBA {
    if 0 <= dy < |g| && 0 <= dx < |g[dy]| && |g[dy][dx]| == fmt.Bpp() then fmt.Color(g[dy][dx]) else BLACK
  }

  lemma GridPixel(fmt: PixelFormat, g: Grid, w: nat, h: nat, dx: nat, dy: nat)
    requires GridOk(fmt, g, w, h) && dx < w && dy < h
    ensures PixelOf(fmt, RawBytes(g), dy * w + dx) == GridColor(fmt, g, dx, dy)
  {
    hide PixelFormat.Color;
    PixelsWidth(g, fmt.Bpp());
    PixelsAt(g, w, dx, dy);
    FlatAt(Pixels(g), fmt.Bpp(), dy * w + dx);
  }

  lemma RawBytesLength(fmt: PixelFormat, g: Grid, w: nat, h: nat)
    requires GridOk(fmt, g, w, h)
    ensures |RawBytes(g)| == w * h * fmt.Bpp()
  {
    PixelsWidth(g, fmt.Bpp());
    PixelsLength(g, w);
    FlatLength(Pixels(g), fmt.Bpp());
    assert h * w == w * h;
  }

  /** Raw data paints its grid. */
  lemma PaintGrid(fmt: PixelFormat, p: Picture, x0: int, y0: int, g: Grid, w: nat, h: nat)
    requires p.Valid() && GridOk(fmt, g, w, h)
    ensures PaintData(fmt, p, x0, y0, w, h, RawBytes(g))
      == PaintRect(p, x0, y0, w, h, (dx, dy) => GridColor(fmt, g, dx, dy))
  {
    hide PixelOf, GridColor, RawBytes, GridOk;
    var q := PaintData(fmt, p, x0, y0, w, h, RawBytes(g));
    var s := PaintRect(p, x0, y0, w, h, (dx, dy) => GridColor(fmt, g, dx, dy));
    forall x, y | q.Inside(x, y)
      ensures q.At(x, y) == s.At(x, y)
    {
      assert p.Inside(x, y) && s.Inside(x, y);
      if x0 <= x < x0 + w && y0 <= y < y0 + h { GridPixel(fmt, g, w, h, x - x0, y - y0); }
    }
    SamePixels(q, s);
  }

  lemma SubGridOk(fmt: PixelFormat, g: Grid, w: nat, h: nat, tx: nat, ty: nat, tw: nat, th: nat)
    requires GridOk(fmt, g, w, h) && tx + tw <= w && ty + th <= h
    ensures GridOk(fmt, SubGrid(g, tx, ty, tw, th), tw, th)
    ensures forall dx, dy :: 0 <= dx < tw && 0 <= dy < th ==>
      GridColor(fmt, SubGrid(g, tx, ty, tw, th), dx, dy) == GridColor(fmt, g, tx + dx, ty + dy)
  {
    hide PixelFormat.Color;
    var s := SubGrid(g, tx, ty, tw, th);
    assert forall dx, dy :: 0 <= dx < tw && 0 <= dy < th ==> s[dy][dx] == g[ty + dy][tx + dx];
  }

  /** One raw tile paints its part of the grid and carries the colours over. */
  lemma RawTile(fmt: PixelFormat, r: Rect, g: Grid, tx: nat, ty: nat, t: Tiles, tail: seq<byte>)
    requires GridOk(fmt, g, r.w, r.h) && tx < r.w && ty < r.h && t.Tiles? && t.pic.Valid()
    requires var s := SubGrid(g, tx, ty, Min(16, r.w - tx), Min(16, r.h - ty));
      t.rest == [RAW] + RawBytes(s) + tail
    ensures var u := Tile(fmt, r.x + tx, r.y + ty, Min(16, r.w - tx), Min(16, r.h - ty), t);
      && u == Tiles(u.pic, t.background, t.foreground, tail)
      && u.pic.w == t.pic.w && u.pic.h == t.pic.h
      && forall x, y :: t.pic.Inside(x, y) ==>
           u.pic.At(x, y) == if tx <= x - r.x < tx + Min(16, r.w - tx) && ty <= y - r.y < ty + Min(16, r.h - ty)
                             then GridColor(fmt, g, x - r.x, y - r.y) else t.pic.At(x, y)
  {
    hide GridColor, RawBytes, PaintData, TileBody, TileColor;
    var w, h := Min(16, r.w - tx), Min(16, r.h - ty);
    var s := SubGrid(g, tx, ty, w, h);
    SubGridOk(fmt, g, r.w, r.h, tx, ty, w, h);
    RawBytesLength(fmt, s, w, h);
    PaintGrid(fmt, t.pic, r.x + tx, r.y + ty, s, w, h);
    assert t.rest[1..] == RawBytes(s) + tail;
    TakePrefix(RawBytes(s), tail);
  }

  lemma TakePrefix(data: seq<byte>, tail: seq<byte>)
    ensures Take(data + tail, |data|) == Taken(data, tail)
  {
  }

  /** The tiles partition the rectangle: from (tx, ty) on they paint exactly the
      pixels that come later, each with its own colour. */
  lemma {:induction false} RawTiles(fmt: PixelFormat, r: Rect, g: Grid, tx: nat, ty: nat, t: Tiles, tail: seq<byte>)
    requires GridOk(fmt, g, r.w, r.h) && t.Tiles? && t.pic.Valid()
    requires t.rest == RawTileBytes(fmt, g, r.w, r.h, tx, ty) + tail
    ensures var u := TilesFrom(fmt, r, tx, ty, t);
      && u == Tiles(u.pic, t.background, t.foreground, tail)
      && u.pic.w == t.pic.w && u.pic.h == t.pic.h
      && forall x, y :: t.pic.Inside(x, y) ==>
           u.pic.At(x, y) == if 0 <= x - r.x < r.w && 0 <= y - r.y < r.h && Later(x - r.x, y - r.y, tx, ty)
                             then GridColor(fmt, g, x - r.x, y - r.y) else t.pic.At(x, y)
    decreases if r.h > ty then r.h - ty else 0, if r.w > tx then r.w - tx else 0
  {
    hide GridColor, RawBytes, Tile;
    if ty >= r.h {
      assert [] + tail == tail;
    } else if tx >= r.w {
      RawTiles(fmt, r, g, 0, ty + 16, t, tail);
    } else {
      var w, h := Min(16, r.w - tx), Min(16, r.h - ty);
      SubGridOk(fmt, g, r.w, r.h, tx, ty, w, h);
      var s := SubGrid(g, tx, ty, w, h);
      var rest := RawTileBytes(fmt, g, r.w, r.h, tx + 16, ty) + tail;
      assert t.rest == [RAW] + RawBytes(s) + rest;
      RawTile(fmt, r, g, tx, ty, t, rest);
      var u := Tile(fmt, r.x + tx, r.y + ty, w, h, t);
      RawTiles(fmt, r, g, tx + 16, ty, u, tail);
    }
  }

  /** A picture sent as raw Hextile tiles decodes to what the same picture sent in Raw
      encoding decodes to, and both consume exactly their bytes. */
  lemma RawHextileIsRaw(fmt: PixelFormat, r: Rect, g: Grid, p: Picture, tail: seq<byte>)
    requires p.Valid() && fmt.Bpp() > 0 && GridOk(fmt, g, r.w, r.h)
    ensures var d := Raw(fmt, r, p, RawBytes(g) + tail);
      d == Decoded(d.pic, tail) && Hextile(fmt, r, p, RawTileBytes(fmt, g, r.w, r.h, 0, 0) + tail) == d
  {
    hide GridColor, RawBytes, RawTileBytes, TilesFrom, PaintData, GridOk;
    RawBytesLength(fmt, g, r.w, r.h);
    TakePrefix(RawBytes(g), tail);
    PaintGrid(fmt, p, r.x, r.y, g, r.w, r.h);
    var t := Tiles(p, NO_COLOR, NO_COLOR, RawTileBytes(fmt, g, r.w, r.h, 0, 0) + tail);
    RawTiles(fmt, r, g, 0, 0, t, tail);
    SamePixels(TilesFrom(fmt, r, 0, 0, t).pic, Raw(fmt, r, p, RawBytes(g) + tail).pic);
  }
}
