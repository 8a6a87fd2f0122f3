/** The decoding side of an RFB connection: reads a stream and paints into its screen. */
module RfbDecode {
  import opened Bits
  import opened Framebuffers
  import opened Screens
  import opened RfbSpec
  import opened RfbUpdates

  class Conn {
    var input: seq<byte>
    const format: PixelFormat
    const screen: Screen

    ghost predicate Valid()
      reads this, screen, screen.pix
    {
      screen.Valid() && screen.pic.Valid()
    }

    constructor (input: seq<byte>, format: PixelFormat, width: int, height: int)
      ensures Valid() && this.input == input && this.format == format
      ensures fresh(screen) && fresh(screen.pix)
    {
      this.input, this.format := input, format;
      screen := new Screen(width, height);
    }

    /** Reads exactly n bytes; a short stream is used up by the attempt. */
    method Read(n: int) returns (data: seq<byte>, ok: bool)
      modifies this`input
      ensures match Take(old(input), n)
              case Short => !ok
              case Taken(d, rest) => ok && data == d && input == rest
    {
      if n < 0 {
        return [], false;
      }
      if n == 0 {
        return [], true;
      }
      if |input| < n {
        input := [];
        return [], false;
      }
      data, input, ok := input[..n], input[n..], true;
    }

    /** What a decoding method leaves behind when `d` is what the encoding means. */
    ghost predicate Shows(d: Decoded, ok: bool)
      reads this, screen
    {
      match d
      case Failed(p) => !ok && screen.pic == p
      case Decoded(p, rest) => ok && screen.pic == p && input == rest
    }

    /** Paints w by h pixels of data, row by row, at (x0, y0). */
    method PaintPixels(x0: int, y0: int, w: nat, h: nat, data: seq<byte>)
      requires Valid() && |data| == w * h * format.Bpp()
      modifies screen`pic, screen.pix
      ensures Valid()
      ensures screen.pic == PaintData(format, old(screen.pic), x0, y0, w, h, data)
    {
      hide PixelFormat.Color, RectUpTo, PaintRect, Screens.Shows, PixelOf;
      var bpp := format.Bpp();
      ghost var p := screen.pic;
      ghost var f := (dx: int, dy: int) => PixelOf(format, data, dy * w + dx);
      RectStart(p, x0, y0, w, f);
      var offset := 0;
      for y := 0 to h
        invariant Valid()
        invariant offset == (y * w) * bpp
        invariant RectUpTo(p, screen.pic, x0, y0, w, f, 0, y)
      {
        for x := 0 to w
          invariant Valid()
          invariant offset == (y * w + x) * bpp
          invariant RectUpTo(p, screen.pic, x0, y0, w, f, x, y)
        {
          NextPixel(w, h, x, y, bpp, |data|);
          RectNext(p, screen.pic, x0, y0, w, f, x, y);
          var c := format.Color(data[offset..offset + bpp]);
          PixelOfAt(format, data, y * w + x, offset);
          assert f(x, y) == c == Opaque(c);
          screen.SetPixel(x0 + x, y0 + y, c);
          offset := offset + bpp;
        }
        RectRow(p, screen.pic, x0, y0, w, f, w, y);
        assert (y + 1) * w == y * w + w;
      }
      RectDone(p, screen.pic, x0, y0, w, h, f, h);
    }

    method DecodeRaw(r: Rect) returns (ok: bool)
      requires Valid()
      modifies this`input, screen`pic, screen.pix
      ensures Valid()
      ensures Shows(Raw(format, r, old(screen.pic), old(input)), ok)
    {
      var bpp := format.Bpp();
      if bpp == 0 {
        return false;
      }
      var data;
      data, ok := Read(r.w * r.h * bpp);
      if ok {
        PaintPixels(r.x, r.y, r.w, r.h, data);
      }
    }

    method DecodeCopyRect(r: Rect) returns (ok: bool)
      requires Valid()
      modifies this`input, screen`pic, screen.pix
      ensures Valid()
      ensures Shows(Copy(r, old(screen.pic), old(input)), ok)
    {
      var src;
      src, ok := Read(4);
      if ok {
        screen.CopyRect(BigEndian(src[..2]), BigEndian(src[2..]), r.x, r.y, r.w, r.h);
      }
    }

    method DecodeRre(r: Rect) returns (ok: bool)
      requires Valid()
      modifies this`input, screen`pic, screen.pix
      ensures Valid()
      ensures Shows(Rre(format, r, old(screen.pic), old(input)), ok)
    {
      hide PixelFormat.Color, BigEndian, Screens.Shows, PaintRect;
      var bpp := format.Bpp();
      var header, body;
      header, ok := Read(4 + bpp);
      if !ok {
        return;
      }
      var count := BigEndian(header[..4]);
      if count > MAX_RECTANGLES * 16 {
        return false;
      }
      var background := format.Color(header[4..]);
      body, ok := Read(count * (bpp + 8));
      if !ok {
        return;
      }
      screen.FillRect(r.x, r.y, r.w, r.h, background);
      PaintRreSubs(r, count, body);
    }

    method PaintRreSubs(r: Rect, count: nat, body: seq<byte>)
      requires Valid() && |body| == count * (format.Bpp() + 8)
      modifies screen`pic, screen.pix
      ensures Valid()
      ensures screen.pic == PaintSubs(old(screen.pic), r.x, r.y, RreSubs(format, body, count))
    {
      hide PixelFormat.Color, BigEndian, Screens.Shows, PaintRect, RreSubs, PaintSubs;
      var bpp := format.Bpp();
      var offset := 0;
      ghost var subs: seq<Sub> := [];
      PaintNoSubs(screen.pic, r.x, r.y);
      NoRreSubs(format, body);
      for i := 0 to count
        invariant Valid()
        invariant offset == i * (bpp + 8) && offset <= |body|
        invariant subs == RreSubs(format, body, i) && screen.pic == PaintSubs(old(screen.pic), r.x, r.y, subs)
      {
        RowBefore(i, count, bpp + 8);
        OneMore(i, bpp + 8);
        NextRreSub(format, body, i, offset);
        var pixel := format.Color(body[offset..offset + bpp]);
        offset := offset + bpp;
        var x, y := BigEndian(body[offset..offset + 2]), BigEndian(body[offset + 2..offset + 4]);
        var w, h := BigEndian(body[offset + 4..offset + 6]), BigEndian(body[offset + 6..offset + 8]);
        offset := offset + 8;
        PaintOneSub(old(screen.pic), r.x, r.y, subs, Sub(pixel, x, y, w, h));
        subs := subs + [Sub(pixel, x, y, w, h)];
        screen.FillRect(r.x + x, r.y + y, w, h, pixel);
      }
    }

    method PaintTileSubs(x0: int, y0: int, flags: byte, foreground: RGBA, count: nat, body: seq<byte>)
      requires Valid() && IsColor(foreground) && |body| == count * SubSize(format, flags)
      modifies screen`pic, screen.pix
      ensures Valid()
      ensures screen.pic == PaintSubs(old(screen.pic), x0, y0, TileSubs(format, flags, foreground, body, count))
    {
      hide PixelFormat.Color, Screens.Shows, PaintRect, TileSubs, PaintSubs;
      var bpp, size := format.Bpp(), SubSize(format, flags);
      var offset := 0;
      ghost var subs: seq<Sub> := [];
      PaintNoSubs(screen.pic, x0, y0);
      NoTileSubs(format, flags, foreground, body);
      for i := 0 to count
        invariant Valid()
        invariant offset == i * size && offset <= |body|
        invariant subs == TileSubs(format, flags, foreground, body, i)
        invariant screen.pic == PaintSubs(old(screen.pic), x0, y0, subs)
      {
        RowBefore(i, count, size);
        OneMore(i, size);
        NextTileSub(format, flags, foreground, body, i, offset);
        var pixel := foreground;
        if Bit(flags, COLOURED) {
          pixel := format.Color(body[offset..offset + bpp]);
          offset := offset + bpp;
        }
        var position, extent: int := body[offset], body[offset + 1];
        offset := offset + 2;
        ghost var sub := Sub(pixel, position / 16, position % 16, extent / 16 + 1, extent % 16 + 1);
        PaintOneSub(old(screen.pic), x0, y0, subs, sub);
        subs := subs + [sub];
        screen.FillRect(x0 + position / 16, y0 + position % 16, extent / 16 + 1, extent % 16 + 1, pixel);
      }
    }

    /** A colour that a tile may specify, else the one carried over. */
    method ReadColor(present: bool, carried: RGBA) returns (c: RGBA, ok: bool)
      requires IsColor(carried)
      modifies this`input
      ensures var t := TileColor(format, present, carried, old(input));
        c == t.1 && IsColor(c) && ok == t.0.Taken? && (ok ==> input == t.0.rest)
    {
      c, ok := carried, true;
      if present {
        var raw;
        raw, ok := Read(format.Bpp());
        if ok {
          c := format.Color(raw);
        }
      }
    }

    /** One tile; `bg` and `fg` are the colours carried from tile to tile. */
    method DecodeTile(x0: int, y0: int, w: nat, h: nat, background: RGBA, foreground: RGBA)
      returns (bg: RGBA, fg: RGBA, ok: bool)
      requires Valid() && IsColor(background) && IsColor(foreground)
      modifies this`input, screen`pic, screen.pix
      ensures Valid() && IsColor(bg) && IsColor(fg)
      ensures match Tile(format, x0, y0, w, h, Tiles(old(screen.pic), background, foreground, old(input)))
              case TilesFailed(p) => !ok && screen.pic == p
              case Tiles(p, b, f, rest) => ok && screen.pic == p && bg == b && fg == f && input == rest
    {
      hide PixelFormat.Color, Screens.Shows, PaintRect, PaintSubs, TileSubs, TileColor;
      bg, fg := background, foreground;
      var flagByte;
      flagByte, ok := Read(1);
      if !ok {
        return;
      }
      var flags := flagByte[0];
      if Bit(flags, RAW) {
        var data;
        data, ok := Read(w * h * format.Bpp());
        if ok {
          PaintPixels(x0, y0, w, h, data);
        }
        return;
      }
      bg, ok := ReadColor(Bit(flags, BACKGROUND), bg);
      if !ok {
        return;
      }
      fg, ok := ReadColor(Bit(flags, FOREGROUND), fg);
      if !ok {
        return;
      }
      screen.FillRect(x0, y0, w, h, bg);
      if !Bit(flags, SUBRECTS) {
        return;
      }
      var countByte;
      countByte, ok := Read(1);
      if !ok {
        return;
      }
      var count: int := countByte[0];
      var body;
      body, ok := Read(count * SubSize(format, flags));
      if ok {
        PaintTileSubs(x0, y0, flags, fg, count, body);
      }
    }

    method DecodeHextile(r: Rect) returns (ok: bool)
      requires Valid()
      modifies this`input, screen`pic, screen.pix
      ensures Valid()
      ensures Shows(Hextile(format, r, old(screen.pic), old(input)), ok)
    {
      hide Tile, Screens.Shows;
      ghost var all := TilesFrom(format, r, 0, 0, Tiles(screen.pic, NO_COLOR, NO_COLOR, input));
      var background, foreground := NO_COLOR, NO_COLOR;
      var tileY := 0;
      while tileY < r.h
        invariant Valid() && 0 <= tileY && IsColor(background) && IsColor(foreground)
        invariant TilesFrom(format, r, 0, tileY, Tiles(screen.pic, background, foreground, input)) == all
      {
        var tileH := Min(16, r.h - tileY);
        var tileX := 0;
        while tileX < r.w
          invariant Valid() && 0 <= tileX && IsColor(background) && IsColor(foreground)
          invariant TilesFrom(format, r, tileX, tileY, Tiles(screen.pic, background, foreground, input)) == all
        {
          var tileW := Min(16, r.w - tileX);
          background, foreground, ok := DecodeTile(r.x + tileX, r.y + tileY, tileW, tileH, background, foreground);
          if !ok {
            return;
          }
          tileX := tileX + 16;
        }
        tileY := tileY + 16;
      }
      return true;
    }

    /** The pixel array is the one it was, or a new one after a resize. */
    twostate predicate OwnPixels()
      reads screen
    {
      screen.pix == old(screen.pix) || fresh(screen.pix)
    }

    method SkipCursor(r: Rect) returns (ok: bool)
      modifies this`input
      ensures match Take(old(input), CursorSize(format, r))
              case Short => !ok
              case Taken(_, rest) => ok && input == rest
    {
      var maskLength := ((r.w + 7) / 8) * r.h;
      var _, read := Read(r.w * r.h * format.Bpp() + maskLength);
      ok := read;
    }

    method DecodeRectangle(r: Rect, encoding: int) returns (done: bool, resized: bool, ok: bool)
      requires Valid()
      modifies this`input, screen, screen.pix
      ensures OwnPixels() && Valid() && screen.revision == old(screen.revision)
      ensures match Apply(format, r, encoding, old(screen.pic), old(input))
              case Rejected(p) => !ok && screen.pic == p
              case Applied(p, rest, d, s) => ok && screen.pic == p && input == rest && done == d && resized == s
    {
      hide Raw, Copy, Rre, Hextile, ResizedTo, CursorSize, Screens.Shows;
      done, resized, ok := false, false, true;
      if encoding == ENC_LAST {
        done := true;
      } else if encoding == ENC_DESKTOP {
        screen.Resize(r.w, r.h);
        resized := true;
      } else if encoding == ENC_CURSOR {
        ok := SkipCursor(r);
      } else if encoding == ENC_RAW {
        ok := DecodeRaw(r);
      } else if encoding == ENC_COPY {
        ok := DecodeCopyRect(r);
      } else if encoding == ENC_RRE {
        ok := DecodeRre(r);
      } else if encoding == ENC_HEXTILE {
        ok := DecodeHextile(r);
      } else {
        ok := false;
      }
    }

    /** The revision counts exactly the updates that came through. */
    method ReadFramebufferUpdate() returns (update: Update, ok: bool)
      requires Valid()
      modifies this`input, screen, screen.pix
      ensures OwnPixels() && Valid()
      ensures screen.revision == old(screen.revision) + (if ok then 1 else 0)
      ensures match ReadUpdate(format, old(screen.pic), old(input))
              case Broken(p) => !ok && screen.pic == p
              case Complete(p, rest, u) => ok && screen.pic == p && input == rest && update == u
    {
      hide Apply, BigEndian, Screens.Shows;
      update := NOTHING;
      var header;
      header, ok := Read(3);
      if !ok {
        return;
      }
      var limit := BigEndian(header[1..3]);
      if limit == UNKNOWN_COUNT {
        limit := MAX_RECTANGLES;
      } else if limit > MAX_RECTANGLES {
        return update, false;
      }
      ghost var all := Rects(format, limit, screen.pic, input, update);
      var i := 0;
      while i < limit
        invariant 0 <= i <= limit && OwnPixels() && Valid() && screen.revision == old(screen.revision)
        invariant Rects(format, limit - i, screen.pic, input, update) == all
      {
        var raw;
        raw, ok := Read(12);
        if !ok {
          return;
        }
        var done, resized;
        done, resized, ok := DecodeRectangle(RectOf(raw), EncodingOf(raw));
        if !ok {
          return;
        }
        update := Update(update.resized || resized, update.rectangles + 1);
        if done {
          break;
        }
        i := i + 1;
      }
      screen.Commit();
      ok := true;
    }
  }

  lemma PixelOfAt(fmt: PixelFormat, data: seq<byte>, k: nat, o: nat)
    requires o == k * fmt.Bpp() && o + fmt.Bpp() <= |data|
    ensures PixelOf(fmt, data, k) == fmt.Color(data[o..o + fmt.Bpp()])
  {
  }

  /** The next pixel of the data lies where the offset says and ends within the data. */
  lemma NextPixel(w: nat, h: nat, x: nat, y: nat, bpp: nat, size: nat)
    requires x < w && y < h && size == w * h * bpp
    ensures var k := y * w + x;
      0 <= k && 0 <= k * bpp && k * bpp + bpp <= size && (k + 1) * bpp == k * bpp + bpp
  {
    RowBefore(y, h, w);
    assert h * w == w * h;
    MulNonNeg(y, w);
    RowBefore(y * w + x, w * h, bpp);
    MulNonNeg(y * w + x, bpp);
  }

  // ---- One subrectangle more ------------------------------------------------------------

  lemma PaintNoSubs(p: Picture, x0: int, y0: int)
    requires p.Valid()
    ensures PaintSubs(p, x0, y0, []) == p
  {
  }

  lemma PaintOneSub(p: Picture, x0: int, y0: int, subs: seq<Sub>, last: Sub)
    requires p.Valid()
    ensures PaintSubs(p, x0, y0, subs + [last])
      == Fill(PaintSubs(p, x0, y0, subs), x0 + last.x, y0 + last.y, last.w, last.h, last.color)
  {
    assert (subs + [last])[..|subs|] == subs;
  }

  lemma NoRreSubs(fmt: PixelFormat, body: seq<byte>)
    ensures RreSubs(fmt, body, 0) == []
  {
  }

  lemma NextRreSub(fmt: PixelFormat, body: seq<byte>, i: nat, o: nat)
    requires o == i * (fmt.Bpp() + 8) && (i + 1) * (fmt.Bpp() + 8) == o + fmt.Bpp() + 8 <= |body|
    ensures var p := o + fmt.Bpp();
      RreSubs(fmt, body, i + 1) == RreSubs(fmt, body, i)
        + [Sub(fmt.Color(body[o..p]), BigEndian(body[p..p + 2]), BigEndian(body[p + 2..p + 4]),
               BigEndian(body[p + 4..p + 6]), BigEndian(body[p + 6..p + 8]))]
  {
    hide PixelFormat.Color, BigEndian;
  }

  lemma NoTileSubs(fmt: PixelFormat, flags: byte, foreground: RGBA, body: seq<byte>)
    ensures TileSubs(fmt, flags, foreground, body, 0) == []
  {
  }

  lemma NextTileSub(fmt: PixelFormat, flags: byte, foreground: RGBA, body: seq<byte>, i: nat, o: nat)
    requires var size := SubSize(fmt, flags); o == i * size && (i + 1) * size == o + size <= |body|
    ensures var at := o + SubSize(fmt, flags) - 2;
      TileSubs(fmt, flags, foreground, body, i + 1) == TileSubs(fmt, flags, foreground, body, i)
        + [Sub(if Bit(flags, COLOURED) then fmt.Color(body[o..at]) else foreground,
               body[at] / 16, body[at] % 16, body[at + 1] / 16 + 1, body[at + 1] % 16 + 1)]
  {
    hide PixelFormat.Color;
  }
}
