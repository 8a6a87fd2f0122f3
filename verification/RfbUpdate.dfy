/**
 A whole framebuffer update: its header, the rectangles that follow and how each is
 dispatched (sections 7.6.1, 7.7 and 7.8 of RFC 6143). Whatever follows an update on
 the stream has no say in it, and an update that announces its number of rectangles
 means what the same rectangles mean when a LastRect marker ends them.
 */
module RfbUpdates {
  import opened Bits
  import opened Framebuffers
  import opened RfbSpec
  import opened Screens

  const ENC_RAW := 0
  const ENC_COPY := 1
  const ENC_RRE := 2
  const ENC_HEXTILE := 5
  const ENC_CURSOR := -239
  const ENC_DESKTOP := -223
  const ENC_LAST := -224

  function Signed32(v: nat): int { if v >= 0x8000_0000 then v - 0x1_0000_0000 else v }

  /** One rectangle applied: the picture, what is left of the stream, whether it ends
      the update and whether it resized the screen. */
  datatype Applied = Rejected(pic: Picture) | Applied(pic: Picture, rest: seq<byte>, done: bool, resized: bool)

  function Drawn(d: Decoded): Applied {
    match d
    case Failed(p) => Rejected(p)
    case Decoded(p, rest) => Applied(p, rest, false, false)
  }

  function CursorSize(fmt: PixelFormat, r: Rect): nat {
    MulNonNeg(r.w * r.h, fmt.Bpp());
    MulNonNeg((r.w + 7) / 8, r.h);
    r.w * r.h * fmt.Bpp() + ((r.w + 7) / 8) * r.h
  }

  function Apply(fmt: PixelFormat, r: Rect, encoding: int, p: Picture, input: seq<byte>): (a: Applied)
    requires p.Valid()
    ensures a.pic.Valid()
  {
    if encoding == ENC_LAST then Applied(p, input, true, false)
    else if encoding == ENC_DESKTOP then Applied(ResizedTo(p, r.w, r.h), input, false, true)
    else if encoding == ENC_CURSOR then
      match Take(input, CursorSize(fmt, r))
      case Short => Rejected(p)
      case Taken(_, rest) => Applied(p, rest, false, false)
    else if encoding == ENC_RAW then Drawn(Raw(fmt, r, p, input))
    else if encoding == ENC_COPY then Drawn(Copy(r, p, input))
    else if encoding == ENC_RRE then Drawn(Rre(fmt, r, p, input))
    else if encoding == ENC_HEXTILE then Drawn(Hextile(fmt, r, p, input))
    else Rejected(p)
  }

  function RectOf(raw: seq<byte>): Rect
    requires |raw| == 12
  {
    Rect(BigEndian(raw[0..2]), BigEndian(raw[2..4]), BigEndian(raw[4..6]), BigEndian(raw[6..8]))
  }

  function EncodingOf(raw: seq<byte>): int
    requires |raw| == 12
  {
    Signed32(BigEndian(raw[8..12]))
  }

  datatype Update = Update(resized: bool, rectangles: nat)

  datatype Outcome = Broken(pic: Picture) | Complete(pic: Picture, rest: seq<byte>, update: Update)

  /** At most n more rectangles. */
  function Rects(fmt: PixelFormat, n: nat, p: Picture, input: seq<byte>, u: Update): (o: Outcome)
    requires p.Valid()
    ensures o.pic.Valid()
  {
    if n == 0 then Complete(p, input, u)
    else match Take(input, 12)
      case Short => Broken(p)
      case Taken(raw, body) =>
        match Apply(fmt, RectOf(raw), EncodingOf(raw), p, body)
        case Rejected(q) => Broken(q)
        case Applied(q, rest, done, resized) =>
          var v := Update(u.resized || resized, u.rectangles + 1);
          if done then Complete(q, rest, v) else Rects(fmt, n - 1, q, rest, v)
  }

  const NOTHING := Update(false, 0)
  const UNKNOWN_COUNT := 0xffff

  function ReadUpdate(fmt: PixelFormat, p: Picture, input: seq<byte>): (o: Outcome)
    requires p.Valid()
    ensures o.pic.Valid()
  {
    match Take(input, 3)
    case Short => Broken(p)
    case Taken(header, body) =>
      var count := BigEndian(header[1..3]);
      if count == UNKNOWN_COUNT then Rects(fmt, MAX_RECTANGLES, p, body, NOTHING)
      else if count > MAX_RECTANGLES then Broken(p)
      else Rects(fmt, count, p, body, NOTHING)
  }

  // ---- What follows a rectangle does not matter ---------------------------------------

  lemma TakeMore(input: seq<byte>, n: int, more: seq<byte>)
    requires Take(input, n).Taken?
    ensures Take(input + more, n) == Taken(Take(input, n).data, Take(input, n).rest + more)
  {
  }

  function More(t: Tiles, more: seq<byte>): Tiles
    requires t.Tiles?
  {
    t.(rest := t.rest + more)
  }

  lemma TileColorMore(fmt: PixelFormat, present: bool, carried: RGBA, input: seq<byte>, more: seq<byte>)
    requires TileColor(fmt, present, carried, input).0.Taken?
    ensures var t := TileColor(fmt, present, carried, input);
      TileColor(fmt, present, carried, input + more) == (Taken(t.0.data, t.0.rest + more), t.1)
  {
    hide PixelFormat.Color;
    if present { TakeMore(input, fmt.Bpp(), more); }
  }

  lemma TileBodyMore(fmt: PixelFormat, p: Picture, x0: int, y0: int, flags: byte,
                     bg: RGBA, fg: RGBA, input: seq<byte>, more: seq<byte>)
    requires p.Valid() && TileBody(fmt, p, x0, y0, flags, bg, fg, input).Tiles?
    ensures TileBody(fmt, p, x0, y0, flags, bg, fg, input + more)
      == More(TileBody(fmt, p, x0, y0, flags, bg, fg, input), more)
  {
    hide TileSubs, PaintSubs;
    if Bit(flags, SUBRECTS) {
      assert (input + more)[1..] == input[1..] + more;
      TakeMore(input[1..], input[0] * SubSize(fmt, flags), more);
    }
  }

  lemma TileMore(fmt: PixelFormat, x0: int, y0: int, w: nat, h: nat, t: Tiles, more: seq<byte>)
    requires t.Tiles? && t.pic.Valid() && Tile(fmt, x0, y0, w, h, t).Tiles?
    ensures Tile(fmt, x0, y0, w, h, More(t, more)) == More(Tile(fmt, x0, y0, w, h, t), more)
  {
    hide TileColor, TileBody, PaintData, Fill;
    var flags, input := t.rest[0], t.rest[1..];
    assert (t.rest + more)[1..] == input + more;
    if Bit(flags, RAW) {
      TakeMore(input, w * h * fmt.Bpp(), more);
    } else {
      var (b, bg) := TileColor(fmt, Bit(flags, BACKGROUND), t.background, input);
      TileColorMore(fmt, Bit(flags, BACKGROUND), t.background, input, more);
      var (f, fg) := TileColor(fmt, Bit(flags, FOREGROUND), t.foreground, b.rest);
      TileColorMore(fmt, Bit(flags, FOREGROUND), t.foreground, b.rest, more);
      TileBodyMore(fmt, Fill(t.pic, x0, y0, w, h, bg), x0, y0, flags, bg, fg, f.rest, more);
    }
  }

  lemma {:induction false} TilesMore(fmt: PixelFormat, r: Rect, tx: nat, ty: nat, t: Tiles, more: seq<byte>)
    requires t.Tiles? && t.pic.Valid() && TilesFrom(fmt, r, tx, ty, t).Tiles?
    ensures TilesFrom(fmt, r, tx, ty, More(t, more)) == More(TilesFrom(fmt, r, tx, ty, t), more)
    decreases if r.h > ty then r.h - ty else 0, if r.w > tx then r.w - tx else 0
  {
    hide Tile;
    if ty >= r.h {
    } else if tx >= r.w {
      TilesMore(fmt, r, 0, ty + 16, t, more);
    } else {
      var u := Tile(fmt, r.x + tx, r.y + ty, Min(16, r.w - tx), Min(16, r.h - ty), t);
      if u.Tiles? {
        TileMore(fmt, r.x + tx, r.y + ty, Min(16, r.w - tx), Min(16, r.h - ty), t, more);
        TilesMore(fmt, r, tx + 16, ty, u, more);
      }
    }
  }

  lemma RreMore(fmt: PixelFormat, r: Rect, p: Picture, input: seq<byte>, more: seq<byte>)
    requires p.Valid() && Rre(fmt, r, p, input).Decoded?
    ensures var d := Rre(fmt, r, p, input); Rre(fmt, r, p, input + more) == Decoded(d.pic, d.rest + more)
  {
    hide RreSubs, PaintSubs, PixelFormat.Color, Fill, BigEndian;
    var header := Take(input, 4 + fmt.Bpp());
    TakeMore(input, 4 + fmt.Bpp(), more);
    TakeMore(header.rest, BigEndian(header.data[..4]) * (fmt.Bpp() + 8), more);
  }

  /** A rectangle takes its own bytes off the stream and no byte beyond them has a say. */
  lemma ApplyMore(fmt: PixelFormat, r: Rect, encoding: int, p: Picture, input: seq<byte>, more: seq<byte>)
    requires p.Valid() && Apply(fmt, r, encoding, p, input).Applied?
    ensures var a := Apply(fmt, r, encoding, p, input);
      Apply(fmt, r, encoding, p, input + more) == a.(rest := a.rest + more)
  {
    hide Rre, TilesFrom, PaintData, CopiedRect, ResizedTo, CursorSize, BigEndian;
    if encoding == ENC_CURSOR {
      TakeMore(input, CursorSize(fmt, r), more);
    } else if encoding == ENC_RAW {
      TakeMore(input, r.w * r.h * fmt.Bpp(), more);
    } else if encoding == ENC_COPY {
      TakeMore(input, 4, more);
    } else if encoding == ENC_RRE {
      RreMore(fmt, r, p, input, more);
    } else if encoding == ENC_HEXTILE {
      TilesMore(fmt, r, 0, 0, Tiles(p, NO_COLOR, NO_COLOR, input), more);
    }
  }

  lemma {:induction false} RectsMore(fmt: PixelFormat, n: nat, p: Picture, input: seq<byte>, u: Update, more: seq<byte>)
    requires p.Valid() && Rects(fmt, n, p, input, u).Complete?
    ensures var o := Rects(fmt, n, p, input, u); Rects(fmt, n, p, input + more, u) == o.(rest := o.rest + more)
  {
    hide Apply, RectOf, EncodingOf;
    if n == 0 {
    } else {
      var t := Take(input, 12);
      TakeMore(input, 12, more);
      ApplyMore(fmt, RectOf(t.data), EncodingOf(t.data), p, t.rest, more);
      var a := Apply(fmt, RectOf(t.data), EncodingOf(t.data), p, t.rest);
      if !a.done {
        RectsMore(fmt, n - 1, a.pic, a.rest, Update(u.resized || a.resized, u.rectangles + 1), more);
      }
    }
  }

  /** What follows an update on the stream does not change what the update does. */
  lemma UpdateMore(fmt: PixelFormat, p: Picture, input: seq<byte>, more: seq<byte>)
    requires p.Valid() && ReadUpdate(fmt, p, input).Complete?
    ensures var o := ReadUpdate(fmt, p, input); ReadUpdate(fmt, p, input + more) == o.(rest := o.rest + more)
  {
    hide Rects, BigEndian;
    var t := Take(input, 3);
    TakeMore(input, 3, more);
    var count := BigEndian(t.data[1..3]);
    RectsMore(fmt, if count == UNKNOWN_COUNT then MAX_RECTANGLES else count, p, t.rest, NOTHING, more);
  }

  // ---- Counted and marked updates -------------------------------------------------------

  /** n rectangles that decode, none of them a LastRect marker. */
  ghost predicate Plain(fmt: PixelFormat, n: nat, p: Picture, input: seq<byte>)
    requires p.Valid()
  {
    n == 0 ||
    match Take(input, 12)
    case Short => false
    case Taken(raw, body) =>
      match Apply(fmt, RectOf(raw), EncodingOf(raw), p, body)
      case Rejected(_) => false
      case Applied(q, rest, done, _) => !done && Plain(fmt, n - 1, q, rest)
  }

  /** After n plain rectangles, a reader that takes up to m more goes on where they end. */
  lemma {:induction false} RectsThen(fmt: PixelFormat, n: nat, m: nat, p: Picture, input: seq<byte>, u: Update)
    requires p.Valid() && Plain(fmt, n, p, input)
    ensures var o := Rects(fmt, n, p, input, u);
      && o.Complete? && o.update.rectangles == u.rectangles + n
      && Rects(fmt, n + m, p, input, u) == Rects(fmt, m, o.pic, o.rest, o.update)
  {
    hide Apply, RectOf, EncodingOf;
    if n == 0 {
    } else {
      var t := Take(input, 12);
      var a := Apply(fmt, RectOf(t.data), EncodingOf(t.data), p, t.rest);
      RectsThen(fmt, n - 1, m, a.pic, a.rest, Update(u.resized || a.resized, u.rectangles + 1));
    }
  }

  lemma {:induction false} PlainMore(fmt: PixelFormat, n: nat, p: Picture, input: seq<byte>, more: seq<byte>)
    requires p.Valid() && Plain(fmt, n, p, input)
    ensures Plain(fmt, n, p, input + more)
  {
    hide Apply, RectOf, EncodingOf;
    if n == 0 {
    } else {
      var t := Take(input, 12);
      TakeMore(input, 12, more);
      ApplyMore(fmt, RectOf(t.data), EncodingOf(t.data), p, t.rest, more);
      var a := Apply(fmt, RectOf(t.data), EncodingOf(t.data), p, t.rest);
      PlainMore(fmt, n - 1, a.pic, a.rest, more);
    }
  }

  /** A LastRect pseudo-rectangle. */
  const MARKER: seq<byte> := [0, 0, 0, 0, 0, 0, 0, 0, 0xff, 0xff, 0xff, 0x20]

  lemma MarkerEnds(fmt: PixelFormat, m: nat, p: Picture, tail: seq<byte>, u: Update)
    requires p.Valid()
    ensures Rects(fmt, m, p, MARKER + tail, u)
      == if m == 0 then Complete(p, MARKER + tail, u) else Complete(p, tail, u.(rectangles := u.rectangles + 1))
  {
    if m > 0 {
      assert Take(MARKER + tail, 12) == Taken(MARKER, tail);
      assert MARKER[8..12] == [0xff, 0xff] + [0xff] + [0x20];
      BigEndianTwo(0xff, 0xff);
      BigEndianNext([0xff, 0xff], 0xff);
      BigEndianNext([0xff, 0xff] + [0xff], 0x20);
    }
  }

  /** An update message: padding, the number of rectangles and the rectangles. */
  function Message(n: nat, body: seq<byte>): seq<byte>
    requires n < 0x1_0000
  {
    [0, n / 256, n % 256] + body
  }

  lemma MessageCount(fmt: PixelFormat, n: nat, p: Picture, body: seq<byte>)
    requires p.Valid() && n < 0x1_0000
    ensures ReadUpdate(fmt, p, Message(n, body)) ==
      if n == UNKNOWN_COUNT then Rects(fmt, MAX_RECTANGLES, p, body, NOTHING)
      else if n > MAX_RECTANGLES then Broken(p)
      else Rects(fmt, n, p, body, NOTHING)
  {
    hide Rects;
    var t := Take(Message(n, body), 3);
    assert t == Taken([0, n / 256, n % 256], body);
    assert t.data[1..3] == [n / 256, n % 256];
    BigEndianTwo(n / 256, n % 256);
  }

  /** n plain rectangles announced by their number, and the same rectangles with no
      number but a LastRect marker at the end, leave the same picture and resize flag.
      The marker itself is taken off the stream exactly when n is below the limit. */
  lemma CountedIsMarked(fmt: PixelFormat, n: nat, p: Picture, body: seq<byte>, q: Picture, u: Update, tail: seq<byte>)
    requires p.Valid() && n <= MAX_RECTANGLES && Plain(fmt, n, p, body)
    requires Rects(fmt, n, p, body, NOTHING) == Complete(q, [], u)
    ensures u.rectangles == n
    ensures ReadUpdate(fmt, p, Message(n, body + tail)) == Complete(q, tail, u)
    ensures ReadUpdate(fmt, p, Message(UNKNOWN_COUNT, body + (MARKER + tail)))
      == if n < MAX_RECTANGLES then Complete(q, tail, u.(rectangles := n + 1)) else Complete(q, MARKER + tail, u)
  {
    hide Rects, Plain, Message, ReadUpdate;
    RectsThen(fmt, n, 0, p, body, NOTHING);
    MessageCount(fmt, n, p, body + tail);
    RectsMore(fmt, n, p, body, NOTHING, tail);
    assert [] + tail == tail;
    MessageCount(fmt, UNKNOWN_COUNT, p, body + (MARKER + tail));
    RectsMore(fmt, n, p, body, NOTHING, MARKER + tail);
    PlainMore(fmt, n, p, body, MARKER + tail);
    RectsThen(fmt, n, MAX_RECTANGLES - n, p, body + (MARKER + tail), NOTHING);
    assert [] + (MARKER + tail) == MARKER + tail;
    MarkerEnds(fmt, MAX_RECTANGLES - n, q, tail, u);
  }

  /** A DesktopSize rectangle of no size, which changes nothing. */
  const BLANK_RECT: seq<byte> := [0, 0, 0, 0, 0, 0, 0, 0, 0xff, 0xff, 0xff, 0x21]

  function Blanks(n: nat): seq<byte> {
    if n == 0 then [] else BLANK_RECT + Blanks(n - 1)
  }

  lemma BlankApplies(fmt: PixelFormat, p: Picture, rest: seq<byte>)
    requires p.Valid()
    ensures Take(BLANK_RECT + rest, 12) == Taken(BLANK_RECT, rest)
    ensures Apply(fmt, RectOf(BLANK_RECT), EncodingOf(BLANK_RECT), p, rest) == Applied(p, rest, false, true)
  {
    assert BLANK_RECT[0..2] == BLANK_RECT[2..4] == BLANK_RECT[4..6] == BLANK_RECT[6..8] == [0, 0];
    BigEndianTwo(0, 0);
    assert BLANK_RECT[8..12] == [0xff, 0xff] + [0xff] + [0x21];
    BigEndianTwo(0xff, 0xff);
    BigEndianNext([0xff, 0xff], 0xff);
    BigEndianNext([0xff, 0xff] + [0xff], 0x21);
  }

  lemma {:induction false} BlanksPlain(fmt: PixelFormat, n: nat, p: Picture, u: Update)
    requires p.Valid()
    ensures Plain(fmt, n, p, Blanks(n))
    ensures Rects(fmt, n, p, Blanks(n), u) == Complete(p, [], Update(u.resized || n > 0, u.rectangles + n))
  {
    hide Apply, RectOf, EncodingOf;
    if n == 0 {
    } else {
      BlankApplies(fmt, p, Blanks(n - 1));
      BlanksPlain(fmt, n - 1, p, Update(true, u.rectangles + 1));
    }
  }

  /** A stream at which the marker stays: 4096 empty resizes, then LastRect. The update is
      over before the marker, which the next message reader will meet. */
  lemma MarkerStays(fmt: PixelFormat, p: Picture, tail: seq<byte>)
    requires p.Valid()
    ensures ReadUpdate(fmt, p, Message(UNKNOWN_COUNT, Blanks(MAX_RECTANGLES) + (MARKER + tail)))
      == Complete(p, MARKER + tail, Update(true, MAX_RECTANGLES))
  {
    hide Plain, Rects, Blanks, ReadUpdate, Message;
    BlanksPlain(fmt, MAX_RECTANGLES, p, NOTHING);
    CountedIsMarked(fmt, MAX_RECTANGLES, p, Blanks(MAX_RECTANGLES), p, Update(true, MAX_RECTANGLES), tail);
  }
}
