/**
 What the codes of a video stream come to after several states: a literal colour is
 painted with the components that were sent, a move lands on the block that was sent,
 and a firmware command gets the parameters that were pushed before its opcode.
 */
module DecoderCodes {
  import opened Bits
  import opened BitReader
  import opened ColorCache
  import opened DecoderRun
  import opened Framebuffers
  import opened Machine

  // ---- Runs of codes --------------------------------------------------------------------

  /** The machine after these codes, each read by the state it then is in. */
  function Codes(m: Machine, codes: seq<byte>): (n: Machine)
    requires Ok(m)
    ensures Ok(n)
  {
    if codes == [] then m
    else
      var p := Codes(m, codes[..|codes| - 1]);
      OkFrame(p, p.regs.(code := codes[|codes| - 1]));
      Execute(p.(regs := p.regs.(code := codes[|codes| - 1])))
  }

  // ---- Literal colours ------------------------------------------------------------

  lemma {:induction false} OrCommutes(a: nat, b: nat)
    ensures Or(a, b) == Or(b, a)
    decreases a + b
  {
    if a == 0 || b == 0 {
    } else {
      OrCommutes(a / 2, b / 2);
    }
  }

  lemma {:induction false} ShlWire(x: seq<bool>, k: nat)
    ensures Shl(FromWire(x), k) == FromWire(Zeros(k) + x)
  {
    if k == 0 {
      assert Zeros(0) + x == x;
    } else {
      ShlWire(x, k - 1);
      assert (Zeros(k) + x)[1..] == Zeros(k - 1) + x;
    }
  }

  /** Inserting bits below others where there were only zeros. */
  lemma OrBelow(low: seq<bool>, high: seq<bool>)
    ensures Or(FromWire(Zeros(|low|) + high), FromWire(low)) == FromWire(low + high)
  {
    OrAppends(low, high);
    ShlWire(high, |low|);
    OrCommutes(FromWire(Zeros(|low|) + high), FromWire(low));
  }

  lemma {:induction false} ClearLow(low: seq<bool>, high: seq<bool>)
    ensures AndNot(FromWire(low + high), Mask(|low|)) == FromWire(Zeros(|low|) + high)
  {
    if low == [] {
      assert low + high == high == Zeros(0) + high;
      AndNotZero(FromWire(high));
    } else {
      var n := |low|;
      assert (low + high)[1..] == low[1..] + high;
      assert (Zeros(n) + high)[1..] == Zeros(n - 1) + high;
      assert Mask(n) % 2 == 1 && Mask(n) / 2 == Mask(n - 1);
      assert FromWire(low + high) / 2 == FromWire(low[1..] + high);
      ClearLow(low[1..], high);
    }
  }

  lemma {:induction false} AndNotZero(a: nat)
    ensures AndNot(a, 0) == a
  {
    if a == 0 {
    } else {
      AndNotZero(a / 2);
    }
  }

  lemma WireFits(x: seq<bool>)
    requires |x| <= 16
    ensures FromWire(x) < 65536
  {
    FromWireBound(x);
    Pow2Monotone(|x|, 16);
    assert Pow2(8) == 256;
    assert Pow2(16) == 65536;
  }

  /** The colour word of three components. */
  ghost function ColorWord(bits: nat, red: nat, green: nat, blue: nat): seq<bool> {
    ToWire(blue, bits) + (ToWire(green, bits) + ToWire(red, bits))
  }

  lemma WordOfParts(bits: nat, red: nat, green: nat, blue: byte)
    requires bits <= 5 && red < Pow2(bits) && green < Pow2(bits) && blue < Pow2(bits)
    ensures SetBlue(bits, Or16(Shl16(red, bits * 2), Shl16(green, bits)), blue)
      == FromWire(ColorWord(bits, red, green, blue))
  {
    hide Or, Shl, FromWire, ToWire, AndNot, Pow2;
    var r, g, b, z := ToWire(red, bits), ToWire(green, bits), ToWire(blue, bits), Zeros(bits);
    FromToWire(red, bits);
    FromToWire(green, bits);
    FromToWire(blue, bits);
    ShlWire(r, bits * 2);
    ShlWire(g, bits);
    assert Zeros(bits * 2) + r == Zeros(|z + g|) + r;
    OrBelow(z + g, r);
    assert z + g + r == z + (g + r);
    ClearLow(z, g + r);
    OrBelow(b, g + r);
    WireFits(Zeros(bits * 2) + r);
    WireFits(z + g);
    WireFits(z + (g + r));
    WireFits(b + (g + r));
  }

  lemma ShlSmall(v: nat, bits: nat)
    requires bits <= 8 && v < Pow2(bits)
    ensures Shl(v, 8 - bits) < 256
  {
    ShlPow2(v, bits, 8 - bits);
    assert Pow2(8) == 256;
  }

  lemma {:induction false} ShlPow2(v: nat, n: nat, k: nat)
    requires v < Pow2(n)
    ensures Shl(v, k) < Pow2(n + k)
  {
    if k == 0 {
    } else {
      ShlPow2(v, n, k - 1);
    }
  }

  lemma ChannelPart(bits: nat, c: Color, word: seq<bool>, k: nat, v: nat)
    requires bits <= 8 && v < Pow2(bits) && k + bits <= |word|
    requires c == FromWire(word) && word[k..k + bits] == ToWire(v, bits)
    ensures Channel(bits, c, k) == Shl(v, 8 - bits)
  {
    hide And, Shr, Shl, FromWire, ToWire, Pow2;
    SplitAt(word, k);
    SplitAt(word[k..], bits);
    assert word[k..][..bits] == word[k..k + bits];
    FromToWire(v, bits);
    ShlSmall(v, bits);
  }

  lemma ColorParts(bits: nat, red: nat, green: nat, blue: nat, c: Color)
    requires 0 < bits <= 5 && red < Pow2(bits) && green < Pow2(bits) && blue < Pow2(bits)
    requires c == FromWire(ColorWord(bits, red, green, blue))
    ensures DecodeColor(bits, c) == RGBA(Shl(red, 8 - bits), Shl(green, 8 - bits), Shl(blue, 8 - bits), 255)
  {
    hide Channel, Shl, FromWire, ToWire, Pow2;
    var word := ColorWord(bits, red, green, blue);
    assert word[0..bits] == ToWire(blue, bits) && word[bits..bits + bits] == ToWire(green, bits);
    assert word[bits * 2..bits * 2 + bits] == ToWire(red, bits);
    ChannelPart(bits, c, word, bits * 2, red);
    ChannelPart(bits, c, word, bits, green);
    ChannelPart(bits, c, word, 0, blue);
  }

  /** The colour a literal state puts together. */
  function LiteralWord(r: Regs): Color {
    var bits := r.bitsPerColor;
    SetBlue(bits, if r.state == 8 then Or16(Shl16(r.code, bits * 2), Shl16(r.code, bits)) else r.color, r.code)
  }

  /** What a component state leaves, and which state reads the next component. */
  lemma ComponentStep(m: Machine)
    requires Ok(m) && (m.regs.state == 9 || m.regs.state == 41)
    ensures var n := Execute(m);
      && n.regs.state == (if m.regs.state == 9 then 41 else 42)
      && n.regs.color == (if m.regs.state == 9 then Shl16(m.regs.code, m.regs.bitsPerColor * 2)
                          else Or16(m.regs.color, Shl16(m.regs.code, m.regs.bitsPerColor)))
      && n.block == m.block && n.cache == m.cache && n.regs.bitsPerColor == m.regs.bitsPerColor
      && n.regs.pixelCount == m.regs.pixelCount && n.regs.blockHeight == m.regs.blockHeight
  {
    assert ChooseNext(m.regs).next == (if m.regs.state == 9 then 41 else 42);
    hide RegsOk, Recency.Valid, Picture.Valid, ChooseNext, Shl16, Or16;
  }

  /** A block with the pixel at `count` in colour c, if blocks of this height have one. */
  function WithPixel(block: seq<RGBA>, count: nat, height: nat, c: RGBA): seq<RGBA> {
    if count < height * BLOCK_WIDTH && count < |block| then block[count := c] else block
  }

  lemma LiteralColorPaints(m: Machine)
    requires Ok(m)
    ensures var n, c := LiteralColor(m), SetBlue(m.regs.bitsPerColor, m.regs.color, m.regs.code);
      if c in m.cache.order then n.regs.next == LATCHED && n.block == m.block
      else
        && n.regs.next == m.regs.next
        && n.block == WithPixel(m.block, m.regs.pixelCount, m.regs.blockHeight, DecodeColor(m.regs.bitsPerColor, c))
  {
    hide RegsOk, Recency.Valid, Picture.Valid, SetBlue, DecodeColor, PixcodeFor;
  }

  /** A literal colour is painted exactly when the cache did not have it; else the decoder
      latches and paints nothing. */
  lemma LiteralStep(m: Machine)
    requires Ok(m) && (m.regs.state == 42 || m.regs.state == 8)
    ensures var n, c := Execute(m), LiteralWord(m.regs);
      if c in m.cache.order then n.regs.state == LATCHED && n.block == m.block
      else
        && n.regs.state == 10
        && n.block == WithPixel(m.block, m.regs.pixelCount, m.regs.blockHeight, DecodeColor(m.regs.bitsPerColor, c))
  {
    var r := ChooseNext(m.regs);
    assert r.next == 10;
    hide RegsOk, Recency.Valid, Picture.Valid, ChooseNext, Shl16, Or16, SetBlue, DecodeColor, LiteralColor, WithPixel;
    if m.regs.state == 42 {
      LiteralColorPaints(m.(regs := r));
    } else {
      MoveKeepsOk(m.(regs := r));
      LiteralColorPaints(m.(regs := MoveState(r)));
    }
  }

  /** One code of a run of codes. */
  lemma CodesNext(m: Machine, codes: seq<byte>, code: byte)
    requires Ok(m)
    ensures var p := Codes(m, codes);
      Ok(p.(regs := p.regs.(code := code))) && Codes(m, codes + [code]) == Execute(p.(regs := p.regs.(code := code)))
  {
    hide Execute, Ok;
    OkFrame(Codes(m, codes), Codes(m, codes).regs.(code := code));
    assert (codes + [code])[..|codes|] == codes;
  }

  /** The colour word of red, green and blue codes. */
  ghost function WordFor(bits: nat, red: nat, green: nat, blue: nat): nat {
    FromWire(ColorWord(bits, red, green, blue))
  }

  ghost function Scaled(bits: nat, red: nat, green: nat, blue: nat): RGBA
    requires bits <= 8
  {
    RGBA(Shl(red, 8 - bits), Shl(green, 8 - bits), Shl(blue, 8 - bits), 255)
  }

  lemma OkBits(m: Machine)
    requires Ok(m)
    ensures 2 <= m.regs.bitsPerColor <= 5
  {
  }

  lemma WordDecodes(bits: nat, red: nat, green: nat, blue: byte)
    requires 0 < bits <= 5 && red < Pow2(bits) && green < Pow2(bits) && blue < Pow2(bits)
    ensures var word := SetBlue(bits, Or16(Shl16(red, bits * 2), Shl16(green, bits)), blue);
      word == WordFor(bits, red, green, blue) && DecodeColor(bits, word) == Scaled(bits, red, green, blue)
  {
    WordOfParts(bits, red, green, blue);
    ColorParts(bits, red, green, blue, SetBlue(bits, Or16(Shl16(red, bits * 2), Shl16(green, bits)), blue));
  }

  lemma ComponentsRead(m: Machine, red: byte, green: byte)
    requires Ok(m) && m.regs.state == 9
    ensures var n, bits := Codes(m, [red, green]), m.regs.bitsPerColor;
      && n.regs.state == 42 && n.regs.color == Or16(Shl16(red, bits * 2), Shl16(green, bits))
      && n.block == m.block && n.cache == m.cache && n.regs.bitsPerColor == bits
      && n.regs.pixelCount == m.regs.pixelCount && n.regs.blockHeight == m.regs.blockHeight
  {
    hide Ok, RegsOk, Execute, Or16, Shl16;
    assert Codes(m, []) == m && [] + [red] == [red] && [red] + [green] == [red, green];
    hide Codes;
    CodesNext(m, [], red);
    var m1 := m.(regs := m.regs.(code := red));
    ComponentStep(m1);
    CodesNext(m, [red], green);
    ComponentStep(Execute(m1).(regs := Execute(m1).regs.(code := green)));
  }

  /** Red, green and blue codes read from PIXRGBR on, at any colour depth: the next pixel of
      the block is that colour, each component in the high bits of its byte, unless the cache
      already had it; then the decoder latches and the block is as it was. */
  lemma RgbPainted(m: Machine, red: byte, green: byte, blue: byte)
    requires Ok(m) && m.regs.state == 9
    requires var k := Pow2(m.regs.bitsPerColor); red < k && green < k && blue < k
    ensures var n, bits := Codes(m, [red, green, blue]), m.regs.bitsPerColor;
      && bits <= 8
      && if WordFor(bits, red, green, blue) in m.cache.order then n.regs.state == LATCHED && n.block == m.block
         else
           && n.regs.state == 10
           && n.block == WithPixel(m.block, m.regs.pixelCount, m.regs.blockHeight, Scaled(bits, red, green, blue))
  {
    hide Ok, RegsOk;
    var bits := m.regs.bitsPerColor;
    OkBits(m);
    WordDecodes(bits, red, green, blue);
    hide WordFor, Scaled, Recency.Valid, Picture.Valid;
    hide Execute, SetBlue, Or16, Shl16, DecodeColor, Shl, FromWire, ColorWord, Pow2, WithPixel;
    hide Codes;
    assert [red, green] + [blue] == [red, green, blue];
    ComponentsRead(m, red, green);
    CodesNext(m, [red, green], blue);
    var p := Codes(m, [red, green]);
    LiteralStep(p.(regs := p.regs.(code := blue)));
  }

  /** A single grey code likewise, with three equal components. */
  lemma GreyPainted(m: Machine, level: byte)
    requires Ok(m) && m.regs.state == 8 && level < Pow2(m.regs.bitsPerColor)
    ensures var n, bits := Codes(m, [level]), m.regs.bitsPerColor;
      && bits <= 8
      && if WordFor(bits, level, level, level) in m.cache.order then n.regs.state == LATCHED && n.block == m.block
         else
           && n.regs.state == 10
           && n.block == WithPixel(m.block, m.regs.pixelCount, m.regs.blockHeight, Scaled(bits, level, level, level))
  {
    hide Ok, RegsOk;
    var bits := m.regs.bitsPerColor;
    OkBits(m);
    WordDecodes(bits, level, level, level);
    hide WordFor, Scaled, Recency.Valid, Picture.Valid;
    hide Execute, SetBlue, Or16, Shl16, DecodeColor, Shl, FromWire, ColorWord, Pow2, WithPixel;
    assert Codes(m, []) == m && [] + [level] == [level];
    hide Codes;
    CodesNext(m, [], level);
    var m1 := m.(regs := m.regs.(code := level));
    LiteralStep(m1);
  }

  // ---- Runs of one colour ----------------------------------------------------------------

  /** A run paints the next `count` pixels of the block in the last colour, as far as the
      block reaches, and no other pixel of it. */
  lemma {:induction false} RunFills(m: Machine, count: nat)
    requires Ok(m)
    ensures var n := StoreRun(m, count);
      && |n.block| == |m.block| && n.regs.pixelCount == m.regs.pixelCount + count
      && n.regs.lastColor == m.regs.lastColor && n.regs.bitsPerColor == m.regs.bitsPerColor
      && n.regs.blockHeight == m.regs.blockHeight
      && n.regs.sizeX == m.regs.sizeX && n.regs.newX == m.regs.newX
      && forall i :: 0 <= i < |m.block| ==>
           n.block[i] == if m.regs.pixelCount <= i < m.regs.pixelCount + count && i < m.regs.blockHeight * BLOCK_WIDTH
                         then DecodeColor(m.regs.bitsPerColor, m.regs.lastColor) else m.block[i]
    decreases count
  {
    hide DecodeColor, RegsOk, Recency.Valid, Picture.Valid;
    if count == 0 {
    } else {
      RunFills(StorePixel(m, m.regs.lastColor), count - 1);
    }
  }

  // ---- Moves ---------------------------------------------------------------------------

  /** A column and a row code of as many bits as the table asks for land on that block. */
  lemma MoveLands(r: Regs, x: byte, y: byte)
    requires RegsOk(r) && x < Pow2(r.table[17].bits) && y < Pow2(r.table[39].bits)
    ensures RegsOk(r.(state := 17, code := x))
    ensures var q := MoveState(r.(state := 17, code := x)).(state := 39, code := y);
      RegsOk(q) && MoveState(q).lastX == x && MoveState(q).lastY == y
  {
    assert Pow2(7) == 128;
  }

  /** A short move goes right by its code plus one exactly when the column it aims at is
      below 128. */
  lemma ShortMoveLands(r: Regs, code: byte)
    requires RegsOk(r)
    ensures RegsOk(r.(state := 20, code := code))
    ensures MoveState(r.(state := 20, code := code)).lastX == r.lastX + code + 1 <==> r.lastX + code + 1 < 128
  {
  }

  // ---- Screens are fewer than 128 blocks wide -----------------------------------------------

  /** The width in blocks, and the width about to be set, have seven bits. */
  ghost predicate Narrow(m: Machine) {
    m.regs.sizeX < 128 && (m.regs.state == 40 ==> m.regs.newX < 128)
  }

  /** Only MODE1 sets the width in blocks, only MOVEXY0 and MODE0 the value it takes, and no
      state goes to MODE1 unless the table says so. */
  ghost predicate SizesSet(m: Machine, n: Machine) {
    && n.regs.sizeX == (if m.regs.state == 40 then m.regs.newX else m.regs.sizeX)
    && n.regs.newX == (if m.regs.state == 17 || m.regs.state == 26 then m.regs.code else m.regs.newX)
    && (n.regs.next == 40 ==> m.regs.next == 40)
  }

  lemma RunSizes(m: Machine)
    requires Ok(m) && NextChosen(m.regs) && m.regs.state in {12, 13, 14}
    ensures SizesSet(m, PixelState(m))
  {
    hide RegsOk, Recency.Valid, Picture.Valid, DecodeColor, StoreRun, FetchColor, LiteralColor;
    var s, code: int := m.regs.state, m.regs.code;
    if s == 12 {
      RegsOkFrame(m.regs, m.regs.(code := (code + 2) % 256));
      RunFills(m.(regs := m.regs.(code := (code + 2) % 256)), (code + 2) % 256);
    } else if s == 13 {
      RegsOkFrame(m.regs, m.regs.(code := (code + 8) % 256));
      RunFills(m.(regs := m.regs.(code := (code + 8) % 256)), (code + 8) % 256);
    } else {
      RunFills(m, code);
    }
  }

  /** The sizes stay as they are and the state to follow is none of the modes'. */
  ghost predicate SizesKept(m: Machine, n: Machine) {
    n.regs.sizeX == m.regs.sizeX && n.regs.newX == m.regs.newX && (n.regs.next == 40 ==> m.regs.next == 40)
  }

  lemma FetchSizes(m: Machine)
    requires Ok(m)
    ensures SizesKept(m, FetchColor(m))
  {
    hide RegsOk, Recency.Valid, Picture.Valid, DecodeColor, RecencyCode;
  }

  lemma LiteralSizes(m: Machine)
    requires Ok(m)
    ensures SizesKept(m, LiteralColor(m))
  {
    hide RegsOk, Recency.Valid, Picture.Valid, DecodeColor, SetBlue, PixcodeFor;
  }

  lemma ColorSizes(m: Machine)
    requires Ok(m) && NextChosen(m.regs) && m.regs.state in {3, 4, 5, 6, 7, 32, 33}
    ensures SizesSet(m, PixelState(m))
  {
    FetchSizes(m);
    hide RegsOk, Recency.Valid, Picture.Valid, DecodeColor, StoreRun;
    hide RepeatStandard, FetchColor, LiteralColor, MoveState, NextChosen;
  }

  lemma NewColorSizes(m: Machine)
    requires Ok(m) && NextChosen(m.regs) && m.regs.state in {42, 8}
    ensures SizesSet(m, PixelState(m))
  {
    MoveSizes(m.regs);
    MoveKeepsOk(m);
    LiteralSizes(m);
    LiteralSizes(m.(regs := MoveState(m.regs)));
    hide RegsOk, Recency.Valid, Picture.Valid, StorePixel, StoreRun;
    hide RepeatStandard, FetchColor, LiteralColor, MoveState, NextChosen;
  }

  lemma MoveKeepsOk(m: Machine)
    requires Ok(m)
    ensures Ok(m.(regs := MoveState(m.regs)))
  {
    hide RegsOk, MoveState, Recency.Valid, Picture.Valid;
  }

  lemma BlockSizes(m: Machine)
    requires Ok(m) && NextChosen(m.regs) && m.regs.state in {34, 29, 30}
    ensures SizesSet(m, BlockState(m))
  {
    hide RegsOk, Recency.Valid, Picture.Valid;
  }

  lemma MoveSizes(r: Regs)
    requires RegsOk(r)
    ensures var q := MoveState(r);
      && q.sizeX == r.sizeX && q.next == r.next
      && q.newX == if r.state == 17 || r.state == 26 then r.code else r.newX
  {
    hide RegsOk;
  }

  lemma SwitchSizes(m: Machine, cx: nat, cy: nat)
    requires Ok(m)
    ensures SizesKept(m, SwitchVideoMode(m, cx, cy))
  {
    hide RegsOk, Recency.Valid, Picture.Valid, SetHalfHeight, Filled;
  }

  lemma HeaderSizes(m: Machine)
    requires Ok(m) && m.regs.cmdLast in {11, 12, 13}
    ensures SizesKept(m, ProcessCommand(m))
  {
    hide RegsOk, Recency.Valid, Picture.Valid, SetBitsPerColor, CommandParams, ClearScreen;
  }

  lemma ScreenSizes(m: Machine)
    requires Ok(m) && m.regs.cmdLast !in {11, 12, 13}
    ensures SizesKept(m, ProcessCommand(m))
  {
    hide RegsOk, Recency.Valid, Picture.Valid, SetBitsPerColor, SetEncryption, CommandParams, HeaderRegs;
  }

  lemma CommandSizes(m: Machine)
    requires Ok(m)
    ensures SizesKept(m, ProcessCommand(m))
  {
    hide ProcessCommand, Ok;
    if m.regs.cmdLast in {11, 12, 13} { HeaderSizes(m); } else { ScreenSizes(m); }
  }

  lemma TimeoutSizes(m: Machine)
    requires Ok(m)
    ensures SizesKept(m, Timeout(m))
  {
    hide RegsOk, Recency.Valid, Picture.Valid, DiscardToByteBoundary;
  }

  lemma Mode2Sizes(m: Machine)
    requires Ok(m)
    ensures SizesKept(m, SetMode2(m))
  {
    hide RegsOk, Picture.Valid, SwitchVideoMode;
    var r := m.regs.(lastX := 0, lastY := 0, pixelCount := 0, sizeY1 := m.regs.code);
    RegsOkFrame(m.regs, r);
    SwitchSizes(ResetCache(m).(regs := r), r.sizeX * BLOCK_WIDTH, r.sizeY * 16 + r.sizeY1);
  }

  lemma PrintSizes(m: Machine)
    requires Ok(m) && NextChosen(m.regs)
    ensures SizesKept(m, PrintOctet(m)) && SizesKept(m, ResetState(m)) && SizesKept(m, Hunt(m))
  {
    hide RegsOk, Recency.Valid, Picture.Valid, Ok;
  }

  lemma FrameSizes(m: Machine)
    requires Ok(m) && NextChosen(m.regs) && m.regs.state in {0, 40, 47}
    ensures SizesSet(m, FrameState(m))
  {
    PrintSizes(m);
    Mode2Sizes(m);
    hide RegsOk, Recency.Valid, Picture.Valid, Filled, ResetState, SetMode2;
  }

  lemma OtherSizes(m: Machine)
    requires Ok(m) && NextChosen(m.regs) && m.regs.state in {35, 27, 45, 46, 43}
    ensures SizesSet(m, ControlState(m))
  {
    TimeoutSizes(m);
    PrintSizes(m);
    CommandSizes(m);
    hide RegsOk, Recency.Valid, Picture.Valid, MoveState, ProcessCommand;
    hide FrameState, Timeout, PrintOctet, Hunt, NextChosen;
  }

  lemma ControlSizes(m: Machine)
    requires Ok(m) && NextChosen(m.regs)
    requires m.regs.state !in {3, 4, 5, 6, 7, 32, 42, 8, 12, 13, 14, 33, 34, 29, 30}
    ensures SizesSet(m, ControlState(m))
  {
    if m.regs.state in {0, 40, 47} { FrameSizes(m); }
    else if m.regs.state in {35, 27, 45, 46, 43} { OtherSizes(m); }
    else { MoveSizes(m.regs); }
    hide RegsOk, Recency.Valid, Picture.Valid, MoveState, FrameState, Firmware, Timeout, PrintOctet, Hunt, NextChosen;
  }

  lemma ActSizes(m: Machine)
    requires Ok(m) && NextChosen(m.regs)
    ensures SizesSet(m, Act(m))
  {
    if m.regs.state in {12, 13, 14} { RunSizes(m); }
    else if m.regs.state in {42, 8} { NewColorSizes(m); }
    else if m.regs.state in {3, 4, 5, 6, 7, 32, 33} { ColorSizes(m); }
    else if m.regs.state in {34, 29, 30} { BlockSizes(m); }
    else { ControlSizes(m); }
    hide PixelState, BlockState, ControlState, SizesSet, Ok, NextChosen;
  }

  lemma FinishSizes(m: Machine)
    requires Ok(m)
    ensures var n := FinishBlock(m).regs;
      n.sizeX == m.regs.sizeX && n.newX == m.regs.newX && (n.next == m.regs.next || n.next == 1)
  {
    hide RegsOk, Recency.Valid, Picture.Valid;
  }

  /** MODE1 comes only after MODE0, which reads seven bits. */
  lemma OnlyMode0Leads(r: Regs)
    requires RegsOk(r) && ChooseNext(r).next == 40
    ensures r.state == 26 && r.table[26].bits == 7
  {
  }

  lemma ExecuteNarrow(m: Machine)
    requires Ok(m) && Narrow(m) && (m.regs.state == 26 ==> m.regs.code < 128)
    ensures Narrow(Execute(m))
  {
    var r := ChooseNext(m.regs);
    if r.next == 40 { OnlyMode0Leads(m.regs); }
    assert r.sizeX == m.regs.sizeX && r.newX == m.regs.newX && r.state == m.regs.state && r.code == m.regs.code;
    hide RegsOk, Recency.Valid, Picture.Valid, Act, FinishBlock, ChooseNext;
    ActSizes(m.(regs := r));
    FinishSizes(Act(m.(regs := r)));
  }

  lemma CodeFits(r: Reader, n: nat, code: byte, input: seq<byte>)
    requires 0 < n <= 8 && GetBits(r, n, code, input).Got?
    ensures GetBits(r, n, code, input).code < Pow2(n)
  {
    hide Wire, LeadingZeros, TrailingZeros, Code, Pow2;
    if |r.pending| >= n { CodeBound(r.pending[..n]); }
    else { CodeBound((r.pending + Wire(input[0]))[..n]); }
  }

  lemma Mode0Code(m: Machine, input: seq<byte>)
    requires Ok(m) && m.regs.state == 26 && GetBits(m.reader, Width(m), m.regs.code, input).Got?
    ensures GetBits(m.reader, Width(m), m.regs.code, input).code < 128
  {
    hide GetBits;
    assert Width(m) == 7;
    CodeFits(m.reader, 7, m.regs.code, input);
    assert Pow2(7) == 128;
  }

  lemma StepNarrow(m: Machine, input: seq<byte>)
    requires Ok(m) && Narrow(m)
    ensures Narrow(Step(m, input).m)
  {
    var f := GetBits(m.reader, Width(m), m.regs.code, input);
    GetBitsValid(m.reader, Width(m), m.regs.code, input);
    if f.Got? {
      var n := Loaded(m, f);
      if m.regs.state == 26 { Mode0Code(m, input); }
      hide Execute, Ok, GetBits, Width;
      ExecuteNarrow(n);
    }
  }

  lemma {:induction false} RunNarrow(m: Machine, input: seq<byte>)
    requires Ok(m) && Narrow(m)
    ensures Ok(Run(m, input)) && Narrow(Run(m, input))
    decreases Budget(m, input)
  {
    hide Step, Narrow;
    StepProgress(m, input);
    StepNarrow(m, input);
    match Step(m, input)
    case Stop(n) =>
    case Go(n, rest) => if !n.regs.halt { RunNarrow(n, rest); }
  }

  /** A new decoder, whatever packets it has been fed, shows fewer than 128 blocks side by
      side, and a short move to any of those columns lands. */
  lemma ShortMoveReachesScreen(m: Machine, w: nat, h: nat, packets: seq<seq<byte>>, code: byte)
    requires Ok(m) && m.regs == InitialRegs(w, h)
    ensures var r := FeedAll(m, packets).regs;
      && r.sizeX < 128 && RegsOk(r.(state := 20, code := code))
      && (r.lastX + code + 1 < r.sizeX ==> MoveState(r.(state := 20, code := code)).lastX == r.lastX + code + 1)
  {
    NewIsNarrow(m, w, h);
    RunNarrow(m, Join(packets));
    PacketsDoNotMatter(m, packets);
    ShortMoveLands(FeedAll(m, packets).regs, code);
    hide Run, MoveState, InitialRegs;
  }

  lemma NewIsNarrow(m: Machine, w: nat, h: nat)
    requires m.regs == InitialRegs(w, h)
    ensures Narrow(m)
  {
  }

  // ---- Video modes -----------------------------------------------------------------------

  lemma HalfHeightRows(r: Regs)
    requires RegsOk(r)
    ensures var q := SetHalfHeight(r);
      && (q.blockHeight == 8 <==> r.pixelWidth > 1616 && r.halfHeightCapable)
      && |q.table| == |r.table| == STATES
      && forall i :: 0 <= i < STATES ==>
           if i in {17, 21, 30, 39} then q.table[i].bits == if q.blockHeight == 8 then 8 else 7
           else q.table[i] == r.table[i]
  {
  }

  /** The block height follows the screen width after every mode switch, and the rows
      that read block coordinates and counts widen with it; no other row changes. */
  lemma ModeTakesHold(m: Machine, cx: nat, cy: nat)
    requires Ok(m)
    ensures var n := SwitchVideoMode(m, cx, cy);
      && n.regs.pixelWidth == n.pic.w == (if cx == 0 || cy == 0 then 800 else cx)
      && n.regs.pixelHeight == n.pic.h == (if cx == 0 || cy == 0 then 600 else cy)
      && (n.regs.blockHeight == 8 <==> n.pic.w > 1616 && m.regs.halfHeightCapable)
      && |n.regs.table| == |m.regs.table| == STATES
      && forall i :: 0 <= i < STATES ==>
           if i in {17, 21, 30, 39} then n.regs.table[i].bits == if n.regs.blockHeight == 8 then 8 else 7
           else n.regs.table[i] == m.regs.table[i]
  {
    hide TableOk, SetHalfHeight, Filled, Recency.Valid, Picture.Valid;
    var w, h := if cx == 0 || cy == 0 then 800 else cx, if cx == 0 || cy == 0 then 600 else cy;
    var r := m.regs.(pixelWidth := w, pixelHeight := h, revision := m.regs.revision + 1);
    RegsOkFrame(m.regs, r);
    HalfHeightRows(m.regs);
    HalfHeightRows(r);
  }

  /** A header with four parameters or more sets colour depth, cipher and half-height
      ability, and a shorter one nothing; only the four colour rows change. */
  lemma HeaderTakesHold(r: Regs)
    requires RegsOk(r)
    ensures var p, q := CommandParams(r), HeaderRegs(r);
      && |q.table| == |r.table| == STATES
      && (|p| < 4 ==> q == r)
      && (|p| >= 4 ==>
            && q.encryption == p[1] && q.encryptionID == r.encryptionID + 1 && q.ready
            && (q.halfHeightCapable <==> And(p[3], 8) == 8)
            && forall i :: 0 <= i < STATES ==>
                 if i in {8, 9, 41, 42} then q.table[i].bits == 5 - And(p[0], 3) else q.table[i] == r.table[i])
  {
    hide TableOk, And;
    var p := CommandParams(r);
    if |p| >= 4 {
      LowTwo(p[0]);
      BitThree(p[3]);
    }
  }

  lemma LowTwo(v: nat)
    ensures And(v, 3) == v % 4
  {
    var half := v / 2;
    assert And(half, 1) == half % 2;
    assert And(v, 3) == v % 2 + 2 * And(half, 1);
  }

  lemma BitThree(v: nat)
    ensures And(v, 8) == 8 <==> (v / 8) % 2 == 1
  {
    var a, b, c := v / 2, v / 4, v / 8;
    assert And(c, 1) == c % 2;
    assert And(b, 2) == 2 * And(c, 1);
    assert And(a, 4) == 2 * And(b, 2);
    assert And(v, 8) == 2 * And(a, 4);
  }

  // ---- Cache codes -----------------------------------------------------------------------

  /** The PIXCODE state for a cache of three colours or more reads exactly as many bits as
      it takes to name every rank but rank 1, which PIXLRU1 names: each such rank has a code
      of that width, and one bit less would not do. */
  lemma PixcodeReachesAll(r: Regs, active: nat, rank: nat)
    requires RegsOk(r) && 3 <= active <= CAPACITY && r.state == PixcodeFor(active) && rank < active && rank != 1
    ensures var code: byte := if rank == 0 then 0 else rank - 1;
      code < Pow2(r.table[r.state].bits) && RecencyCode(r.(code := code), active) == rank
    ensures r.table[r.state].bits > 0 && Pow2(r.table[r.state].bits - 1) < active - 1
  {
    assert Pow2(0) == 1 && Pow2(1) == 2 && Pow2(2) == 4 && Pow2(3) == 8 && Pow2(4) == 16;
    hide Pow2;
  }

  // ---- Firmware messages -------------------------------------------------------------------

  function Text(octets: seq<byte>): seq<byte> {
    if |octets| <= MAX_MESSAGE then octets else octets[..MAX_MESSAGE]
  }

  /** What PRINT0 and PRINT1 do with one code. */
  lemma PrintStep(m: Machine)
    requires Ok(m) && (m.regs.state == 44 || m.regs.state == 45)
    ensures var n := Execute(m);
      && n.listening == m.listening
      && if m.regs.state == 44 then
           n.regs.state == 45 && n.regs.printTag == m.regs.code && n.regs.printText == [] && n.messages == m.messages
         else if m.regs.code != 0 then
           && n.regs.state == 45 && n.regs.printTag == m.regs.printTag && n.messages == m.messages
           && n.regs.printText == (if |m.regs.printText| < MAX_MESSAGE
                                   then m.regs.printText + [m.regs.code] else m.regs.printText)
         else
           && n.regs.state == 1 && n.regs.printText == []
           && n.messages == (if m.listening && m.regs.printText != []
                             then m.messages + [(m.regs.printTag, m.regs.printText)] else m.messages)
  {
    var r := ChooseNext(m.regs);
    assert r.next == 45 by { assert m.regs.table[44] == BaseRow(44) && m.regs.table[45] == BaseRow(45); }
    hide RegsOk, Recency.Valid, Picture.Valid, ChooseNext;
  }

  lemma {:induction false} PrintGathers(m: Machine, tag: byte, octets: seq<byte>)
    requires Ok(m) && m.regs.state == 44 && forall i :: 0 <= i < |octets| ==> octets[i] != 0
    ensures var n := Codes(m, [tag] + octets);
      && n.regs.state == 45 && n.regs.printTag == tag && n.regs.printText == Text(octets)
      && n.messages == m.messages && n.listening == m.listening
  {
    hide Execute, Ok, RegsOk;
    var codes := [tag] + octets;
    var front := codes[..|codes| - 1];
    var p := Codes(m, front);
    OkFrame(p, p.regs.(code := codes[|codes| - 1]));
    if octets == [] {
      assert codes == [tag] && front == [];
    } else {
      assert front == [tag] + octets[..|octets| - 1];
      PrintGathers(m, tag, octets[..|octets| - 1]);
    }
    PrintStep(p.(regs := p.regs.(code := codes[|codes| - 1])));
    hide Codes;
  }

  /** A tag, non-zero octets and a zero, read from PRINT0 on, deliver exactly one message,
      the tag with the first 4096 octets, to a handler if there is one and there is text;
      then the decoder is back in START with no text kept. */
  lemma PrintDelivers(m: Machine, tag: byte, octets: seq<byte>)
    requires Ok(m) && m.regs.state == 44 && forall i :: 0 <= i < |octets| ==> octets[i] != 0
    ensures var n := Codes(m, [tag] + octets + [0]);
      && n.messages == m.messages + (if m.listening && octets != [] then [(tag, Text(octets))] else [])
      && n.regs.state == 1 && n.regs.printText == []
  {
    hide Execute, Ok, RegsOk;
    var codes := [tag] + octets + [0];
    assert codes[..|codes| - 1] == [tag] + octets;
    PrintGathers(m, tag, octets);
    var p := Codes(m, [tag] + octets);
    OkFrame(p, p.regs.(code := 0));
    PrintStep(p.(regs := p.regs.(code := 0)));
    assert m.messages + [] == m.messages;
  }

  // ---- Command parameters --------------------------------------------------------------

  function PushAll(r: Regs, octets: seq<byte>): (q: Regs)
    requires RegsOk(r)
    ensures RegsOk(q)
  {
    if octets == [] then r else PushCommandOctet(PushAll(r, octets[..|octets| - 1]), octets[|octets| - 1])
  }

  function Capped(n: nat): nat { if n < 256 then n else 256 }

  /** Whatever the buffer held before, a command of any length sees as parameters the
      octets before its opcode, at most 255 of them, and as opcode the last octet. */
  lemma {:induction false} ParamsArePushed(r: Regs, octets: seq<byte>)
    requires RegsOk(r) && r.cmdCount == 0
    ensures var q := PushAll(r, octets);
      && q.cmdCount == Capped(|octets|)
      && CommandParams(q) == (if octets == [] then [] else octets[..Capped(|octets|) - 1])
      && (octets != [] ==> q.cmdLast == octets[|octets| - 1])
  {
    hide TableOk;
    if octets == [] {
    } else {
      var front := octets[..|octets| - 1];
      ParamsArePushed(r, front);
      var p, q := PushAll(r, front), PushAll(r, octets);
      if front != [] {
        assert front[..Capped(|front|) - 1] == octets[..Capped(|front|) - 1];
        assert forall i :: 0 <= i < p.cmdCount - 1 ==> p.cmdBuff[i] == CommandParams(p)[i];
        assert forall i :: 0 <= i < q.cmdCount - 1 ==> q.cmdBuff[i] == octets[i];
      }
    }
  }
}
