/**
 The decoder object: an input buffer, a bit accumulator, tables, a counter-based
 cache and a framebuffer, all updated in place. Value() is the Machine it stands
 for; every method is proved to do to that value what Machine and DecoderRun say.
 */
module Decoders {
  import opened Bits
  import opened BitReader
  import opened BitTables
  import C = ColorCache
  import F = Framebuffers
  import S = Machine
  import R = DecoderRun

  class Decoder {
    var buf: seq<byte>
    var readPtr: nat
    var regs: S.Regs
    var ibAcc: nat
    var ibBcnt: nat
    var zeroCount: nat
    ghost var pending: seq<bool>
    const tables: ByteTables
    const cache: C.Cache
    const block: array<F.RGBA>
    var fb: F.Framebuffer
    const listening: bool
    var messages: seq<(byte, seq<byte>)>

    constructor (w: int, h: int, listening: bool)
      ensures Valid() && Idle() && !regs.halt
      ensures fresh(cache) && fresh(cache.element) && fresh(block) && fresh(fb) && fresh(fb.img) && fresh(tables.entry)
      ensures Tracks(Value().reader, [], [])
    {
      hide S.RegsOk, S.InitialRegs, C.Represents, Wire;
      fb := new F.Framebuffer(w, h);
      cache := new C.Cache();
      tables := new ByteTables();
      block := new F.RGBA[256](_ => F.RGBA(0, 0, 0, 0));
      buf, readPtr := [], 0;
      ibAcc, ibBcnt, zeroCount, pending := 0, 0, 0, [];
      regs := S.InitialRegs(if w <= 0 then 800 else w, if h <= 0 then 600 else h);
      this.listening := listening;
      messages := [];
    }

    ghost function Unread(): seq<byte>
      requires readPtr <= |buf|
      reads this
    {
      buf[readPtr..]
    }

    ghost function ReaderValue(): Reader
      reads this
    {
      Reader(pending, Saturate(zeroCount))
    }

    /** The accumulator holds exactly the buffered bits, the first of them lowest. */
    ghost predicate Buffered()
      reads this, tables.entry
    {
      && tables.Valid() && readPtr <= |buf|
      && ibBcnt == |pending| && ibAcc == FromWire(pending)
    }

    ghost predicate ReaderOk()
      reads this, tables.entry
    {
      Buffered() && |pending| <= 7
    }

    method GetByte() returns (b: byte, ok: bool)
      requires readPtr <= |buf|
      modifies this`readPtr
      ensures readPtr <= |buf|
      ensures ok == (old(Unread()) != [])
      ensures if ok then b == old(Unread())[0] && Unread() == old(Unread())[1..] else Unread() == old(Unread())
    {
      if readPtr >= |buf| {
        return 0, false;
      }
      b := buf[readPtr];
      readPtr := readPtr + 1;
      ok := true;
    }

    /** What GetBit leaves behind when `f` is what the reader model says. */
    twostate predicate Fetched(f: Fetch, bit: nat, ok: bool)
      requires readPtr <= |buf|
      reads this
    {
      && ReaderValue() == f.reader
      && match f
         case Dry(_) => !ok && bit == 0 && Unread() == [] && regs == old(regs)
         case Resync(_, rest) => ok && bit == 4 && Unread() == rest && regs == old(regs).(state := 0, next := 0)
         case Got(code, _, rest) => ok && bit == 0 && Unread() == rest && regs == old(regs).(code := code)
    }

    /** Fetch after the first zero run: skip zero bytes and restart after the next other byte. */
    method Resynchronise(first: byte) returns (bit: nat, ok: bool)
      requires ReaderOk() && zeroCount >= RESYNC
      modifies this`readPtr, this`ibAcc, this`ibBcnt, this`zeroCount, this`pending, this`regs
      ensures ReaderOk()
      ensures Fetched(Skip(old(ReaderValue()), [first] + old(Unread())), bit, ok)
    {
      var b := first;
      while b == 0
        invariant ReaderOk() && ReaderValue() == old(ReaderValue()) && regs == old(regs)
        invariant Skip(ReaderValue(), [b] + Unread()) == Skip(ReaderValue(), [first] + old(Unread()))
        modifies this`readPtr
        decreases |buf| - readPtr
      {
        assert ([b] + Unread())[1..] == Unread();
        ghost var before := Unread();
        b, ok := GetByte();
        if !ok {
          return 0, false;
        }
        assert [b] + Unread() == before;
      }
      assert ([b] + Unread())[1..] == Unread();
      LeadingSaturates(b);
      ibBcnt := 0;
      ibAcc := 0;
      pending := [];
      zeroCount := tables.entry[b].right;
      regs := regs.(state := 0, next := 0);
      return 4, true;
    }

    /** Puts a byte above the buffered bits. */
    method PushByte(b: byte)
      requires Buffered()
      modifies this`ibAcc, this`ibBcnt, this`pending
      ensures Buffered() && pending == old(pending) + Wire(b)
    {
      FetchAccumulates(ibAcc, pending, b);
      ibAcc := Or(ibAcc, Shl(b, ibBcnt));
      ibBcnt := ibBcnt + 8;
      pending := pending + Wire(b);
    }

    /** Reads buffered bits into the code register, the first bit most significant. */
    method PopBits(length: nat)
      requires Buffered() && 0 < length <= 8 && length <= |pending|
      modifies this`ibAcc, this`ibBcnt, this`pending, this`regs
      ensures Buffered() && pending == old(pending)[length..]
      ensures Code(old(pending)[..length]) < 256 && regs == old(regs).(code := Code(old(pending)[..length]))
    {
      ReadAccumulator(ibAcc, pending, length);
      CodeFits(pending[..length]);
      var low := And(ibAcc, Mask(length));
      ibBcnt := ibBcnt - length;
      ibAcc := Shr(ibAcc, length);
      regs := regs.(code := Shr(tables.entry[low].reversal, 8 - length));
      pending := pending[length..];
    }

    method GetBit(length: nat) returns (bit: nat, ok: bool)
      requires ReaderOk()
      modifies this`readPtr, this`ibAcc, this`ibBcnt, this`zeroCount, this`pending, this`regs
      ensures ReaderOk()
      ensures length > 8 ==>
        !ok && ReaderValue() == old(ReaderValue()) && Unread() == old(Unread()) && regs == old(regs)
      ensures length <= 8 ==> Fetched(GetBits(old(ReaderValue()), length, old(regs).code, old(Unread())), bit, ok)
    {
      hide Wire, LeadingZeros, TrailingZeros, Skip, FromWire, Code;
      bit, ok := 0, true;
      if length == 0 {
        return;
      }
      if length >= 9 {
        return 0, false;
      }
      if ibBcnt < length {
        var b;
        b, ok := GetByte();
        if !ok {
          return;
        }
        assert [b] + Unread() == old(Unread());
        zeroCount := zeroCount + tables.entry[b].right;
        if zeroCount > 30 {
          SkipPending(old(ReaderValue()), ReaderValue(), [b] + Unread());
          bit, ok := Resynchronise(b);
          return;
        }
        if b != 0 {
          zeroCount := tables.entry[b].left;
        }
        PushByte(b);
      }
      PopBits(length);
    }

    // ---- The whole object -----------------------------------------------------

    ghost function Value(): S.Machine
      reads this, cache, fb, block
    {
      S.Machine(ReaderValue(), regs, cache.model, fb.pic, block[..], listening, messages)
    }

    ghost predicate Valid()
      reads this, tables.entry, cache, cache.element, block, fb, fb.img
    {
      ReaderOk() && cache.Valid() && fb.Valid() && block.Length == 256 && S.Ok(Value())
    }

    // ---- Painting ---------------------------------------------------------------

    method StorePixel(c: C.Color)
      requires Valid()
      modifies this`regs, block
      ensures Value() == S.StorePixel(old(Value()), c)
      ensures Valid()
    {
      var r := regs;
      if r.pixelCount < r.blockHeight * F.BLOCK_WIDTH && r.pixelCount < block.Length {
        block[r.pixelCount] := S.DecodeColor(r.bitsPerColor, c);
      }
      regs := r.(lastColor := c, pixelCount := r.pixelCount + 1);
    }

    method StoreRun(count: nat)
      requires Valid()
      modifies this`regs, block
      ensures Value() == S.StoreRun(old(Value()), count)
      ensures Valid()
    {
      for i := 0 to count
        invariant Valid() && S.StoreRun(Value(), count - i) == S.StoreRun(old(Value()), count)
      {
        StorePixel(regs.lastColor);
      }
    }

    /** Paints up to `count` copies of the block side by side, as far as the screen reaches. */
    method PaintStrip(count: nat) returns (changed: bool)
      requires fb.Valid() && block.Length == 256 && regs.blockHeight <= 16
      modifies this`regs, fb, fb.img
      ensures fb.Valid() && block[..] == old(block[..])
      ensures var r, k := old(regs), S.BlocksPainted(old(regs), count);
        && regs == r.(lastX := r.lastX + k)
        && fb.pic == F.Strip(old(fb.pic), old(block[..]),
                             r.lastX * F.BLOCK_WIDTH, r.lastY * r.blockHeight, r.blockHeight, k)
      ensures changed <==> fb.pic != old(fb.pic)
    {
      hide F.Strip, F.StripPixel;
      var x0, baseY, bh := regs.lastX, regs.lastY * regs.blockHeight, regs.blockHeight;
      ghost var b := block[..];
      F.StripZero(fb.pic, b, x0 * F.BLOCK_WIDTH, baseY, bh);
      changed := false;
      var left := count;
      while left != 0
        invariant fb.Valid() && block[..] == b
        invariant x0 <= regs.lastX && regs == old(regs).(lastX := regs.lastX)
        invariant S.BlocksPainted(regs, left) + (regs.lastX - x0) == S.BlocksPainted(old(regs), count)
        invariant fb.pic == F.Strip(old(fb.pic), b, x0 * F.BLOCK_WIDTH, baseY, bh, regs.lastX - x0)
        invariant changed <==> fb.pic != old(fb.pic)
        decreases left
      {
        if regs.lastX >= regs.sizeX || baseY >= regs.pixelHeight {
          left := left - 1;
          continue;
        }
        F.StripStep(old(fb.pic), b, x0 * F.BLOCK_WIDTH, baseY, bh, regs.lastX - x0);
        var stored := fb.PaintBlock(block, regs.lastX * F.BLOCK_WIDTH, baseY, bh);
        changed := stored || changed;
        regs := regs.(lastX := regs.lastX + 1);
        left := left - 1;
      }
    }

    method NextBlock(count: nat)
      requires Valid()
      modifies this`regs, fb, fb.img
      ensures Value() == S.NextBlock(old(Value()), count)
      ensures Valid()
    {
      hide F.Strip, F.Picture.Valid, S.RegsOk, S.BlocksPainted, C.Cache.Valid, C.Recency.Valid, FromWire;
      S.BlockHeights(regs);
      S.BlocksPaintedFrame(regs, count);
      hide S.Ok;
      regs := regs.(next := 1, pixelCount := 0);
      var changed := PaintStrip(count);
      if changed {
        regs := regs.(revision := regs.revision + 1);
      }
    }

    method ClearScreen()
      requires Valid()
      modifies this`regs, fb, fb.img
      ensures Value() == S.ClearScreen(old(Value()))
      ensures Valid()
    {
      var changed := fb.Clear(F.BLACK);
      if changed {
        regs := regs.(revision := regs.revision + 1);
      }
    }

    /** A framebuffer of another size, cleared; always a visible change. */
    method ReplaceFramebuffer(w: nat, h: nat)
      requires Valid() && w > 0 && h > 0
      modifies this`regs, this`fb
      ensures fresh(fb) && fresh(fb.img)
      ensures Value() == old(Value()).(
        pic := F.Filled(w, h, F.BLACK),
        regs := old(regs).(pixelWidth := w, pixelHeight := h, revision := old(regs).revision + 1))
      ensures Valid()
    {
      hide S.RegsOk, F.Filled, F.Picture.Valid, C.Represents, C.Recency.Valid, FromWire;
      fb := new F.Framebuffer(w, h);
      F.FilledDiffer(w, h);
      var changed := fb.Clear(F.BLACK);
      regs := regs.(pixelWidth := w, pixelHeight := h,
                    revision := if changed then regs.revision + 1 else regs.revision);
      S.RegsOkFrame(old(regs), regs);
    }

    method SwitchVideoMode(cx: nat, cy: nat)
      requires Valid()
      modifies this`regs, this`fb
      ensures Value() == S.SwitchVideoMode(old(Value()), cx, cy)
      ensures Valid()
      ensures fb == old(fb) || (fresh(fb) && fresh(fb.img))
    {
      hide S.RegsOk, S.SetHalfHeight, F.Filled, F.Picture.Valid, C.Represents, C.Recency.Valid, FromWire;
      var w, h := cx, cy;
      if cx == 0 || cy == 0 {
        w, h := 800, 600;
      }
      if w != regs.pixelWidth || h != regs.pixelHeight {
        ReplaceFramebuffer(w, h);
      }
      SetHalfHeight();
    }

    method SetHalfHeight()
      requires Valid()
      modifies this`regs
      ensures Value() == old(Value()).(regs := S.SetHalfHeight(old(regs)))
      ensures Valid()
    {
      hide S.RegsOk, S.SetHalfHeight, F.Picture.Valid, C.Represents, C.Recency.Valid, FromWire;
      regs := S.SetHalfHeight(regs);
    }

    // ---- Firmware commands --------------------------------------------------------

    /** Never needs input: fewer than eight bits are buffered. */
    method DiscardToByteBoundary() returns (ok: bool)
      requires Valid()
      modifies this`readPtr, this`ibAcc, this`ibBcnt, this`zeroCount, this`pending, this`regs
      ensures ok && readPtr <= |buf| && Unread() == old(Unread())
      ensures Value() == S.DiscardToByteBoundary(old(Value()))
      ensures Valid()
    {
      hide S.Ok, C.Represents, F.Picture.Valid, FromWire, GetBits, Wire;
      ghost var p := pending;
      while ibBcnt % 8 != 0
        invariant ReaderOk() && ReaderValue().zeros == old(ReaderValue().zeros) && Unread() == old(Unread())
        invariant |pending| <= |p| && pending == p[|p| - |pending|..]
        invariant regs == if pending == p then old(regs) else old(regs).(code := BitVal(p[|p| - |pending| - 1]))
        decreases ibBcnt
      {
        ReadsOneBit(ReaderValue(), regs.code, Unread());
        var bit, got := GetBit(1);
        if !got {
          assert false;
        }
      }
      return true;
    }

    method ProcessCommand() returns (ok: bool)
      requires Valid()
      modifies this`readPtr, this`ibAcc, this`ibBcnt, this`zeroCount, this`pending, this`regs, fb, fb.img
      ensures ok && readPtr <= |buf| && Unread() == old(Unread())
      ensures Value() == S.ProcessCommand(old(Value()))
      ensures Valid()
    {
      hide S.RegsOk, S.HeaderRegs, S.SetBitsPerColor, S.CommandParams, F.Filled, C.Represents;
      ok := true;
      if regs.cmdLast == 1 {
        regs := regs.(next := S.EXIT);
      } else if regs.cmdLast == 2 {
        regs := regs.(next := 44);
      } else if regs.cmdLast == 6 {
        ClearScreen();
      } else if regs.cmdLast == 9 {
        if ibBcnt % 8 != 0 {
          ok := DiscardToByteBoundary();
        }
      } else if regs.cmdLast == 11 {
        var params := S.CommandParams(regs);
        if |params| > 0 { regs := S.SetBitsPerColor(regs, params[0]); }
      } else if regs.cmdLast == 12 {
        var params := S.CommandParams(regs);
        if |params| > 0 { regs := S.SetEncryption(regs, params[0]); }
      } else if regs.cmdLast == 13 {
        regs := S.HeaderRegs(regs);
      }
    }

    // ---- States -----------------------------------------------------------------------

    /** PIXLRU and PIXCODE states: fetch a colour by recency, or latch. */
    method FetchColor()
      requires Valid()
      modifies this`regs, block, cache, cache.element
      ensures Value() == S.FetchColor(old(Value()))
      ensures Valid()
    {
      hide S.RegsOk, C.Represents;
      var r := regs;
      var code := S.RecencyCode(r, cache.active);
      ghost var order := cache.model.order;
      var missed, c := cache.Find(code, r.color);
      if missed {
        regs := r.(code := code, next := S.LATCHED);
      } else {
        regs := r.(code := code, color := c);
        S.RegsOkFrame(r, regs);
        StorePixel(c);
      }
    }

    /** PIXGREY and PIXRGBB: a literal colour, which must be new to the cache. */
    method LiteralColor()
      requires Valid()
      modifies this`regs, block, cache, cache.element
      ensures Value() == S.LiteralColor(old(Value()))
      ensures Valid()
    {
      hide S.RegsOk, C.Represents, S.SetBlue;
      var c := S.SetBlue(regs.bitsPerColor, regs.color, regs.code);
      var hit := cache.Lru(c);
      S.RegsOkFrame(regs, regs.(color := c));
      regs := S.SetFan(regs.(color := c), cache.pixcode);
      if hit {
        regs := regs.(next := S.LATCHED);
      } else {
        StorePixel(c);
      }
    }

    method Timeout() returns (ok: bool)
      requires Valid()
      modifies this`readPtr, this`ibAcc, this`ibBcnt, this`zeroCount, this`pending, this`regs
      ensures ok && readPtr <= |buf| && Unread() == old(Unread())
      ensures Value() == S.Timeout(old(Value()))
      ensures Valid()
    {
      hide S.RegsOk, C.Represents, C.Recency.Valid, F.Picture.Valid, FromWire;
      hide S.DiscardToByteBoundary;
      if regs.timeoutCount == regs.countBytes - 1 {
        S.RegsOkFrame(regs, regs.(next := S.LATCHED));
        regs := regs.(next := S.LATCHED);
      }
      var aligned := DiscardToByteBoundary();
      if !aligned {
        assert false;
      }
      if regs.countBytes < 0x8000_0000 {
        regs := regs.(timeoutCount := regs.countBytes);
      }
      return true;
    }

    method PrintOctet()
      requires Valid()
      modifies this`regs, this`messages
      ensures Value() == S.PrintOctet(old(Value()))
      ensures Valid()
    {
      hide S.RegsOk, C.Represents, C.Recency.Valid, F.Picture.Valid, FromWire;
      if regs.code != 0 {
        if |regs.printText| < S.MAX_MESSAGE {
          regs := regs.(printText := regs.printText + [regs.code]);
        }
        return;
      }
      if listening && |regs.printText| > 0 {
        messages := messages + [(regs.printTag, regs.printText)];
      }
      regs := regs.(printText := [], next := 1);
    }

    /** RESET and MODE2 start a frame at the origin with an empty cache. */
    method ResetState()
      requires Valid()
      modifies this`regs, cache, cache.element
      ensures Value() == S.ResetState(old(Value()))
      ensures Valid()
    {
      hide S.RegsOk, C.Represents, C.Recency.Valid, F.Picture.Valid, FromWire;
      cache.Reset();
      regs := regs.(pixelCount := 0, lastX := 0, lastY := 0, fatalCount := 0, timeoutCount := -1);
    }

    method SetMode1()
      requires Valid()
      modifies this`regs, fb, fb.img
      ensures Value() == S.SetMode1(old(Value()))
      ensures Valid()
    {
      hide S.RegsOk, C.Represents, C.Recency.Valid, F.Picture.Valid, FromWire, F.Filled;
      var r := regs;
      if r.sizeX != r.newX || r.sizeY != r.code {
        ClearScreen();
      }
      regs := regs.(sizeX := r.newX, sizeY := r.code);
    }

    method SetMode2()
      requires Valid()
      modifies this`regs, this`fb, cache, cache.element
      ensures Value() == S.SetMode2(old(Value()))
      ensures Valid()
      ensures fb == old(fb) || (fresh(fb) && fresh(fb.img))
    {
      hide S.RegsOk, C.Represents, C.Recency.Valid, F.Picture.Valid, FromWire, S.SwitchVideoMode;
      cache.Reset();
      var r := regs.(lastX := 0, lastY := 0, pixelCount := 0, sizeY1 := regs.code);
      S.RegsOkFrame(regs, r);
      regs := r;
      SwitchVideoMode(r.sizeX * F.BLOCK_WIDTH, r.sizeY * 16 + r.sizeY1);
    }

    method Firmware() returns (ok: bool)
      requires Valid()
      modifies this`readPtr, this`ibAcc, this`ibBcnt, this`zeroCount, this`pending, this`regs, fb, fb.img
      ensures ok && readPtr <= |buf| && Unread() == old(Unread())
      ensures Value() == S.Firmware(old(Value()))
      ensures Valid()
    {
      hide S.RegsOk, C.Represents, C.Recency.Valid, F.Picture.Valid, FromWire, S.ProcessCommand;
      if regs.code == 0 {
        var processed := ProcessCommand();
        if !processed {
          assert false;
        }
        regs := regs.(cmdCount := 0);
      }
      return true;
    }

    method PixelState()
      requires Valid() && S.NextChosen(regs) && regs.state in {3, 4, 5, 6, 7, 32, 42, 8, 12, 13, 14, 33}
      modifies this`regs, block, cache, cache.element
      ensures Value() == S.PixelState(old(Value()))
      ensures Valid()
    {
      hide S.RegsOk, C.Represents, C.Recency.Valid, F.Picture.Valid, FromWire;
      hide S.Acted, S.NextChosen, S.FetchColor, S.LiteralColor, S.StorePixel;
      var code: int := regs.code;
      if regs.state == 42 {
        LiteralColor();
      } else if regs.state == 8 {
        regs := S.MoveState(regs);
        LiteralColor();
      } else if regs.state == 12 {
        if code == 7 {
          regs := regs.(next := 14);
        } else if code == 6 {
          regs := regs.(next := 13);
        } else {
          S.RegsOkFrame(regs, regs.(code := (code + 2) % 256));
          regs := regs.(code := (code + 2) % 256);
          StoreRun(regs.code);
        }
      } else if regs.state == 13 {
        S.RegsOkFrame(regs, regs.(code := (code + 8) % 256));
        regs := regs.(code := (code + 8) % 256);
        StoreRun(regs.code);
      } else if regs.state == 14 {
        StoreRun(code);
      } else if regs.state == 33 {
        StorePixel(regs.lastColor);
      } else {
        FetchColor();
      }
    }

    method BlockState()
      requires Valid() && S.NextChosen(regs) && regs.state in {34, 29, 30}
      modifies this`regs, fb, fb.img
      ensures Value() == S.BlockState(old(Value()))
      ensures Valid()
    {
      hide S.RegsOk, C.Represents, C.Recency.Valid, F.Picture.Valid, FromWire, S.Acted, S.NextChosen, S.NextBlock;
      var code: int := regs.code;
      if regs.state == 34 {
        NextBlock(1);
      } else if regs.state == 29 {
        S.RegsOkFrame(regs, regs.(code := (code + 2) % 256));
        regs := regs.(code := (code + 2) % 256);
        NextBlock(regs.code);
      } else {
        NextBlock(code);
      }
    }

    method FrameState()
      requires Valid() && S.NextChosen(regs) && regs.state in {0, 40, 47}
      modifies this`regs, this`fb, cache, cache.element, fb, fb.img
      ensures Value() == S.FrameState(old(Value()))
      ensures Valid()
      ensures fb == old(fb) || (fresh(fb) && fresh(fb.img))
    {
      hide S.RegsOk, C.Represents, C.Recency.Valid, F.Picture.Valid, FromWire;
      hide S.NextChosen, S.SetMode1, S.SetMode2, S.ResetState;
      if regs.state == 0 {
        ResetState();
      } else if regs.state == 40 {
        SetMode1();
      } else {
        SetMode2();
      }
    }

    /** Forgets the buffered bits on the way out of HUNT. */
    method Hunt()
      requires Valid()
      modifies this`ibAcc, this`ibBcnt, this`zeroCount, this`pending, this`regs
      ensures Value() == S.Hunt(old(Value()))
      ensures Valid()
    {
      hide S.RegsOk, C.Represents, C.Recency.Valid, F.Picture.Valid;
      if regs.next != regs.state {
        ibBcnt, ibAcc, zeroCount, pending := 0, 0, 0, [];
        regs := regs.(countBytes := 0);
      }
    }

    method ControlState() returns (ok: bool)
      requires Valid() && S.NextChosen(regs)
      requires regs.state !in {3, 4, 5, 6, 7, 32, 42, 8, 12, 13, 14, 33, 34, 29, 30}
      modifies this, cache, cache.element, fb, fb.img
      ensures ok && readPtr <= |buf| && Unread() == old(Unread())
      ensures Value() == S.ControlState(old(Value()))
      ensures Valid()
      ensures fb == old(fb) || (fresh(fb) && fresh(fb.img))
    {
      hide S.RegsOk, C.Represents, C.Recency.Valid, F.Picture.Valid, S.NextChosen;
      hide S.Timeout, S.Firmware, S.PrintOctet, S.FrameState, S.MoveState, S.Hunt, FromWire;
      ok := true;
      if regs.state in {0, 40, 47} {
        FrameState();
      } else if regs.state == 35 {
        regs := regs.(next := cache.pixcode);
      } else if regs.state == 27 {
        ok := Timeout();
      } else if regs.state == 46 {
        ok := Firmware();
      } else if regs.state == 45 {
        PrintOctet();
      } else if regs.state == 43 {
        Hunt();
      } else {
        regs := S.MoveState(regs);
      }
    }

    method Act()
      requires Valid() && S.NextChosen(regs)
      modifies this, cache, cache.element, block, fb, fb.img
      ensures readPtr <= |buf| && Unread() == old(Unread())
      ensures Value() == S.Act(old(Value()))
      ensures Valid()
      ensures fb == old(fb) || (fresh(fb) && fresh(fb.img))
    {
      hide S.RegsOk, C.Represents, C.Recency.Valid, F.Picture.Valid, FromWire;
      hide S.Acted, S.NextChosen, S.PixelState, S.BlockState, S.ControlState;
      if regs.state in {3, 4, 5, 6, 7, 32, 42, 8, 12, 13, 14, 33} {
        PixelState();
      } else if regs.state in {34, 29, 30} {
        BlockState();
      } else {
        var acted := ControlState();
        if !acted {
          assert false;
        }
      }
    }

    method FinishBlock()
      requires Valid()
      modifies this`regs, cache, cache.element, fb, fb.img
      ensures Value() == S.FinishBlock(old(Value()))
      ensures Valid()
    {
      hide S.RegsOk, C.Represents, C.Recency.Valid, F.Picture.Valid, FromWire, S.NextBlock;
      if regs.next == 2 && regs.pixelCount == regs.blockHeight * F.BLOCK_WIDTH {
        NextBlock(1);
        cache.Prune();
        regs := S.SetFan(regs, cache.pixcode);
      }
    }

    /** The part of a step that follows a successful read. */
    method Execute()
      requires Valid()
      modifies this, cache, cache.element, block, fb, fb.img
      ensures readPtr <= |buf| && Unread() == old(Unread())
      ensures Value() == S.Execute(old(Value()))
      ensures Valid()
      ensures fb == old(fb) || (fresh(fb) && fresh(fb.img))
    {
      hide S.RegsOk, C.Represents, C.Recency.Valid, F.Picture.Valid, FromWire;
      hide S.Acted, S.NextChosen, S.Act, S.FinishBlock;
      regs := S.ChooseNext(regs);
      Act();
      FinishBlock();
      regs := regs.(state := regs.next);
    }

    /** Reads as many bits as the current state asks for. */
    method FetchCode() returns (bit: nat, ok: bool)
      requires Valid()
      modifies this`readPtr, this`ibAcc, this`ibBcnt, this`zeroCount, this`pending, this`regs
      ensures readPtr <= |buf|
      ensures var m := old(Value());
        var f := GetBits(m.reader, R.Width(m), m.regs.code, old(Unread()));
        && f.reader.Valid() && Value() == R.Loaded(m, f)
        && ok == !f.Dry? && bit == (if f.Resync? then 4 else 0) && Unread() == if f.Dry? then [] else f.rest
      ensures Valid()
    {
      hide C.Represents, C.Recency.Valid, F.Picture.Valid, GetBits, FromWire, S.RegsOk;
      ghost var m := Value();
      S.OkParts(m);
      S.RowFacts(regs, regs.state);
      GetBitsValid(m.reader, R.Width(m), regs.code, Unread());
      if regs.state >= |regs.table| {
        assert false;
      }
      bit, ok := GetBit(regs.table[regs.state].bits);
      if ok {
        regs := regs.(countBytes := regs.countBytes + 1);
      }
    }

    /** Reports whether a step was taken; it is not exactly when the input ran dry. */
    method Step() returns (ok: bool)
      requires Valid()
      modifies this, cache, cache.element, block, fb, fb.img
      ensures readPtr <= |buf|
      ensures match R.Step(old(Value()), old(Unread()))
              case Stop(n) => !ok && Value() == n && Unread() == []
              case Go(n, rest) => ok && Value() == n && Unread() == rest
      ensures Valid()
      ensures fb == old(fb) || (fresh(fb) && fresh(fb.img))
    {
      hide S.Execute, C.Represents, C.Recency.Valid, F.Picture.Valid, GetBits, S.Ok, FromWire, R.Width;
      var bit;
      bit, ok := FetchCode();
      if ok && bit != 4 {
        Execute();
      }
    }

    method Compact()
      requires readPtr <= |buf|
      modifies this`buf, this`readPtr
      ensures readPtr == 0 && Unread() == old(Unread())
    {
      if readPtr == 0 {
        return;
      }
      buf := buf[readPtr..];
      readPtr := 0;
    }

    /** Between feeds a running decoder has consumed all its input. */
    ghost predicate Idle()
      requires readPtr <= |buf|
      reads this
    {
      !regs.halt ==> Unread() == []
    }

    /** Runs until the input is dry or EXIT halts, never until the step limit. */
    method Feed(packet: seq<byte>)
      requires Valid() && Idle()
      modifies this, cache, cache.element, block, fb, fb.img
      ensures Value() == R.Feed(old(Value()), packet)
      ensures Valid() && Idle()
      ensures fb == old(fb) || (fresh(fb) && fresh(fb.img))
    {
      hide R.Step, R.Width, R.ZeroBit, S.Ok, C.Represents;
      if |packet| == 0 || regs.halt {
        return;
      }
      ghost var m := Value();
      assert buf[readPtr..] + packet == (buf + packet)[readPtr..];
      buf := buf + packet;
      assert Unread() == packet;
      var limit := (|buf| + 1) * 2048;
      var steps := 0;
      var more := true;
      R.BudgetBound(m, packet);
      while steps < limit && more
        invariant Valid() && (fb == old(fb) || (fresh(fb) && fresh(fb.img)))
        invariant if more then !regs.halt && R.Run(Value(), Unread()) == R.Run(m, packet)
                  else Value() == R.Run(m, packet) && (regs.halt || Unread() == [])
        invariant more ==> steps + R.Budget(Value(), Unread()) < limit
      {
        R.StepProgress(Value(), Unread());
        var ok := Step();
        more := ok && !regs.halt;
        steps := steps + 1;
      }
      Compact();
    }
  }

  lemma CodeFits(bits: seq<bool>)
    requires |bits| <= 8
    ensures Code(bits) < 256
  {
    CodeBound(bits);
    Pow2Monotone(|bits|, 8);
    assert Pow2(8) == 256;
  }

  lemma LeadingSaturates(b: byte)
    ensures Saturate(LeadingZeros(Wire(b))) == LeadingZeros(Wire(b))
  {
  }
}
