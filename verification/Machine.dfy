/**
 The decoder as a value: registers, reader, cache, picture and block, and the
 effect of one state on them. Nothing here reads input; see DecoderRun for that.
 */
module Machine {
  import opened Bits
  import opened BitReader
  import opened ColorCache
  import opened Framebuffers

  const STATES := 48
  const MAX_MESSAGE := 4096
  const LATCHED := 38
  const EXIT := 37

  datatype Row = Row(bits: nat, state0: nat, state1: nat)

  /** The state table as it is laid out at start, by state number. */
  function BaseRow(i: nat): Row {
    match i
    case 0 => Row(0, 1, 1) case 1 => Row(1, 2, 15) case 2 => Row(1, 31, 3) case 3 => Row(1, 2, 11)
    case 4 => Row(1, 2, 11) case 5 => Row(1, 10, 10) case 6 => Row(2, 10, 10) case 7 => Row(3, 10, 10)
    case 8 => Row(5, 10, 10) case 9 => Row(5, 41, 41) case 10 => Row(1, 2, 11) case 11 => Row(1, 33, 12)
    case 12 => Row(3, 2, 2) case 13 => Row(3, 2, 2) case 14 => Row(8, 2, 2) case 15 => Row(1, 16, 17)
    case 16 => Row(1, 19, 18) case 17 => Row(7, 39, 39) case 18 => Row(1, 22, 23) case 19 => Row(1, 20, 21)
    case 20 => Row(3, 1, 1) case 21 => Row(7, 1, 1) case 22 => Row(1, 34, 28) case 23 => Row(1, 25, 24)
    case 24 => Row(8, 46, 46) case 25 => Row(1, 26, 27) case 26 => Row(7, 40, 40) case 27 => Row(0, 1, 1)
    case 28 => Row(1, 29, 30) case 29 => Row(3, 1, 1) case 30 => Row(7, 1, 1) case 31 => Row(1, 36, 35)
    case 32 => Row(4, 10, 10) case 33 => Row(0, 2, 2) case 34 => Row(0, 1, 1) case 35 => Row(0, 35, 35)
    case 36 => Row(1, 8, 9) case 37 => Row(0, 37, 37) case 38 => Row(1, 38, 38) case 39 => Row(7, 1, 1)
    case 40 => Row(7, 47, 47) case 41 => Row(5, 42, 42) case 42 => Row(5, 10, 10) case 43 => Row(1, 43, 0)
    case 44 => Row(8, 45, 45) case 45 => Row(8, 45, 45) case 46 => Row(1, 1, 24) case _ => Row(4, 1, 1)
  }

  /** The same table after firmware commands: colour depth, block height, colour-index row. */
  function CurrentRow(i: nat, bpc: nat, blockHeight: nat, fan: nat): Row {
    if i in {8, 9, 41, 42} then BaseRow(i).(bits := bpc)
    else if i in {17, 21, 30, 39} then BaseRow(i).(bits := if blockHeight == 8 then 8 else 7)
    else if i == 31 then BaseRow(i).(state1 := fan)
    else BaseRow(i)
  }

  datatype Regs = Regs(
    table: seq<Row>, state: nat, next: nat, code: byte, halt: bool,
    countBytes: nat, fatalCount: nat, timeoutCount: int,
    bitsPerColor: nat, pixelCount: nat, color: Color, lastColor: Color,
    sizeX: byte, sizeY: byte, sizeY1: byte, lastX: byte, lastY: byte, newX: byte, newY: byte,
    pixelWidth: nat, pixelHeight: nat, blockHeight: nat, halfHeightCapable: bool,
    cmdBuff: seq<byte>, cmdCount: nat, cmdLast: byte, printTag: byte, printText: seq<byte>,
    ready: bool, revision: nat, refreshRequests: nat, encryption: byte, encryptionID: nat)

  datatype Machine = Machine(reader: Reader, regs: Regs, cache: Recency, pic: Picture, block: seq<RGBA>,
                             listening: bool, messages: seq<(byte, seq<byte>)>)

  /** The registers of a new decoder. */
  function InitialRegs(w: nat, h: nat): (r: Regs)
    ensures RegsOk(r) && r.pixelWidth == w && r.pixelHeight == h && !r.halt
  {
    Regs(seq(STATES, (i: nat) => CurrentRow(i, 5, 16, 35)), 0, 0, 0, false,
         0, 0, -1, 5, 0, 0, 0, 0, 0, 0, 0, 0, 0, 0, w, h, 16, false,
         seq(256, _ => 0), 0, 0, 0, [], false, 0, 0, 0, 0)
  }

  ghost predicate RegsOk(r: Regs) {
    && |r.table| == STATES && TableOk(r)
    && r.state < STATES && r.state != 43
    && 2 <= r.bitsPerColor <= 5 && (r.blockHeight == 8 || r.blockHeight == 16)
    && |r.cmdBuff| == 256 && r.cmdCount <= 256
    && |r.printText| <= MAX_MESSAGE
    && r.fatalCount <= 32768
  }

  /** Only the rows firmware may rewrite differ from the table at start. */
  ghost predicate TableOk(r: Regs)
    requires |r.table| == STATES
  {
    && r.table[31].state1 in {35, 38, 4, 5, 6, 7, 32}
    && forall i :: 0 <= i < STATES ==> r.table[i] == CurrentRow(i, r.bitsPerColor, r.blockHeight, r.table[31].state1)
  }

  ghost predicate Ok(m: Machine) {
    && m.reader.Valid() && RegsOk(m.regs) && m.cache.Valid() && |m.block| == 256
    && m.pic.Valid() && m.pic.w == m.regs.pixelWidth && m.pic.h == m.regs.pixelHeight
    && m.pic.w > 0 && m.pic.h > 0
  }

  /** Nothing a viewer would have to redraw. */
  predicate Quiet(m: Machine, n: Machine) {
    n.pic == m.pic && n.regs.revision == m.regs.revision && n.regs.ready == m.regs.ready
  }

  /** The revision counts exactly the changes of the picture and the first header. */
  predicate RevisionExact(m: Machine, n: Machine) {
    && (m.regs.ready ==> n.regs.ready)
    && n.regs.revision == m.regs.revision +
         if n.pic != m.pic || (n.regs.ready && !m.regs.ready) then 1 else 0
  }

  /** Acting on a code leaves the reader alone or reads the buffered bits out. */
  predicate Aligned(r: Reader, q: Reader) {
    q == r || q == Reader([], r.zeros)
  }

  // ---- Colours ----------------------------------------------------------------

  /** uint16 shift left. */
  function Shl16(a: nat, k: nat): Color { Shl(a, k) % 65536 }

  function Or16(a: Color, b: Color): Color { Or(a, b) % 65536 }

  /** One colour component: the `bits` bits of c above bit k, scaled up to a byte. */
  function Channel(bits: nat, c: Color, k: nat): nat
    requires bits <= 8
  {
    Shl(And(Shr(c, k), Mask(bits)), 8 - bits) % 256
  }

  function DecodeColor(bits: nat, c: Color): RGBA {
    if bits == 0 || bits > 5 then BLACK
    else RGBA(Channel(bits, c, bits * 2), Channel(bits, c, bits), Channel(bits, c, 0), 255)
  }

  function SetBlue(bits: nat, c: Color, code: byte): Color {
    Or16(AndNot(c, Mask(bits)) % 65536, code)
  }

  // ---- Painting ---------------------------------------------------------------

  function StorePixel(m: Machine, c: Color): (n: Machine)
    ensures Ok(m) ==> Ok(n)
    ensures Quiet(m, n) && n.regs.next == m.regs.next && n.reader == m.reader
  {
    var r := m.regs;
    m.(block := if r.pixelCount < r.blockHeight * BLOCK_WIDTH && r.pixelCount < |m.block|
                then m.block[r.pixelCount := DecodeColor(r.bitsPerColor, c)] else m.block,
       regs := r.(lastColor := c, pixelCount := r.pixelCount + 1))
  }

  function StoreRun(m: Machine, count: nat): (n: Machine)
    ensures Ok(m) ==> Ok(n)
    ensures Quiet(m, n) && n.regs.next == m.regs.next && n.reader == m.reader
    decreases count
  {
    if count == 0 then m else StoreRun(StorePixel(m, m.regs.lastColor), count - 1)
  }

  function BlocksPainted(r: Regs, count: nat): (n: nat)
    ensures r.lastX + n <= 255
  {
    if r.lastX >= r.sizeX || r.lastY * r.blockHeight >= r.pixelHeight then 0
    else if count < r.sizeX - r.lastX then count else r.sizeX - r.lastX
  }

  lemma BlocksPaintedFrame(r: Regs, count: nat)
    ensures BlocksPainted(r.(next := 1, pixelCount := 0), count) == BlocksPainted(r, count)
  {
  }

  function NextBlock(m: Machine, count: nat): (n: Machine)
    requires Ok(m)
    ensures Ok(n) && RevisionExact(m, n) && n.regs.next == 1 && n.reader == m.reader && n.regs.halt == m.regs.halt
  {
    var r := m.regs;
    var k := BlocksPainted(r, count);
    var pic := Strip(m.pic, m.block, r.lastX * BLOCK_WIDTH, r.lastY * r.blockHeight, r.blockHeight, k);
    m.(pic := pic,
       regs := r.(next := 1, pixelCount := 0, lastX := r.lastX + k,
                  revision := r.revision + if pic != m.pic then 1 else 0))
  }

  function ClearScreen(m: Machine): (n: Machine)
    requires Ok(m)
    ensures Ok(n) && RevisionExact(m, n) && n.regs == m.regs.(revision := n.regs.revision)
    ensures n.reader == m.reader
  {
    var pic := Filled(m.pic.w, m.pic.h, BLACK);
    m.(pic := pic, regs := m.regs.(revision := m.regs.revision + if pic != m.pic then 1 else 0))
  }

  function SetHalfHeight(r: Regs): (q: Regs)
    requires RegsOk(r)
    ensures RegsOk(q) && q == r.(blockHeight := q.blockHeight, table := q.table)
  {
    var half := r.pixelWidth > 1616 && r.halfHeightCapable;
    var bits := if half then 8 else 7;
    r.(blockHeight := if half then 8 else 16,
       table := r.table[21 := r.table[21].(bits := bits)][17 := r.table[17].(bits := bits)]
                       [39 := r.table[39].(bits := bits)][30 := r.table[30].(bits := bits)])
  }

  /** Only some registers matter to RegsOk. */
  lemma RegsOkFrame(r: Regs, q: Regs)
    requires RegsOk(r)
    requires q.table == r.table && q.state == r.state
    requires q.bitsPerColor == r.bitsPerColor && q.blockHeight == r.blockHeight
    requires q.cmdBuff == r.cmdBuff && q.cmdCount == r.cmdCount
    requires q.printText == r.printText && q.fatalCount == r.fatalCount
    ensures RegsOk(q)
  {
  }

  lemma OkFrame(m: Machine, q: Regs)
    requires Ok(m)
    requires var r := m.regs;
      && q.table == r.table && q.state == r.state && q.bitsPerColor == r.bitsPerColor && q.blockHeight == r.blockHeight
      && q.cmdBuff == r.cmdBuff && q.cmdCount == r.cmdCount
      && q.printText == r.printText && q.fatalCount == r.fatalCount
      && q.pixelWidth == r.pixelWidth && q.pixelHeight == r.pixelHeight
    ensures Ok(m.(regs := q))
  {
  }

  lemma BlockHeights(r: Regs)
    requires RegsOk(r)
    ensures r.blockHeight == 8 || r.blockHeight == 16
  {
  }

  lemma OkParts(m: Machine)
    requires Ok(m)
    ensures RegsOk(m.regs) && m.reader.Valid()
    ensures |m.regs.table| == STATES && m.regs.state < STATES && m.regs.state != 43
  {
  }

  function SwitchVideoMode(m: Machine, cx: nat, cy: nat): (n: Machine)
    requires Ok(m)
    ensures Ok(n) && RevisionExact(m, n) && n.regs.next == m.regs.next
    ensures n.reader == m.reader
  {
    var w, h := if cx == 0 || cy == 0 then 800 else cx, if cx == 0 || cy == 0 then 600 else cy;
    var r := m.regs;
    if w == r.pixelWidth && h == r.pixelHeight then m.(regs := SetHalfHeight(r))
    else
      var n := m.(pic := Filled(w, h, BLACK),
                  regs := r.(pixelWidth := w, pixelHeight := h, revision := r.revision + 1));
      n.(regs := SetHalfHeight(n.regs))
  }

  // ---- Firmware commands --------------------------------------------------------

  function SetBitsPerColor(r: Regs, param: byte): (q: Regs)
    requires RegsOk(r)
    ensures RegsOk(q) && q == r.(bitsPerColor := q.bitsPerColor, table := q.table)
  {
    var bpc := 5 - param % 4;
    r.(bitsPerColor := bpc,
       table := r.table[8 := r.table[8].(bits := bpc)][9 := r.table[9].(bits := bpc)]
                       [41 := r.table[41].(bits := bpc)][42 := r.table[42].(bits := bpc)])
  }

  function SetEncryption(r: Regs, mode: byte): Regs {
    r.(encryption := mode, encryptionID := r.encryptionID + 1)
  }

  function PushCommandOctet(r: Regs, octet: byte): (q: Regs)
    requires RegsOk(r)
    ensures RegsOk(q) && q.next == r.next && q.revision == r.revision && q.ready == r.ready
  {
    r.(cmdBuff := if r.cmdCount != 0 then r.cmdBuff[r.cmdCount - 1 := r.cmdLast] else r.cmdBuff,
       cmdCount := if r.cmdCount < 256 then r.cmdCount + 1 else r.cmdCount,
       cmdLast := octet)
  }

  function CommandParams(r: Regs): (p: seq<byte>)
    requires RegsOk(r)
  {
    if r.cmdCount == 0 then [] else r.cmdBuff[..r.cmdCount - 1]
  }

  function HeaderRegs(r: Regs): (q: Regs)
    requires RegsOk(r)
    ensures RegsOk(q) && q.next == r.next && q.pixelWidth == r.pixelWidth && q.pixelHeight == r.pixelHeight
    ensures (r.ready ==> q.ready) && q.revision == r.revision + if q.ready && !r.ready then 1 else 0
  {
    var p := CommandParams(r);
    if |p| < 4 then r
    else
      var q := SetEncryption(SetBitsPerColor(r, p[0]), p[1]);
      q.(halfHeightCapable := (p[3] / 8) % 2 == 1, ready := true,
         revision := if r.ready then r.revision else r.revision + 1)
  }

  /** Reading out the buffered bits one at a time leaves the last of them in the code register. */
  function DiscardToByteBoundary(m: Machine): (n: Machine)
    ensures Ok(m) ==> Ok(n)
    ensures Quiet(m, n) && n.regs == m.regs.(code := n.regs.code)
    ensures Aligned(m.reader, n.reader)
  {
    var p := m.reader.pending;
    if p == [] then m
    else m.(reader := Reader([], m.reader.zeros), regs := m.regs.(code := BitVal(p[|p| - 1])))
  }

  function ProcessCommand(m: Machine): (n: Machine)
    requires Ok(m)
    ensures Ok(n) && RevisionExact(m, n) && n.regs.next in {m.regs.next, 37, 44}
    ensures Aligned(m.reader, n.reader)
  {
    var r := m.regs;
    if r.cmdLast == 1 then m.(regs := r.(next := EXIT))
    else if r.cmdLast == 2 then m.(regs := r.(next := 44))
    else if r.cmdLast == 6 then ClearScreen(m)
    else if r.cmdLast == 9 then DiscardToByteBoundary(m)
    else if r.cmdLast == 11 && CommandParams(r) != [] then m.(regs := SetBitsPerColor(r, CommandParams(r)[0]))
    else if r.cmdLast == 12 && CommandParams(r) != [] then m.(regs := SetEncryption(r, CommandParams(r)[0]))
    else if r.cmdLast == 13 then m.(regs := HeaderRegs(r))
    else m
  }

  // ---- One state ------------------------------------------------------------------

  function ResetCache(m: Machine): Machine {
    m.(cache := Recency([], 0))
  }

  /** The recency rank that a PIXLRU or PIXCODE state asks for. */
  function RecencyCode(r: Regs, active: nat): byte {
    if active == 1 || r.state == 4 then 0
    else if r.state == 3 then 1
    else if r.code != 0 then (r.code + 1) % 256
    else 0
  }

  /** Look a colour up by recency code and paint it, or latch. */
  function FetchColor(m: Machine): (n: Machine)
    requires Ok(m)
    ensures Ok(n) && Quiet(m, n) && n.regs.next in {m.regs.next, LATCHED}
    ensures n.reader == m.reader
  {
    var r := m.regs;
    var code := RecencyCode(r, |m.cache.order|);
    if code >= |m.cache.order| then m.(regs := r.(code := code, next := LATCHED))
    else
      FetchKeepsList(m.cache, code);
      var c := m.cache.order[code];
      StorePixel(m.(regs := r.(code := code, color := c), cache := m.cache.Fetch(code)), c)
  }

  function SetFan(r: Regs, fan: nat): (q: Regs)
    requires RegsOk(r) && fan in {38, 4, 5, 6, 7, 32}
    ensures RegsOk(q) && q == r.(table := q.table)
  {
    r.(table := r.table[31 := r.table[31].(state1 := fan)])
  }

  /** A literal colour enters the cache; one that was there already is a coding error. */
  function LiteralColor(m: Machine): (n: Machine)
    requires Ok(m)
    ensures Ok(n) && Quiet(m, n) && n.regs.next in {m.regs.next, LATCHED}
    ensures n.reader == m.reader
  {
    var r := m.regs;
    var c := SetBlue(r.bitsPerColor, r.color, r.code);
    var cache := m.cache.Use(c);
    UseKeepsList(m.cache, c);
    var r' := SetFan(r.(color := c), PixcodeFor(|cache.order|));
    if c in m.cache.order then m.(cache := cache, regs := r'.(next := LATCHED))
    else StorePixel(m.(cache := cache, regs := r'), c)
  }

  function RepeatStandard(m: Machine): (n: Machine)
    requires Ok(m)
    ensures Ok(n) && Quiet(m, n) && n.regs.next in {m.regs.next, 13, 14}
    ensures n.reader == m.reader
  {
    var r := m.regs;
    if r.code == 7 then m.(regs := r.(next := 14))
    else if r.code == 6 then m.(regs := r.(next := 13))
    else
      var code := (r.code + 2) % 256;
      StoreRun(m.(regs := r.(code := code)), code)
  }

  function Timeout(m: Machine): (n: Machine)
    requires Ok(m)
    ensures Ok(n) && Quiet(m, n) && n.regs.next in {m.regs.next, LATCHED}
    ensures Aligned(m.reader, n.reader)
  {
    hide RegsOk;
    var r := m.regs;
    OkFrame(m, r.(next := LATCHED));
    var n := DiscardToByteBoundary(if r.timeoutCount == r.countBytes - 1 then m.(regs := r.(next := LATCHED)) else m);
    OkFrame(n, n.regs.(timeoutCount := r.countBytes));
    if r.countBytes < 0x8000_0000 then n.(regs := n.regs.(timeoutCount := r.countBytes)) else n
  }

  function PrintOctet(m: Machine): (n: Machine)
    requires Ok(m)
    ensures Ok(n) && Quiet(m, n) && n.regs.next in {m.regs.next, 1}
    ensures n.reader == m.reader
  {
    var r := m.regs;
    if r.code != 0 then
      m.(regs := r.(printText := if |r.printText| < MAX_MESSAGE then r.printText + [r.code] else r.printText))
    else
      m.(messages := if m.listening && r.printText != [] then m.messages + [(r.printTag, r.printText)] else m.messages,
         regs := r.(printText := [], next := 1))
  }

  function Latched(r: Regs): (q: Regs)
    requires RegsOk(r)
    ensures RegsOk(q)
  {
    var q := if r.fatalCount == 32768 then r.(refreshRequests := r.refreshRequests + 1, fatalCount := 0) else r;
    q.(fatalCount := q.fatalCount + 1)
  }

  function Coordinate(code: byte, blockHeight: nat): byte {
    if blockHeight == 16 then code % 128 else code
  }

  /** States that move the block cursor. */
  function CursorState(r: Regs): (q: Regs)
    requires RegsOk(r)
    ensures RegsOk(q) && q.next == r.next && q.revision == r.revision && q.ready == r.ready
    ensures q.pixelWidth == r.pixelWidth && q.pixelHeight == r.pixelHeight
  {
    if r.state == 20 then
      var code := (r.lastX + r.code + 1) % 256;
      r.(code := code, lastX := code % 128)
    else if r.state == 21 then r.(lastX := Coordinate(r.code, r.blockHeight))
    else if r.state == 39 then
      var y := Coordinate(r.code, r.blockHeight);
      r.(newY := y, lastX := r.newX, lastY := y)
    else r.(newX := r.code)
  }

  /** States that gather the components of a literal colour. */
  function ComponentState(r: Regs): (q: Regs)
    requires RegsOk(r)
    ensures RegsOk(q) && q == r.(color := q.color)
  {
    if r.state == 9 then r.(color := Shl16(r.code, r.bitsPerColor * 2))
    else if r.state == 41 then r.(color := Or16(r.color, Shl16(r.code, r.bitsPerColor)))
    else r.(color := Or16(Shl16(r.code, r.bitsPerColor * 2), Shl16(r.code, r.bitsPerColor)))
  }

  /** States that only move values between registers. */
  function MoveState(r: Regs): (q: Regs)
    requires RegsOk(r)
    ensures RegsOk(q) && q.next == r.next && q.revision == r.revision && q.ready == r.ready
    ensures q.pixelWidth == r.pixelWidth && q.pixelHeight == r.pixelHeight
  {
    if r.state in {17, 20, 21, 26, 39} then CursorState(r)
    else if r.state in {8, 9, 41} then ComponentState(r)
    else if r.state == 44 then r.(printTag := r.code, printText := [])
    else if r.state == 24 then PushCommandOctet(r, r.code)
    else if r.state == 38 then Latched(r)
    else if r.state == EXIT then r.(halt := true)
    else r
  }

  function ResetState(m: Machine): (n: Machine)
    requires Ok(m)
    ensures Ok(n) && Quiet(m, n) && n.regs.next == m.regs.next
    ensures n.reader == m.reader
  {
    ResetCache(m).(regs := m.regs.(pixelCount := 0, lastX := 0, lastY := 0, fatalCount := 0, timeoutCount := -1))
  }

  function SetMode1(m: Machine): (n: Machine)
    requires Ok(m)
    ensures Ok(n) && RevisionExact(m, n) && n.regs.next == m.regs.next
    ensures n.reader == m.reader
  {
    var r := m.regs;
    var n := if r.sizeX != r.newX || r.sizeY != r.code then ClearScreen(m) else m;
    n.(regs := n.regs.(sizeX := r.newX, sizeY := r.code))
  }

  function SetMode2(m: Machine): (n: Machine)
    requires Ok(m)
    ensures Ok(n) && RevisionExact(m, n) && n.regs.next == m.regs.next
    ensures n.reader == m.reader
  {
    var r := m.regs.(lastX := 0, lastY := 0, pixelCount := 0, sizeY1 := m.regs.code);
    SwitchVideoMode(ResetCache(m).(regs := r), r.sizeX * BLOCK_WIDTH, r.sizeY * 16 + r.sizeY1)
  }

  function Firmware(m: Machine): (n: Machine)
    requires Ok(m)
    ensures Ok(n) && RevisionExact(m, n) && n.regs.next in {m.regs.next, 37, 44}
    ensures Aligned(m.reader, n.reader)
  {
    if m.regs.code != 0 then m
    else
      var n := ProcessCommand(m);
      n.(regs := n.regs.(cmdCount := 0))
  }

  function Hunt(m: Machine): (n: Machine)
    ensures Ok(m) ==> Ok(n)
  {
    if m.regs.next == m.regs.state then m
    else m.(reader := Reader([], 0), regs := m.regs.(countBytes := 0))
  }

  /** What the table promises about the state that follows. */
  ghost predicate NextChosen(r: Regs) {
    && r.next < STATES && r.next != 43
    && (r.state in {0, 27, 34} ==> r.next == 1) && (r.state == 33 ==> r.next == 2)
    && (r.state in {40, 46, 47} ==> r.next != 2)
  }

  ghost const INDEX_STATES := {4, 5, 6, 7, 32, 38}

  /** What holds between the machine before and after a state has acted. */
  ghost predicate Acted(m: Machine, n: Machine) {
    && Ok(n) && RevisionExact(m, n) && Aligned(m.reader, n.reader)
    && n.regs.next < STATES && n.regs.next != 43
    && (n.regs.next == 2 ==> Quiet(m, n))
    && (m.regs.state in {0, 27, 33, 34, 35} ==> n.regs.next in {1, 2} + INDEX_STATES)
    && (m.regs.state == EXIT ==> n.regs.halt)
  }

  /** Colours and their repetitions. */
  function PixelState(m: Machine): (n: Machine)
    requires Ok(m) && NextChosen(m.regs) && m.regs.state in {3, 4, 5, 6, 7, 32, 42, 8, 12, 13, 14, 33}
    ensures Acted(m, n)
  {
    var s := m.regs.state;
    if s == 42 then LiteralColor(m)
    else if s == 8 then LiteralColor(m.(regs := MoveState(m.regs)))
    else if s == 12 then RepeatStandard(m)
    else if s == 13 then
      var code := (m.regs.code + 8) % 256;
      StoreRun(m.(regs := m.regs.(code := code)), code)
    else if s == 14 then StoreRun(m, m.regs.code)
    else if s == 33 then StorePixel(m, m.regs.lastColor)
    else FetchColor(m)
  }

  /** Whole blocks. */
  function BlockState(m: Machine): (n: Machine)
    requires Ok(m) && NextChosen(m.regs) && m.regs.state in {34, 29, 30}
    ensures Acted(m, n)
  {
    if m.regs.state == 34 then NextBlock(m, 1)
    else if m.regs.state == 29 then
      var code := (m.regs.code + 2) % 256;
      NextBlock(m.(regs := m.regs.(code := code)), code)
    else NextBlock(m, m.regs.code)
  }

  /** Where a frame starts and its size. */
  function FrameState(m: Machine): (n: Machine)
    requires Ok(m) && NextChosen(m.regs) && m.regs.state in {0, 40, 47}
    ensures Acted(m, n)
  {
    hide RegsOk, Recency.Valid, Picture.Valid;
    if m.regs.state == 0 then ResetState(m)
    else if m.regs.state == 40 then SetMode1(m)
    else SetMode2(m)
  }

  /** Everything else. */
  function ControlState(m: Machine): (n: Machine)
    requires Ok(m) && NextChosen(m.regs)
    requires m.regs.state !in {3, 4, 5, 6, 7, 32, 42, 8, 12, 13, 14, 33, 34, 29, 30}
    ensures Acted(m, n)
  {
    var s := m.regs.state;
    OkFrame(m, m.regs.(next := PixcodeFor(|m.cache.order|)));
    hide RegsOk, Recency.Valid, Picture.Valid;
    if s in {0, 40, 47} then FrameState(m)
    else if s == 35 then m.(regs := m.regs.(next := PixcodeFor(|m.cache.order|)))
    else if s == 27 then Timeout(m)
    else if s == 46 then Firmware(m)
    else if s == 45 then PrintOctet(m)
    else if s == 43 then Hunt(m)
    else m.(regs := MoveState(m.regs))
  }

  /** What the current state does with the code just read; regs.next is already
      the table's choice. */
  function Act(m: Machine): (n: Machine)
    requires Ok(m) && NextChosen(m.regs)
    ensures Acted(m, n)
  {
    if m.regs.state in {3, 4, 5, 6, 7, 32, 42, 8, 12, 13, 14, 33} then PixelState(m)
    else if m.regs.state in {34, 29, 30} then BlockState(m)
    else ControlState(m)
  }

  /** Rows never lead to HUNT, read at most eight bits, and read none only in six states. */
  lemma RowFacts(r: Regs, i: nat)
    requires RegsOk(r) && i < STATES && i != 43
    ensures var row := r.table[i];
      && row.bits <= 8 && row.state0 < STATES && row.state1 < STATES && row.state0 != 43 && row.state1 != 43
      && (row.bits == 0 <==> i in {0, 27, 33, 34, 35, EXIT})
  {
  }

  function ChooseNext(r: Regs): (q: Regs)
    requires RegsOk(r)
    ensures RegsOk(q) && NextChosen(q) && q == r.(next := q.next)
  {
    RowFacts(r, r.state);
    r.(next := if r.code == 0 then r.table[r.state].state0 else r.table[r.state].state1)
  }

  /** A block whose last pixel has arrived is painted and the cache pruned. */
  function FinishBlock(m: Machine): (n: Machine)
    requires Ok(m)
    ensures Ok(n) && n.reader == m.reader && n.regs.halt == m.regs.halt
    ensures if m.regs.next == 2 && m.regs.pixelCount == m.regs.blockHeight * BLOCK_WIDTH
            then n.regs.next == 1 && RevisionExact(m, n) else n == m
  {
    if m.regs.next == 2 && m.regs.pixelCount == m.regs.blockHeight * BLOCK_WIDTH then
      var n := NextBlock(m, 1);
      var cache := n.cache.Prune();
      n.(cache := cache, regs := SetFan(n.regs, PixcodeFor(|cache.order|)))
    else m
  }

  /** The current state acts on the code just read and hands over to the next. */
  function Execute(m: Machine): (n: Machine)
    requires Ok(m)
    ensures Ok(n) && RevisionExact(m, n) && Aligned(m.reader, n.reader)
    ensures m.regs.state in {0, 27, 33, 34, 35} ==> n.regs.state in {1, 2} + INDEX_STATES
    ensures m.regs.state == EXIT ==> n.regs.halt
  {
    var n := FinishBlock(Act(m.(regs := ChooseNext(m.regs))));
    n.(regs := n.regs.(state := n.regs.next))
  }
}
