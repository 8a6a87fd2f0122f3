/**
 From HID keyboard reports to RFB key events: each report is compared with the one
 before it and only the difference is sent, as keysym presses and releases.
 */
module KeyEvents {
  import opened Bits
  import opened Options

  type Keysym = nat

  // ---- Tables -----------------------------------------------------------------

  function BaseKeysym(usage: byte): Option<Keysym> {
    if 4 <= usage <= 29 then Some('a' as int + (usage - 4))
    else if 30 <= usage <= 38 then Some('1' as int + (usage - 30))
    else if usage == 39 then Some('0' as int)
    else if 58 <= usage <= 69 then Some(0xffbe + (usage - 58))
    else if 89 <= usage <= 97 then Some(0xffb1 + (usage - 89))
    else match usage
      case 40 => Some(0xff0d) case 41 => Some(0xff1b) case 42 => Some(0xff08) case 43 => Some(0xff09)
      case 44 => Some(0x20) case 45 => Some('-' as int) case 46 => Some('=' as int) case 47 => Some('[' as int)
      case 48 => Some(']' as int) case 49 => Some('\\' as int) case 50 => Some('#' as int) case 51 => Some(';' as int)
      case 52 => Some('\'' as int) case 53 => Some('`' as int) case 54 => Some(',' as int) case 55 => Some('.' as int)
      case 56 => Some('/' as int) case 57 => Some(0xffe5) case 70 => Some(0xff61) case 71 => Some(0xff14)
      case 72 => Some(0xff13) case 73 => Some(0xff63) case 74 => Some(0xff50) case 75 => Some(0xff55)
      case 76 => Some(0xffff) case 77 => Some(0xff57) case 78 => Some(0xff56) case 79 => Some(0xff53)
      case 80 => Some(0xff51) case 81 => Some(0xff54) case 82 => Some(0xff52) case 83 => Some(0xff7f)
      case 84 => Some(0xffaf) case 85 => Some(0xffaa) case 86 => Some(0xffad) case 87 => Some(0xffab)
      case 88 => Some(0xff8d) case 98 => Some(0xffb0) case 99 => Some(0xffae) case 100 => Some('\\' as int)
      case 101 => Some(0xff67) case 104 => Some(0xffc9) case _ => None
  }

  /** The symbols above the digit row of a US keyboard. */
  const DIGIT_SYMBOLS := "!@#$%^&*()"

  function ShiftedKeysym(usage: byte): Option<Keysym> {
    if 4 <= usage <= 29 then Some('A' as int + (usage - 4))
    else if 30 <= usage <= 39 then Some(DIGIT_SYMBOLS[usage - 30] as int)
    else match usage
      case 45 => Some('_' as int) case 46 => Some('+' as int) case 47 => Some('{' as int) case 48 => Some('}' as int)
      case 49 => Some('|' as int) case 50 => Some('~' as int) case 51 => Some(':' as int) case 52 => Some('"' as int)
      case 53 => Some('~' as int) case 54 => Some('<' as int) case 55 => Some('>' as int) case 56 => Some('?' as int)
      case 100 => Some('|' as int) case _ => None
  }

  function KeysymForHid(usage: byte, shift: bool): Option<Keysym> {
    if shift && ShiftedKeysym(usage).Some? then ShiftedKeysym(usage) else BaseKeysym(usage)
  }

  datatype Modifier = Modifier(bit: nat, keysym: Keysym)

  /** The modifier keys in report order. */
  function ModifierAt(i: nat): (m: Modifier)
    requires i < 8
    ensures m.bit > 0
  {
    match i
    case 0 => Modifier(1, 0xffe3) case 1 => Modifier(2, 0xffe1)
    case 2 => Modifier(4, 0xffe9) case 3 => Modifier(8, 0xffeb)
    case 4 => Modifier(16, 0xffe4) case 5 => Modifier(32, 0xffe2)
    case 6 => Modifier(64, 0xffea) case _ => Modifier(128, 0xffec)
  }

  /** Which modifier a keysym is, or 8. */
  function ModifierIndex(k: Keysym): (i: nat)
    ensures i <= 8 && (i < 8 ==> ModifierAt(i).keysym == k)
    ensures forall j :: 0 <= j < 8 && ModifierAt(j).keysym == k ==> i == j
  {
    if k == 0xffe3 then 0 else if k == 0xffe1 then 1 else if k == 0xffe9 then 2 else if k == 0xffeb then 3
    else if k == 0xffe4 then 4 else if k == 0xffe2 then 5 else if k == 0xffea then 6 else if k == 0xffec then 7 else 8
  }

  predicate HasBit(modifiers: byte, bit: nat)
    requires bit > 0
  {
    (modifiers / bit) % 2 == 1
  }

  predicate ShiftOf(modifiers: byte) { HasBit(modifiers, 2) || HasBit(modifiers, 32) }

  /** No ordinary key has the keysym of a modifier. */
  lemma OrdinaryKeysym(usage: byte, shift: bool)
    ensures KeysymForHid(usage, shift).Some? ==> ModifierIndex(KeysymForHid(usage, shift).value) == 8
  {
    assert forall i :: 0 <= i < 10 ==> DIGIT_SYMBOLS[i] as int < 128;
  }

  // ---- Events -------------------------------------------------------------------

  datatype KeyEvent = KeyEvent(keysym: Keysym, down: bool)

  /** What the peer has pressed after these events. */
  function Replay(held: set<Keysym>, events: seq<KeyEvent>): set<Keysym> {
    if events == [] then held
    else
      var h, e := Replay(held, events[..|events| - 1]), events[|events| - 1];
      if e.down then h + {e.keysym} else h - {e.keysym}
  }

  lemma {:induction false} ReplayConcat(held: set<Keysym>, a: seq<KeyEvent>, b: seq<KeyEvent>)
    ensures Replay(held, a + b) == Replay(Replay(held, a), b)
  {
    if b == [] {
      assert a + b == a;
    } else {
      assert (a + b)[..|a + b| - 1] == a + b[..|b| - 1];
      ReplayConcat(held, a, b[..|b| - 1]);
    }
  }

  lemma ReplayNothing(held: set<Keysym>)
    ensures Replay(held, []) == held
  {
  }

  lemma ReplayOne(held: set<Keysym>, e: seq<KeyEvent>, last: KeyEvent)
    ensures Replay(held, e + [last]) ==
      if last.down then Replay(held, e) + {last.keysym} else Replay(held, e) - {last.keysym}
  {
    assert (e + [last])[..|e|] == e;
  }

  /** The keysyms of those keys that are not among `others`. */
  function Syms(keys: seq<byte>, others: seq<byte>, shift: bool): set<Keysym> {
    if keys == [] then {}
    else
      var s, u := Syms(keys[..|keys| - 1], others, shift), keys[|keys| - 1];
      if u !in others && KeysymForHid(u, shift).Some? then s + {KeysymForHid(u, shift).value} else s
  }

  lemma {:induction false} SymsMember(keys: seq<byte>, others: seq<byte>, shift: bool, k: Keysym)
    ensures k in Syms(keys, others, shift) <==>
      exists u :: u in keys && u !in others && KeysymForHid(u, shift) == Some(k)
  {
    if keys == [] {
    } else {
      var front, u := keys[..|keys| - 1], keys[|keys| - 1];
      SymsMember(front, others, shift, k);
      assert forall v :: v in keys <==> v in front || v == u;
    }
  }

  /** One event for each key that is not among `others`, in report order. */
  function KeyEventsOf(keys: seq<byte>, others: seq<byte>, shift: bool, down: bool): seq<KeyEvent> {
    if keys == [] then []
    else
      var e, u := KeyEventsOf(keys[..|keys| - 1], others, shift, down), keys[|keys| - 1];
      if u !in others && KeysymForHid(u, shift).Some? then e + [KeyEvent(KeysymForHid(u, shift).value, down)] else e
  }

  lemma {:induction false} ReplayKeys(held: set<Keysym>, keys: seq<byte>, others: seq<byte>, shift: bool, down: bool)
    ensures Replay(held, KeyEventsOf(keys, others, shift, down)) ==
      if down then held + Syms(keys, others, shift) else held - Syms(keys, others, shift)
  {
    hide KeysymForHid, Replay;
    if keys == [] {
      ReplayNothing(held);
    } else {
      var front, u := keys[..|keys| - 1], keys[|keys| - 1];
      ReplayKeys(held, front, others, shift, down);
      if u !in others && KeysymForHid(u, shift).Some? {
        ReplayOne(held, KeyEventsOf(front, others, shift, down), KeyEvent(KeysymForHid(u, shift).value, down));
      }
    }
  }

  /** The modifiers among the first n that `from` has and `to` lacks. */
  function ModifierEvents(from: byte, to: byte, n: nat, down: bool): seq<KeyEvent>
    requires n <= 8
  {
    if n == 0 then []
    else
      var e, m := ModifierEvents(from, to, n - 1, down), ModifierAt(n - 1);
      if HasBit(from, m.bit) && !HasBit(to, m.bit) then e + [KeyEvent(m.keysym, down)] else e
  }

  predicate Changes(k: Keysym, from: byte, to: byte, n: nat) {
    var i := ModifierIndex(k);
    i < 8 && i < n && HasBit(from, ModifierAt(i).bit) && !HasBit(to, ModifierAt(i).bit)
  }

  lemma {:induction false} ReplayModifiers(held: set<Keysym>, from: byte, to: byte, n: nat, down: bool, k: Keysym)
    requires n <= 8
    ensures k in Replay(held, ModifierEvents(from, to, n, down)) <==>
      if Changes(k, from, to, n) then down else k in held
  {
    hide HasBit, Replay, ModifierAt, ModifierIndex;
    if n == 0 {
      ReplayNothing(held);
    } else {
      ReplayModifiers(held, from, to, n - 1, down, k);
      var m := ModifierAt(n - 1);
      assert m.keysym == k <==> ModifierIndex(k) == n - 1;
      if HasBit(from, m.bit) && !HasBit(to, m.bit) {
        ReplayOne(held, ModifierEvents(from, to, n - 1, down), KeyEvent(m.keysym, down));
      }
    }
  }

  // ---- Reports --------------------------------------------------------------------

  type Report = r: seq<byte> | |r| == 10 witness seq(10, _ => 0)

  datatype Remembered = Remembered(modifiers: byte, keys: seq<byte>)

  function NonZero(s: seq<byte>): seq<byte> {
    if s == [] then []
    else NonZero(s[..|s| - 1]) + if s[|s| - 1] != 0 then [s[|s| - 1]] else []
  }

  function KeysOf(report: Report): seq<byte> { NonZero(report[4..10]) }

  function Remember(report: Report): Remembered { Remembered(report[2], KeysOf(report)) }

  /** Key releases, modifier releases, modifier presses, key presses. */
  function Diff(k: Remembered, n: Remembered): seq<KeyEvent> {
    KeyEventsOf(k.keys, n.keys, ShiftOf(k.modifiers), false)
    + ModifierEvents(k.modifiers, n.modifiers, 8, false)
    + ModifierEvents(n.modifiers, k.modifiers, 8, true)
    + KeyEventsOf(n.keys, k.keys, ShiftOf(n.modifiers), true)
  }

  class KeyboardState {
    var modifiers: byte
    var keys: seq<byte>

    constructor ()
      ensures Value() == Remembered(0, [])
    {
      modifiers, keys := 0, [];
    }

    ghost function Value(): Remembered
      reads this
    {
      Remembered(modifiers, keys)
    }

    method Apply(report: Report) returns (events: seq<KeyEvent>)
      modifies this
      ensures Value() == Remember(report)
      ensures events == Diff(old(Value()), Remember(report))
    {
      hide HasBit, KeysymForHid;
      var now := report[2];
      var pressed: seq<byte> := [];
      var usages := report[4..10];
      for i := 0 to 6
        invariant pressed == NonZero(usages[..i])
      {
        assert usages[..i + 1][..i] == usages[..i];
        if usages[i] != 0 {
          pressed := pressed + [usages[i]];
        }
      }
      assert usages[..6] == usages;
      var up := EventsFor(keys, pressed, ShiftOf(modifiers), false);
      var modUp := ModifierChanges(modifiers, now, false);
      var modDown := ModifierChanges(now, modifiers, true);
      var down := EventsFor(pressed, keys, ShiftOf(now), true);
      events := up + modUp + modDown + down;
      modifiers, keys := now, pressed;
    }

    /** Forgets the remembered report without emitting events. */
    method Reset()
      modifies this
      ensures Value() == Remembered(0, [])
    {
      modifiers, keys := 0, [];
    }
  }

  method EventsFor(keys: seq<byte>, others: seq<byte>, shift: bool, down: bool) returns (events: seq<KeyEvent>)
    ensures events == KeyEventsOf(keys, others, shift, down)
  {
    hide KeysymForHid;
    events := [];
    for i := 0 to |keys|
      invariant events == KeyEventsOf(keys[..i], others, shift, down)
    {
      assert keys[..i + 1][..i] == keys[..i];
      if keys[i] !in others {
        var keysym := KeysymForHid(keys[i], shift);
        if keysym.Some? {
          events := events + [KeyEvent(keysym.value, down)];
        }
      }
    }
    assert keys[..|keys|] == keys;
  }

  method ModifierChanges(from: byte, to: byte, down: bool) returns (events: seq<KeyEvent>)
    ensures events == ModifierEvents(from, to, 8, down)
  {
    hide HasBit;
    events := [];
    for i := 0 to 8
      invariant events == ModifierEvents(from, to, i, down)
    {
      var m := ModifierAt(i);
      if HasBit(from, m.bit) && !HasBit(to, m.bit) {
        events := events + [KeyEvent(m.keysym, down)];
      }
    }
  }

  // ---- What the peer holds ------------------------------------------------------------

  /** The peer's pressed keysyms after a run of reports from a fresh state. */
  function HeldAfter(reports: seq<Report>): set<Keysym> {
    if reports == [] then {}
    else
      var front := reports[..|reports| - 1];
      Replay(HeldAfter(front), Diff(LastOf(front), Remember(reports[|reports| - 1])))
  }

  function LastOf(reports: seq<Report>): Remembered {
    if reports == [] then Remembered(0, []) else Remember(reports[|reports| - 1])
  }

  /** What one report does to one pressed keysym. */
  lemma DiffEffect(held: set<Keysym>, k: Remembered, n: Remembered, x: Keysym)
    ensures x in Replay(held, Diff(k, n)) <==>
      if ModifierIndex(x) < 8
      then Changes(x, n.modifiers, k.modifiers, 8) || (x in held && !Changes(x, k.modifiers, n.modifiers, 8))
      else x in Syms(n.keys, k.keys, ShiftOf(n.modifiers))
           || (x in held && x !in Syms(k.keys, n.keys, ShiftOf(k.modifiers)))
  {
    hide HasBit, KeysymForHid, ModifierIndex, Changes;
    var up := KeyEventsOf(k.keys, n.keys, ShiftOf(k.modifiers), false);
    var modUp := ModifierEvents(k.modifiers, n.modifiers, 8, false);
    var modDown := ModifierEvents(n.modifiers, k.modifiers, 8, true);
    var down := KeyEventsOf(n.keys, k.keys, ShiftOf(n.modifiers), true);
    ReplayConcat(held, up + modUp + modDown, down);
    ReplayConcat(held, up + modUp, modDown);
    ReplayConcat(held, up, modUp);
    var h1 := Replay(held, up);
    var h2 := Replay(h1, modUp);
    var h3 := Replay(h2, modDown);
    ReplayKeys(held, k.keys, n.keys, ShiftOf(k.modifiers), false);
    ReplayModifiers(h1, k.modifiers, n.modifiers, 8, false, x);
    ReplayModifiers(h2, n.modifiers, k.modifiers, 8, true, x);
    ReplayKeys(h3, n.keys, k.keys, ShiftOf(n.modifiers), true);
    SymsOrdinary(k.keys, n.keys, ShiftOf(k.modifiers), x);
    SymsOrdinary(n.keys, k.keys, ShiftOf(n.modifiers), x);
    ChangesOnlyModifiers(x, k.modifiers, n.modifiers);
    ChangesOnlyModifiers(x, n.modifiers, k.modifiers);
  }

  lemma ChangesOnlyModifiers(x: Keysym, from: byte, to: byte)
    ensures Changes(x, from, to, 8) ==> ModifierIndex(x) < 8
  {
  }

  lemma SymsOrdinary(keys: seq<byte>, others: seq<byte>, shift: bool, x: Keysym)
    ensures x in Syms(keys, others, shift) ==> ModifierIndex(x) == 8
  {
    SymsMember(keys, others, shift, x);
    if x in Syms(keys, others, shift) {
      var u :| u in keys && u !in others && KeysymForHid(u, shift) == Some(x);
      OrdinaryKeysym(u, shift);
    }
  }

  /** After every run of reports the modifier keysyms held are exactly those of the
      last report's modifier byte. */
  lemma {:induction false} ModifiersTrack(reports: seq<Report>, i: nat)
    requires i < 8
    ensures ModifierAt(i).keysym in HeldAfter(reports) <==> HasBit(LastOf(reports).modifiers, ModifierAt(i).bit)
  {
    if reports == [] {
    } else {
      var front, n := reports[..|reports| - 1], Remember(reports[|reports| - 1]);
      ModifiersTrack(front, i);
      DiffEffect(HeldAfter(front), LastOf(front), n, ModifierAt(i).keysym);
    }
  }

  /** Every key held across the two reports gives the same keysym in both. */
  ghost predicate Steady(k: Remembered, n: Remembered) {
    forall u :: u in k.keys && u in n.keys ==>
      KeysymForHid(u, ShiftOf(k.modifiers)) == KeysymForHid(u, ShiftOf(n.modifiers))
  }

  ghost predicate SteadyRun(reports: seq<Report>) {
    forall i :: 0 < i < |reports| ==> Steady(Remember(reports[i - 1]), Remember(reports[i]))
  }

  /** In a run in which no held key changes its keysym, whatever ordinary keysym is
      pressed belongs to a key of the last report. */
  lemma {:induction false} HeldBelongs(reports: seq<Report>, x: Keysym)
    requires SteadyRun(reports) && x in HeldAfter(reports) && ModifierIndex(x) == 8
    ensures x in Syms(LastOf(reports).keys, [], ShiftOf(LastOf(reports).modifiers))
  {
    hide KeysymForHid;
    if reports == [] {
    } else {
      var front, k, n := reports[..|reports| - 1], LastOf(reports[..|reports| - 1]), LastOf(reports);
      DiffEffect(HeldAfter(front), k, n, x);
      SymsMember(n.keys, k.keys, ShiftOf(n.modifiers), x);
      SymsMember(n.keys, [], ShiftOf(n.modifiers), x);
      if x !in Syms(n.keys, k.keys, ShiftOf(n.modifiers)) {
        HeldBelongs(front, x);
        SymsMember(k.keys, [], ShiftOf(k.modifiers), x);
        SymsMember(k.keys, n.keys, ShiftOf(k.modifiers), x);
        var u :| u in k.keys && KeysymForHid(u, ShiftOf(k.modifiers)) == Some(x);
        if front != [] { assert Steady(Remember(reports[|reports| - 2]), Remember(reports[|reports| - 1])); }
      }
    }
  }

  const ALL_UP: Report := seq(10, _ => 0)

  lemma AllUpRemembered()
    ensures Remember(ALL_UP) == Remembered(0, [])
  {
    var z := ALL_UP[4..10];
    ZeroesHaveNone(z);
  }

  lemma {:induction false} ZeroesHaveNone(s: seq<byte>)
    requires forall i :: 0 <= i < |s| ==> s[i] == 0
    ensures NonZero(s) == []
  {
    if s == [] {
    } else {
      ZeroesHaveNone(s[..|s| - 1]);
    }
  }

  /** An all-up report releases exactly what the last report's keys account for: all
      modifiers, and the ordinary keysyms of its keys under its own shift. */
  lemma AllUpEffect(reports: seq<Report>, x: Keysym)
    ensures x in HeldAfter(reports + [ALL_UP]) <==>
      ModifierIndex(x) == 8 && x in HeldAfter(reports)
      && x !in Syms(LastOf(reports).keys, [], ShiftOf(LastOf(reports).modifiers))
  {
    hide KeysymForHid, HasBit, ModifierAt, ShiftOf, Diff;
    var all, k := reports + [ALL_UP], LastOf(reports);
    assert all[..|all| - 1] == reports;
    AllUpRemembered();
    assert HeldAfter(all) == Replay(HeldAfter(reports), Diff(k, Remembered(0, [])));
    hide HeldAfter, LastOf, Replay;
    DiffEffect(HeldAfter(reports), k, Remembered(0, []), x);
    assert Syms([], k.keys, ShiftOf(0)) == {};
    if ModifierIndex(x) < 8 {
      ModifiersTrack(reports, ModifierIndex(x));
      NoBits(ModifierAt(ModifierIndex(x)).bit);
    }
  }

  lemma NoBits(bit: nat)
    requires bit > 0
    ensures !HasBit(0, bit)
  {
    assert 0 / bit == 0;
  }

  /** Such a run followed by an all-up report leaves nothing held. */
  lemma AllUpReleases(reports: seq<Report>)
    requires SteadyRun(reports)
    ensures HeldAfter(reports + [ALL_UP]) == {}
  {
    forall x
      ensures x !in HeldAfter(reports + [ALL_UP])
    {
      AllUpEffect(reports, x);
      if x in HeldAfter(reports) && ModifierIndex(x) == 8 { HeldBelongs(reports, x); }
    }
  }

  /** In particular any chord followed by all-up. */
  lemma ChordReleases(chord: Report)
    ensures HeldAfter([chord, ALL_UP]) == {}
  {
    AllUpReleases([chord]);
    assert [chord] + [ALL_UP] == [chord, ALL_UP];
  }

  // ---- What an all-up report leaves after any run ----------------------------------------

  /** What the differ remembered when report i arrived, and what it remembered then. */
  function Before(reports: seq<Report>, i: nat): Remembered
    requires i < |reports|
  {
    if i == 0 then Remembered(0, []) else Remember(reports[i - 1])
  }

  /** Report i has a key that the one before it lacks and that gives x under report i's shift. */
  ghost predicate PressedBy(reports: seq<Report>, i: nat, x: Keysym)
    requires i < |reports|
  {
    var k, n := Before(reports, i), Remember(reports[i]);
    exists u :: u in n.keys && u !in k.keys && KeysymForHid(u, ShiftOf(n.modifiers)) == Some(x)
  }

  /** Report j lacks a key that the one before it has and that gave x under that one's shift. */
  ghost predicate ReleasedBy(reports: seq<Report>, j: nat, x: Keysym)
    requires j < |reports|
  {
    var k, n := Before(reports, j), Remember(reports[j]);
    exists u :: u in k.keys && u !in n.keys && KeysymForHid(u, ShiftOf(k.modifiers)) == Some(x)
  }

  /** A key of the last report gives x under that report's shift. */
  ghost predicate InLast(reports: seq<Report>, x: Keysym) {
    var k := LastOf(reports);
    exists u :: u in k.keys && KeysymForHid(u, ShiftOf(k.modifiers)) == Some(x)
  }

  ghost predicate ReleasedAfter(reports: seq<Report>, i: nat, x: Keysym) {
    exists j :: i < j < |reports| && ReleasedBy(reports, j, x)
  }

  /** Pressed by some report and released by none after it. */
  ghost predicate Outstanding(reports: seq<Report>, x: Keysym) {
    exists i :: 0 <= i < |reports| && PressedBy(reports, i, x) && !ReleasedAfter(reports, i, x)
  }

  lemma OutstandingStep(reports: seq<Report>, x: Keysym)
    requires reports != []
    ensures var last := |reports| - 1;
      Outstanding(reports, x) <==>
        PressedBy(reports, last, x) || (Outstanding(reports[..last], x) && !ReleasedBy(reports, last, x))
  {
    hide KeysymForHid, ShiftOf, Remember;
    var last := |reports| - 1;
    var front := reports[..last];
    forall i | 0 <= i < last
      ensures PressedBy(front, i, x) == PressedBy(reports, i, x) && ReleasedBy(front, i, x) == ReleasedBy(reports, i, x)
    {
      assert Before(front, i) == Before(reports, i) && front[i] == reports[i];
    }
    hide PressedBy, ReleasedBy;
    if Outstanding(front, x) && !ReleasedBy(reports, last, x) {
      var i :| 0 <= i < |front| && PressedBy(front, i, x) && !ReleasedAfter(front, i, x);
      assert !ReleasedAfter(reports, i, x);
    }
    if PressedBy(reports, last, x) { assert !ReleasedAfter(reports, last, x); }
    if Outstanding(reports, x) && !PressedBy(reports, last, x) {
      var i :| 0 <= i < |reports| && PressedBy(reports, i, x) && !ReleasedAfter(reports, i, x);
      assert !ReleasedAfter(front, i, x);
    }
  }

  /** After every run the ordinary keysyms held are those outstanding. */
  lemma {:induction false} HeldExactly(reports: seq<Report>, x: Keysym)
    requires ModifierIndex(x) == 8
    ensures x in HeldAfter(reports) <==> Outstanding(reports, x)
  {
    if reports == [] {
    } else {
      var last := |reports| - 1;
      var front, k, n := reports[..last], Before(reports, last), Remember(reports[last]);
      HeldExactly(front, x);
      OutstandingStep(reports, x);
      assert LastOf(front) == k;
      DiffEffect(HeldAfter(front), k, n, x);
      SymsMember(n.keys, k.keys, ShiftOf(n.modifiers), x);
      SymsMember(k.keys, n.keys, ShiftOf(k.modifiers), x);
      hide KeysymForHid, ShiftOf, Remember, Outstanding, ModifierIndex, Replay, Diff;
    }
  }

  lemma PressedOrdinary(reports: seq<Report>, i: nat, x: Keysym)
    requires i < |reports| && PressedBy(reports, i, x)
    ensures ModifierIndex(x) == 8
  {
    hide KeysymForHid, ShiftOf, Remember, ModifierIndex;
    var k, n := Before(reports, i), Remember(reports[i]);
    var u :| u in n.keys && u !in k.keys && KeysymForHid(u, ShiftOf(n.modifiers)) == Some(x);
    OrdinaryKeysym(u, ShiftOf(n.modifiers));
  }

  /** For every run: an all-up report leaves nothing held if and only if every keysym
      that some report pressed was released by a later one, or belongs to a key of the
      last report under that report's own shift. */
  lemma AllUpReleasesIff(reports: seq<Report>)
    ensures HeldAfter(reports + [ALL_UP]) == {} <==>
      forall i, x :: 0 <= i < |reports| && PressedBy(reports, i, x) ==>
        ReleasedAfter(reports, i, x) || InLast(reports, x)
  {
    hide KeysymForHid, ShiftOf, Remember, ModifierIndex, PressedBy, ReleasedBy, ReleasedAfter, HeldAfter;
    var k := LastOf(reports);
    forall x
      ensures x in HeldAfter(reports + [ALL_UP]) <==> Outstanding(reports, x) && !InLast(reports, x)
    {
      AllUpEffect(reports, x);
      SymsMember(k.keys, [], ShiftOf(k.modifiers), x);
      if ModifierIndex(x) == 8 { HeldExactly(reports, x); }
      if Outstanding(reports, x) {
        var i :| 0 <= i < |reports| && PressedBy(reports, i, x) && !ReleasedAfter(reports, i, x);
        PressedOrdinary(reports, i, x);
      }
    }
  }

  /** In particular two reports and all-up leave nothing held if and only if every key
      held across the two either is released under its first keysym by another key, or
      that keysym still belongs to a key of the second report. */
  lemma TwoReportsReleaseIff(a: Report, b: Report)
    ensures HeldAfter([a, b, ALL_UP]) == {} <==>
      var m, n := Remember(a), Remember(b);
      forall u :: u in m.keys && u in n.keys && KeysymForHid(u, ShiftOf(m.modifiers)).Some? ==>
        var k := KeysymForHid(u, ShiftOf(m.modifiers)).value;
        || (exists v :: v in m.keys && v !in n.keys && KeysymForHid(v, ShiftOf(m.modifiers)) == Some(k))
        || (exists w :: w in n.keys && KeysymForHid(w, ShiftOf(n.modifiers)) == Some(k))
  {
    hide KeysymForHid, ShiftOf, HeldAfter, Remember;
    var m, n, two := Remember(a), Remember(b), [a, b];
    assert two + [ALL_UP] == [a, b, ALL_UP];
    AllUpReleasesIff(two);
    assert Before(two, 0) == Remembered(0, []) && Before(two, 1) == m && LastOf(two) == n;
    forall x
      ensures ReleasedAfter(two, 0, x) <==> ReleasedBy(two, 1, x)
      ensures !ReleasedAfter(two, 1, x)
      ensures PressedBy(two, 1, x) ==> InLast(two, x)
    {
    }
    if HeldAfter([a, b, ALL_UP]) == {} {
      forall u | u in m.keys && u in n.keys && KeysymForHid(u, ShiftOf(m.modifiers)).Some?
        ensures var k := KeysymForHid(u, ShiftOf(m.modifiers)).value; ReleasedBy(two, 1, k) || InLast(two, k)
      {
        assert PressedBy(two, 0, KeysymForHid(u, ShiftOf(m.modifiers)).value);
      }
    } else {
      var i: nat, x: Keysym :| i < |two| && PressedBy(two, i, x) && !(ReleasedAfter(two, i, x) || InLast(two, x));
      assert i == 0;
      var u :| u in m.keys && KeysymForHid(u, ShiftOf(m.modifiers)) == Some(x);
      assert u in n.keys;
    }
  }

  /** A reset state releases nothing: whatever the peer holds it still holds after the next
      report, and an all-up report right after a reset changes nothing at all. */
  lemma ResetReleasesNothing(held: set<Keysym>, report: Report)
    ensures held <= Replay(held, Diff(Remembered(0, []), Remember(report)))
    ensures Replay(held, Diff(Remembered(0, []), Remember(ALL_UP))) == held
  {
    hide KeysymForHid, HasBit, ModifierAt, ModifierIndex, Remember, Diff, Replay;
    AllUpRemembered();
    forall x
      ensures x in held ==> x in Replay(held, Diff(Remembered(0, []), Remember(report)))
      ensures x in Replay(held, Diff(Remembered(0, []), Remember(ALL_UP))) <==> x in held
    {
      DiffEffect(held, Remembered(0, []), Remember(report), x);
      DiffEffect(held, Remembered(0, []), Remember(ALL_UP), x);
      NothingChanges(x, Remember(report).modifiers);
      NothingChanges(x, 0);
      assert Syms([], Remember(report).keys, ShiftOf(0)) == {} && Syms([], [], ShiftOf(0)) == {};
    }
  }

  lemma NothingChanges(x: Keysym, to: byte)
    ensures !Changes(x, 0, to, 8)
  {
    if ModifierIndex(x) < 8 { NoBits(ModifierAt(ModifierIndex(x)).bit); }
  }

  /** Pressing shift while A stays down leaves the lower-case keysym pressed after all-up. */
  lemma ShiftLeavesKeyHeld()
    ensures var a: Report := [1, 0, 0, 0, 4, 0, 0, 0, 0, 0];
      var b: Report := [1, 0, 2, 0, 4, 0, 0, 0, 0, 0];
      HeldAfter([a, b, ALL_UP]) != {}
  {
    var a: Report := [1, 0, 0, 0, 4, 0, 0, 0, 0, 0];
    var b: Report := [1, 0, 2, 0, 4, 0, 0, 0, 0, 0];
    hide KeysOf, HeldAfter, KeysymForHid, ShiftOf, HasBit;
    OneKey(a);
    OneKey(b);
    KeyA();
    assert Remember(a) == Remembered(0, [4]) && Remember(b) == Remembered(2, [4]);
    hide Remember;
    TwoReportsReleaseIff(a, b);
    var only: seq<byte> := [4];
    assert 4 in only && forall u :: u in only ==> u == 4;
  }

  lemma KeyA()
    ensures KeysymForHid(4, false) == Some(97) && KeysymForHid(4, true) == Some(65)
    ensures !ShiftOf(0) && ShiftOf(2)
  {
  }

  lemma OneKey(r: Report)
    requires r[4] == 4 && forall i :: 5 <= i < 10 ==> r[i] == 0
    ensures KeysOf(r) == [4]
  {
    var s := r[4..10];
    assert s[..6] == s && s[..6][..5] == s[..5] && s[..5][..4] == s[..4] && s[..4][..3] == s[..3];
    assert s[..3][..2] == s[..2] && s[..2][..1] == s[..1] && s[..1] == [4] && [4 as byte][..0] == [];
    assert NonZero([]) == [] && NonZero(s[..1]) == [4];
    assert NonZero(s[..2]) == [4] && NonZero(s[..3]) == [4];
    assert NonZero(s[..4]) == [4] && NonZero(s[..5]) == [4] && NonZero(s[..6]) == [4];
  }
}
