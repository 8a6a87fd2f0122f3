/**
 The decoder's colour cache. The reference model is a duplicate-free
 move-to-front list of at most 17 colours that remembers how many of its leading
 entries were used in the current block; the class keeps the same list as usage
 counters spread over an array.
 */
module ColorCache {

  const CAPACITY := 17

  type Color = x: int | 0 <= x < 65536

  ghost predicate Distinct<T>(s: seq<T>) {
    forall i, j :: 0 <= i < j < |s| ==> s[i] != s[j]
  }

  /** The PIXCODE state that reads an index into a cache of this size. */
  function PixcodeFor(active: nat): (state: nat)
    ensures state in {38, 4, 5, 6, 7, 32}
  {
    if active < 2 then 38
    else if active == 2 then 4
    else if active == 3 then 5
    else if active < 6 then 6
    else if active < 10 then 7
    else 32
  }

  function IndexOf(s: seq<Color>, c: Color): (k: nat)
    requires c in s
    ensures k < |s| && s[k] == c
  {
    if s[0] == c then 0 else 1 + IndexOf(s[1..], c)
  }

  /** The sequence with x in front, in place of whatever was at index k (if anything was). */
  function ToFront<T>(s: seq<T>, k: nat, x: T): (r: seq<T>)
    requires k <= |s|
    ensures |r| == (if k < |s| then |s| else |s| + 1) && r[0] == x
    ensures forall u :: 0 < u <= k ==> r[u] == s[u - 1]
    ensures forall u :: k < u < |s| ==> r[u] == s[u]
  {
    [x] + s[..k] + (if k < |s| then s[k + 1..] else [])
  }

  datatype Recency = Recency(order: seq<Color>, touched: nat) {

    ghost predicate Valid() {
      touched <= |order| <= CAPACITY && Distinct(order)
    }

    /** Put colour c in front, in place of whatever ranked k-th (if anything did). */
    function Promote(k: nat, c: Color): (r: Recency)
      requires k <= |order| && touched <= |order|
      ensures r.touched <= |r.order|
    {
      Recency(ToFront(order, k, c), if k < touched then touched else touched + 1)
    }

    /** The rank that using colour c vacates. */
    function RankFor(c: Color): (k: nat)
      requires |order| <= CAPACITY
      ensures k <= |order| && k < CAPACITY
    {
      if c in order then IndexOf(order, c)
      else if |order| < CAPACITY then |order|
      else CAPACITY - 1
    }

    function Use(c: Color): (r: Recency)
      requires touched <= |order| <= CAPACITY
    {
      Promote(RankFor(c), c)
    }

    function Fetch(code: nat): (r: Recency)
      requires touched <= |order| && code < |order|
    {
      Promote(code, order[code])
    }

    function Prune(): (r: Recency)
      requires touched <= |order|
    {
      Recency(order[..touched], 0)
    }
  }

  /** Using a colour keeps the list duplicate-free and within capacity, puts the
      colour in front, drops at most the least recent colour and nothing else. */
  lemma UseKeepsList(r: Recency, c: Color)
    requires r.Valid()
    ensures r.Use(c).Valid()
    ensures r.Use(c).order[0] == c && r.Use(c).touched >= 1
    ensures forall x :: x in r.Use(c).order ==> x == c || x in r.order
    ensures forall x :: x in r.order ==>
      x in r.Use(c).order || (c !in r.order && |r.order| == CAPACITY && x == r.order[CAPACITY - 1])
  {
    var k, s := r.RankFor(c), r.Use(c).order;
    PromoteKeeps(r, k, c);
    forall x | x in r.order
      ensures x in s || (c !in r.order && |r.order| == CAPACITY && x == r.order[CAPACITY - 1])
    {
      var i :| 0 <= i < |r.order| && r.order[i] == x;
      assert i < k ==> s[i + 1] == x;
      assert i > k ==> s[i] == x;
      assert i == k ==> c in r.order ==> s[0] == x;
    }
  }

  lemma PromoteKeeps(r: Recency, k: nat, c: Color)
    requires r.Valid() && k <= |r.order| && k < CAPACITY
    requires forall i :: 0 <= i < |r.order| && i != k ==> r.order[i] != c
    ensures r.Promote(k, c).Valid()
  {
  }

  lemma FetchKeepsList(r: Recency, code: nat)
    requires r.Valid() && code < |r.order|
    ensures r.Fetch(code).Valid()
    ensures forall x :: x in r.Fetch(code).order <==> x in r.order
  {
    PromoteKeeps(r, code, r.order[code]);
    var s := r.Fetch(code).order;
    forall x | x in r.order
      ensures x in s
    {
      var i :| 0 <= i < |r.order| && r.order[i] == x;
      assert x == s[if i < code then i + 1 else if i > code then i else 0];
    }
  }

  /** No colour but the one at the vacated rank is the colour being used. */
  lemma RankVacates(r: Recency, c: Color)
    requires r.Valid()
    ensures forall i :: 0 <= i < |r.order| && i != r.RankFor(c) ==> r.order[i] != c
    ensures var n := |r.Promote(r.RankFor(c), c).order|;
      n == if r.RankFor(c) < |r.order| then |r.order| else |r.order| + 1
  {
  }

  /** One use of the cache, as the decoder makes it. */
  datatype CacheOp = Reset | Lru(color: Color) | Find(code: nat) | Prune

  function Apply(r: Recency, op: CacheOp): (r': Recency)
    requires r.touched <= |r.order| <= CAPACITY
    ensures r'.touched <= |r'.order| <= CAPACITY
  {
    match op
    case Reset => Recency([], 0)
    case Lru(c) => r.Use(c)
    case Find(code) => if code < |r.order| then r.Fetch(code) else r
    case Prune => r.Prune()
  }

  function After(ops: seq<CacheOp>): (r: Recency)
    ensures r.touched <= |r.order| <= CAPACITY
  {
    if ops == [] then Recency([], 0) else Apply(After(ops[..|ops| - 1]), ops[|ops| - 1])
  }

  /** The history of uses, without any reference to ranks: was x used since the last prune or reset? */
  ghost predicate UsedSincePrune(ops: seq<CacheOp>, x: Color) {
    ops != [] &&
    var before, op := ops[..|ops| - 1], ops[|ops| - 1];
    match op
    case Reset => false
    case Prune => false
    case Lru(c) => c == x || UsedSincePrune(before, x)
    case Find(code) => (code < |After(before).order| && After(before).order[code] == x) || UsedSincePrune(before, x)
  }

  /** In every run the list stays duplicate-free, and the colours used since the
      last prune are exactly its first `touched` entries; so pruning keeps a
      cached colour if and only if it was used since the last prune. */
  lemma {:induction false} TouchedPrefix(ops: seq<CacheOp>, k: nat)
    requires k < |After(ops).order|
    ensures After(ops).Valid()
    ensures k < After(ops).touched <==> UsedSincePrune(ops, After(ops).order[k])
    decreases |ops|, 1
  {
    var r := After(ops);
    if ops == [] {
    } else {
      var before, op := ops[..|ops| - 1], ops[|ops| - 1];
      var p := After(before);
      EveryRunValid(before);
      EveryRunValid(ops);
      match op
      case Reset =>
      case Prune =>
      case Lru(c) => PromotedPrefix(before, p.RankFor(c), c, k);
      case Find(code) =>
        if code < |p.order| { PromotedPrefix(before, code, p.order[code], k); }
        else { TouchedPrefix(before, k); }
    }
  }

  lemma {:induction false} EveryRunValid(ops: seq<CacheOp>)
    ensures After(ops).Valid()
  {
    if ops == [] {
    } else {
      var p, op := After(ops[..|ops| - 1]), ops[|ops| - 1];
      EveryRunValid(ops[..|ops| - 1]);
      match op
      case Reset =>
      case Prune =>
      case Lru(c) => UseKeepsList(p, c);
      case Find(code) => if code < |p.order| { FetchKeepsList(p, code); }
    }
  }

  lemma {:induction false} PromotedPrefix(before: seq<CacheOp>, rank: nat, c: Color, k: nat)
    requires rank <= |After(before).order| && After(before).Valid() && rank < CAPACITY
    requires forall i :: 0 <= i < |After(before).order| && i != rank ==> After(before).order[i] != c
    requires k < |After(before).Promote(rank, c).order|
    ensures var r := After(before).Promote(rank, c);
      k < r.touched <==> (r.order[k] == c || UsedSincePrune(before, r.order[k]))
    decreases |before|, 2
  {
    var p := After(before);
    if 0 < k <= rank { TouchedPrefix(before, k - 1); }
    else if k > rank { TouchedPrefix(before, k); }
  }

  datatype ColorElement = ColorElement(color: Color, usage: nat, blockCounter: int)

  /** `elems[..active]` spreads the list m over slots: slot[u] is where rank u lives. */
  ghost predicate Represents(elems: seq<ColorElement>, active: nat, m: Recency, slot: seq<nat>) {
    && m.Valid()
    && |elems| == CAPACITY && active == |m.order| == |slot|
    && (forall u :: 0 <= u < active ==>
          slot[u] < active && elems[slot[u]] == Entry(m, u))
    && (forall i :: 0 <= i < active ==>
          elems[i].usage < active && slot[elems[i].usage] == i)
  }

  ghost function Entry(m: Recency, u: nat): ColorElement
    requires u < |m.order|
  {
    ColorElement(m.order[u], u, if u < m.touched then 1 else 0)
  }

  function Bump(e: ColorElement, k: nat): ColorElement {
    if e.usage < k then e.(usage := e.usage + 1) else e
  }

  /** Where a scan for a colour must stop. */
  lemma SlotColors(elems: seq<ColorElement>, active: nat, m: Recency, slot: seq<nat>, col: Color)
    requires Represents(elems, active, m, slot)
    ensures forall j :: 0 <= j < active && elems[j].color == col ==>
      col in m.order && elems[j].usage == IndexOf(m.order, col)
    ensures col in m.order ==> exists j :: 0 <= j < active && elems[j].color == col
    ensures active > 0 ==> slot[active - 1] < active && elems[slot[active - 1]].usage == active - 1
  {
    forall j | 0 <= j < active && elems[j].color == col
      ensures col in m.order && elems[j].usage == IndexOf(m.order, col)
    {
      assert elems[slot[elems[j].usage]] == Entry(m, elems[j].usage);
    }
    if col in m.order {
      assert elems[slot[IndexOf(m.order, col)]] == Entry(m, IndexOf(m.order, col));
    }
  }

  /** What one pass of usage bumping does to a slot. */
  ghost predicate Bumped(was: seq<ColorElement>, now: seq<ColorElement>, active: nat, k: nat, s: nat, c: Color) {
    && |was| == |now| && active <= |was|
    && (forall i :: 0 <= i < active ==> now[i] == if i == s then ColorElement(c, 0, 1) else Bump(was[i], k))
  }

  /** Where the ranks sit after the bump. */
  ghost function Moved(slot: seq<nat>, k: nat): (s: seq<nat>)
    requires k <= |slot|
    ensures |s| == if k < |slot| then |slot| else |slot| + 1
  {
    ToFront(slot, k, if k < |slot| then slot[k] else |slot|)
  }

  lemma BumpRanks(was: seq<ColorElement>, now: seq<ColorElement>, active: nat,
                  m: Recency, slot: seq<nat>, k: nat, c: Color)
    requires Represents(was, active, m, slot) && k <= active && k < CAPACITY
    requires Bumped(was, now, if k < active then active else active + 1, k,
                    if k < active then slot[k] else active, c)
    ensures var s := Moved(slot, k);
      && |s| == |m.Promote(k, c).order|
      && forall u :: 0 <= u < |s| ==> s[u] < |s| && now[s[u]] == Entry(m.Promote(k, c), u)
  {
    assert m.touched <= |m.order|;
    hide Distinct, Recency.Valid;
    var s := Moved(slot, k);
    assert |s| == |m.Promote(k, c).order|;
    forall u | 0 <= u < |s|
      ensures s[u] < |s| && now[s[u]] == Entry(m.Promote(k, c), u)
    {
      if 0 < u <= k { assert s[u] == slot[u - 1] && was[slot[u - 1]] == Entry(m, u - 1); }
      else if k < u { assert s[u] == slot[u] && was[slot[u]] == Entry(m, u); }
    }
  }

  lemma BumpSlots(was: seq<ColorElement>, now: seq<ColorElement>, active: nat,
                  m: Recency, slot: seq<nat>, k: nat, c: Color)
    requires Represents(was, active, m, slot) && k <= active && k < CAPACITY
    requires Bumped(was, now, if k < active then active else active + 1, k,
                    if k < active then slot[k] else active, c)
    ensures var s := Moved(slot, k);
      && |s| <= |now|
      && forall i :: 0 <= i < |s| ==> now[i].usage < |s| && s[now[i].usage] == i
  {
    hide Distinct, Recency.Valid, Entry;
    var s := Moved(slot, k);
    forall i | 0 <= i < |s|
      ensures now[i].usage < |s| && s[now[i].usage] == i
    {
      if i < active && (k == active || i != slot[k]) {
        var u := was[i].usage;
        assert slot[u] == i;
      }
    }
  }

  /** One pass over the usage counters is a move to front. */
  lemma BumpPromotes(was: seq<ColorElement>, now: seq<ColorElement>, active: nat,
                     m: Recency, slot: seq<nat>, k: nat, c: Color) returns (slot': seq<nat>)
    requires Represents(was, active, m, slot) && k <= active && k < CAPACITY
    requires forall i :: 0 <= i < active && i != k ==> m.order[i] != c
    requires Bumped(was, now, if k < active then active else active + 1, k,
                    if k < active then slot[k] else active, c)
    ensures Represents(now, if k < active then active else active + 1, m.Promote(k, c), slot')
  {
    PromoteKeeps(m, k, c);
    BumpRanks(was, now, active, m, slot, k, c);
    BumpSlots(was, now, active, m, slot, k, c);
    hide Distinct, Recency.Valid, Bumped, Entry;
    slot' := Moved(slot, k);
  }

  /** Which ranks survive so far, and where each of them sits. */
  datatype Sweep = Sweep(alive: set<nat>, at: seq<nat>)

  /** Half-way through pruning: slots below i are kept and cleared, slots from i
      to n still carry the counters they had. */
  ghost predicate Sweeping(elems: seq<ColorElement>, m: Recency, i: nat, n: nat, w: Sweep) {
    && m.Valid() && i <= n <= |m.order| && |elems| == CAPACITY
    && |w.alive| == n && |w.at| == |m.order|
    && (forall u: nat :: u < m.touched ==> u in w.alive)
    && (forall u :: u in w.alive ==> u < |m.order| && w.at[u] < n && elems[w.at[u]].usage == u)
    && (forall j :: 0 <= j < n ==> elems[j].usage in w.alive && w.at[elems[j].usage] == j
                                   && elems[j].color == m.order[elems[j].usage])
    && (forall j :: 0 <= j < i ==> elems[j].usage < m.touched && elems[j].blockCounter == 0)
    && (forall j :: i <= j < n ==> elems[j].blockCounter == if elems[j].usage < m.touched then 1 else 0)
  }

  lemma SweepStart(elems: seq<ColorElement>, m: Recency, slot: seq<nat>)
    requires Represents(elems, |m.order|, m, slot)
    ensures Sweeping(elems, m, 0, |m.order|, Sweep(Range(|m.order|), slot))
  {
    hide Distinct;
  }

  lemma SweepDrop(elems: seq<ColorElement>, m: Recency, i: nat, n: nat, w: Sweep) returns (w': Sweep)
    requires Sweeping(elems, m, i, n, w) && i < n && elems[i].blockCounter == 0
    ensures Sweeping(elems[i := elems[n - 1]], m, i, n - 1, w') && |w'.at| == |w.at|
  {
    w' := Sweep(w.alive - {elems[i].usage}, w.at[elems[n - 1].usage := i]);
  }

  lemma SweepKeep(elems: seq<ColorElement>, m: Recency, i: nat, n: nat, w: Sweep)
    requires Sweeping(elems, m, i, n, w) && i < n && elems[i].blockCounter != 0
    ensures elems[i].blockCounter == 1
    ensures Sweeping(elems[i := elems[i].(blockCounter := 0)], m, i + 1, n, w)
  {
  }

  /** Nothing but the touched prefix survives. */
  lemma SweepDone(elems: seq<ColorElement>, m: Recency, n: nat, w: Sweep)
    requires Sweeping(elems, m, n, n, w)
    ensures n == m.touched == |m.Prune().order| && m.Prune().Valid()
    ensures Represents(elems, n, m.Prune(), w.at[..n])
  {
    assert w.alive == Range(m.touched) by {
      assert forall u :: u in w.alive ==> elems[w.at[u]].usage == u;
    }
  }

  class Cache {
    var active: nat
    const element: array<ColorElement>
    var pixcode: nat
    ghost var model: Recency
    ghost var slot: seq<nat>

    ghost predicate Valid()
      reads this, element
    {
      && element.Length == CAPACITY
      && Represents(element[..], active, model, slot)
      && model.Valid() && active == |model.order|
      && pixcode == PixcodeFor(active)
    }

    constructor ()
      ensures Valid() && fresh(element) && model == Recency([], 0)
    {
      active := 0;
      element := new ColorElement[CAPACITY](_ => ColorElement(0, 0, 0));
      pixcode := 38;
      model, slot := Recency([], 0), [];
    }

    method Reset()
      requires Valid()
      modifies this, element
      ensures Valid() && model == Recency([], 0)
    {
      active := 0;
      for i := 0 to element.Length
        modifies element
      {
        element[i] := element[i].(usage := 0, blockCounter := 0);
      }
      pixcode := 38;
      model, slot := Recency([], 0), [];
    }

    method UpdatePixcode()
      modifies `pixcode
      ensures pixcode == PixcodeFor(active)
    {
      if active < 2 { pixcode := 38; }
      else if active == 2 { pixcode := 4; }
      else if active == 3 { pixcode := 5; }
      else if active < 6 { pixcode := 6; }
      else if active < 10 { pixcode := 7; }
      else { pixcode := 32; }
    }

    /** Adds one to every usage below k among the first n slots. */
    method BumpBelow(n: nat, k: nat)
      requires n <= element.Length
      modifies element
      ensures forall i :: 0 <= i < n ==> element[i] == Bump(old(element[i]), k)
      ensures forall i :: n <= i < element.Length ==> element[i] == old(element[i])
    {
      for i := 0 to n
        invariant forall j :: 0 <= j < i ==> element[j] == Bump(old(element[j]), k)
        invariant forall j :: i <= j < element.Length ==> element[j] == old(element[j])
      {
        if element[i].usage < k {
          element[i] := element[i].(usage := element[i].usage + 1);
        }
      }
    }

    /** The slot holding the colour, else the slot of the least recent colour. */
    method Scan(col: Color) returns (found: bool, s: nat)
      requires Valid()
      ensures found == (col in model.order)
      ensures found ==> s < active && element[s].color == col && element[s].usage == IndexOf(model.order, col)
      ensures found ==> |slot| == active && element[s].usage < active && slot[element[s].usage] == s
      ensures !found && active == CAPACITY ==>
        |slot| == CAPACITY && s == slot[CAPACITY - 1] && element[s].usage == CAPACITY - 1
      ensures s < CAPACITY
    {
      found, s := false, 0;
      var i := 0;
      ghost var elems := element[..];
      SlotColors(elems, active, model, slot, col);
      while i < active
        invariant 0 <= i <= active && s < CAPACITY
        invariant forall j :: 0 <= j < i ==> element[j].color != col
        invariant forall j :: 0 <= j < i ==> element[j].usage == active - 1 ==> s == j
      {
        if col == element[i].color {
          return true, i;
        }
        if element[i].usage == active - 1 { s := i; }
        i := i + 1;
      }
    }

    method Lru(col: Color) returns (found: bool)
      requires Valid()
      modifies this, element
      ensures Valid()
      ensures found == (col in old(model).order)
      ensures model == old(model).Use(col)
    {
      assert |slot| == active <= CAPACITY;
      RankVacates(model, col);
      hide Represents, Distinct, Recency.Valid, IndexOf, PixcodeFor, Recency.Promote;
      ghost var was := element[..];
      ghost var n := active;
      var s;
      found, s := Scan(col);
      var oldUsage := element[s].usage;
      if !found {
        if active < element.Length {
          s, oldUsage := active, active;
          active := active + 1;
          UpdatePixcode();
        }
        element[s] := element[s].(color := col);
      }
      element[s] := element[s].(blockCounter := 1);
      assert oldUsage == model.RankFor(col);
      BumpBelow(active, oldUsage);
      element[s] := element[s].(usage := 0);
      assert Bumped(was, element[..], active, oldUsage, s, col);
      hide Bumped, Bump;
      slot := BumpPromotes(was, element[..], n, model, slot, oldUsage, col);
      model := model.Promote(oldUsage, col);
    }

    /** Succeeds exactly when the code is below the number of cached colours. */
    method Find(code: nat, col: Color) returns (missed: bool, found: Color)
      requires Valid()
      modifies this, element
      ensures Valid()
      ensures missed == (code >= |old(model).order|)
      ensures missed ==> model == old(model) && found == col
      ensures !missed ==> model == old(model).Fetch(code) && found == old(model).order[code]
    {
      ghost var was := element[..];
      assert code < active ==> element[slot[code]].usage == code;
      var i := 0;
      while i < active
        invariant 0 <= i <= active
        invariant forall j :: 0 <= j < i ==> element[j].usage != code
      {
        if element[i].usage == code {
          found := element[i].color;
          BumpBelow(active, code);
          element[i] := element[i].(usage := 0, blockCounter := 1);
          slot := BumpPromotes(was, element[..], active, model, slot, code, found);
          model := model.Fetch(code);
          return false, found;
        }
        i := i + 1;
      }
      return true, col;
    }

    /** Swaps the last slot in for every unused one and clears the counters of the rest. */
    method SweepSlots(ghost start: Sweep) returns (n: nat, ghost end: Sweep)
      requires active <= element.Length == CAPACITY
      requires Sweeping(element[..], model, 0, active, start) && |start.at| == active
      modifies element
      ensures n <= active && Sweeping(element[..], model, n, n, end) && |end.at| == active
    {
      hide Sweeping;
      n, end := active, start;
      var i := 0;
      ghost var cur := element[..];
      while i < n
        invariant i <= n <= active && |end.at| == active
        invariant element[..] == cur && Sweeping(cur, model, i, n, end)
        decreases n - i
      {
        if element[i].blockCounter == 0 {
          end := SweepDrop(cur, model, i, n, end);
          n := n - 1;
          element[i] := element[n];
          cur := cur[i := cur[n]];
        } else {
          SweepKeep(cur, model, i, n, end);
          element[i] := element[i].(blockCounter := element[i].blockCounter - 1);
          cur := cur[i := cur[i].(blockCounter := 0)];
          i := i + 1;
        }
      }
    }

    /** Drops every colour not used since the last prune. */
    method Prune()
      requires Valid()
      modifies this, element
      ensures Valid()
      ensures model == old(model).Prune()
    {
      assert |model.order| == |slot| && active <= CAPACITY;
      hide Represents, Sweeping, PixcodeFor, Recency.Valid, Recency.Prune, Range;
      SweepStart(element[..], model, slot);
      ghost var sweep;
      var n;
      n, sweep := SweepSlots(Sweep(Range(active), slot));
      SweepDone(element[..], model, n, sweep);
      active := n;
      UpdatePixcode();
      model, slot := model.Prune(), sweep.at[..n];
    }
  }

  /** The numbers below n. */
  ghost function Range(n: nat): (s: set<nat>)
    ensures |s| == n
    ensures forall u :: u in s <==> 0 <= u < n
  {
    if n == 0 then {} else Range(n - 1) + {n - 1}
  }
}
