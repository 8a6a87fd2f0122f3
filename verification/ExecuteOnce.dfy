/**
 The at-most-once table of tool calls: callers that repeat an operation id share one
 run of the function. Steps are what happens while the mutex is held, plus the
 function's own return or panic, in any interleaving of any number of callers.
 */
module ExecuteOnce {

  type Caller = nat
  type OpId = string
  type Key = string
  type RecId = nat

  const CAPACITY := 256
  const MAX_ID := 128

  datatype Answer = Returned(value: int) | Panicked

  /** A record of the table; it stays in memory after eviction while a caller waits on it. */
  datatype Record = Record(id: OpId, key: Key, owner: Caller, runs: nat,
                           finished: bool, doneClosed: bool, answer: Answer)

  datatype Result = Answered(answer: Answer) | DifferentArguments | BadId | Cancelled

  datatype Pc =
    | Idle
    | Starting(rec: RecId)                             // has entered its record, fn not called yet
    | Running(rec: RecId)                              // inside fn
    | Waiting(rec: RecId, id: OpId, key: Key)          // on the record's done channel

  /** One completed call: what was asked and what came back, and from which record. */
  datatype Call = Call(id: OpId, key: Key, result: Result, rec: RecId)

  datatype State = State(table: map<OpId, RecId>, records: seq<Record>, pc: map<Caller, Pc>, calls: seq<Call>)

  const INITIAL := State(map[], [], map[], [])

  function PcOf(s: State, c: Caller): Pc {
    if c in s.pc then s.pc[c] else Idle
  }

  datatype Action =
    | Begins(id: OpId, key: Key)
    | Invokes
    | Finishes(answer: Answer, kept: map<OpId, RecId>)
    | WakesUp
    | Cancels

  // ---- Eviction -----------------------------------------------------------------------

  predicate Evictable(s: State, mine: OpId, id: OpId)
    requires id in s.table && s.table[id] < |s.records|
  {
    id != mine && s.records[s.table[id]].finished
  }

  /** What the eviction loop may leave of the table, in some order of iteration: it drops
      finished records of other operations one by one until 256 remain or none is left. */
  ghost predicate Evicts(s: State, mine: OpId, kept: map<OpId, RecId>) {
    && (forall id :: id in s.table ==> s.table[id] < |s.records|)
    && (forall id :: id in kept ==> id in s.table && kept[id] == s.table[id])
    && (forall id :: id in s.table && id !in kept ==> Evictable(s, mine, id))
    && (|s.table| <= CAPACITY ==> kept == s.table)
    && (kept != s.table ==> |kept| >= CAPACITY)
    && (|kept| <= CAPACITY || forall id :: id in kept ==> !Evictable(s, mine, id))
  }

  // ---- Steps ----------------------------------------------------------------------------

  function At(s: State, c: Caller, pc: Pc): State { s.(pc := s.pc[c := pc]) }

  function Settle(s: State, r: RecId, answer: Answer): State
    requires r < |s.records|
  {
    s.(records := s.records[r := s.records[r].(finished := true, doneClosed := true, answer := answer)])
  }

  ghost predicate Next(s: State, c: Caller, a: Action, n: State) {
    match a
    case Begins(id, key) =>
      && PcOf(s, c) == Idle
      && if id == "" || |id| > MAX_ID then n == s.(calls := s.calls + [Call(id, key, BadId, 0)])
         else if id in s.table then
           && s.table[id] < |s.records|
           && var r := s.table[id];
              if s.records[r].key != key then n == s.(calls := s.calls + [Call(id, key, DifferentArguments, r)])
              else n == At(s, c, Waiting(r, id, key))
         else
           var r := |s.records|;
           n == At(s, c, Starting(r)).(table := s.table[id := r],
                                       records := s.records + [Record(id, key, c, 0, false, false, Panicked)])
    case Invokes =>
      && PcOf(s, c).Starting? && PcOf(s, c).rec < |s.records|
      && var r := PcOf(s, c).rec;
         n == At(s, c, Running(r)).(records := s.records[r := s.records[r].(runs := s.records[r].runs + 1)])
    case Finishes(answer, kept) =>
      && PcOf(s, c).Running? && PcOf(s, c).rec < |s.records|
      && var r := PcOf(s, c).rec;
         var rec := s.records[r];
         var q := Settle(s, r, answer);
         && (if answer.Panicked? then kept == q.table else Evicts(q, rec.id, kept))
         && n == At(q, c, Idle).(table := kept, calls := s.calls + [Call(rec.id, rec.key, Answered(answer), r)])
    case WakesUp =>
      && PcOf(s, c).Waiting? && PcOf(s, c).rec < |s.records|
      && var w := PcOf(s, c);
         && s.records[w.rec].doneClosed
         && n == At(s, c, Idle).(calls := s.calls + [Call(w.id, w.key, Answered(s.records[w.rec].answer), w.rec)])
    case Cancels =>
      && PcOf(s, c).Waiting?
      && var w := PcOf(s, c);
         n == At(s, c, Idle).(calls := s.calls + [Call(w.id, w.key, Cancelled, w.rec)])
  }

  // ---- The invariant ----------------------------------------------------------------------

  predicate Owns(pc: Pc, r: RecId) { pc == Starting(r) || pc == Running(r) }

  /** A record is closed exactly when finished; until then it is in the table and its
      owner is at work on it; its function was called once, or not yet. */
  ghost predicate RecordOk(s: State, r: RecId)
    requires r < |s.records|
  {
    var rec := s.records[r];
    && rec.doneClosed == rec.finished
    && rec.runs == (if PcOf(s, rec.owner) == Starting(r) then 0 else 1)
    && (rec.finished <==> !Owns(PcOf(s, rec.owner), r))
    && (!rec.finished ==> rec.id in s.table && s.table[rec.id] == r)
  }

  ghost predicate CallerOk(s: State, c: Caller) {
    match PcOf(s, c)
    case Idle => true
    case Starting(r) => r < |s.records| && s.records[r].owner == c
    case Running(r) => r < |s.records| && s.records[r].owner == c
    case Waiting(r, id, key) => r < |s.records| && s.records[r].id == id && s.records[r].key == key
  }

  /** An answer that a caller received is the one its record's only run left; a call that
      was refused met a record of its operation with another key. */
  ghost predicate CallOk(s: State, k: Call) {
    && (k.result.Answered? ==>
          && k.rec < |s.records| && s.records[k.rec].finished && s.records[k.rec].answer == k.result.answer
          && s.records[k.rec].id == k.id && s.records[k.rec].key == k.key)
    && (k.result.DifferentArguments? ==>
          k.rec < |s.records| && s.records[k.rec].id == k.id && s.records[k.rec].key != k.key)
  }

  /** An operation gets a new record only after all its earlier ones have finished. */
  ghost predicate SerialOk(s: State, r: RecId, q: RecId)
    requires r < q < |s.records|
  {
    s.records[r].id == s.records[q].id ==> s.records[r].finished
  }

  ghost predicate TableOk(s: State, id: OpId) {
    id in s.table ==> s.table[id] < |s.records| && s.records[s.table[id]].id == id
  }

  ghost predicate Inv(s: State) {
    && (forall id :: TableOk(s, id))
    && (forall r :: 0 <= r < |s.records| ==> RecordOk(s, r))
    && (forall c :: CallerOk(s, c))
    && (forall i :: 0 <= i < |s.calls| ==> CallOk(s, s.calls[i]))
    && (forall r, q :: 0 <= r < q < |s.records| ==> SerialOk(s, r, q))
  }

  // ---- Every step keeps it ------------------------------------------------------------------

  /** What a step may do to records, callers and the log: enough to keep the invariant. */
  lemma StepParts(s: State, c: Caller, a: Action, n: State)
    requires Inv(s) && Next(s, c, a, n)
    ensures forall d :: d != c ==> PcOf(n, d) == PcOf(s, d)
    ensures |n.records| >= |s.records|
    ensures forall r :: 0 <= r < |s.records| && !Owns(PcOf(s, c), r) ==> n.records[r] == s.records[r]
    ensures forall r :: 0 <= r < |s.records| ==>
      && n.records[r].id == s.records[r].id && n.records[r].key == s.records[r].key
      && n.records[r].owner == s.records[r].owner
    ensures |n.calls| >= |s.calls| && n.calls[..|s.calls|] == s.calls
  {
    assert CallerOk(s, c);
  }

  lemma CallersKept(s: State, c: Caller, a: Action, n: State)
    requires Inv(s) && Next(s, c, a, n)
    ensures forall d :: CallerOk(n, d)
  {
    StepParts(s, c, a, n);
    assert CallerOk(s, c);
    if a.Begins? { assert TableOk(s, a.id); }
    forall d
      ensures CallerOk(n, d)
    {
      assert CallerOk(s, d);
    }
  }

  lemma RecordsKept(s: State, c: Caller, a: Action, n: State)
    requires Inv(s) && Next(s, c, a, n)
    ensures forall r :: 0 <= r < |n.records| ==> RecordOk(n, r)
  {
    StepParts(s, c, a, n);
    assert CallerOk(s, c);
    forall r | 0 <= r < |n.records|
      ensures RecordOk(n, r)
    {
      if r < |s.records| {
        assert RecordOk(s, r);
        if !n.records[r].finished { LiveStays(s, c, a, n, r); }
      }
    }
  }

  /** The record of a run that has not ended is never evicted or replaced. */
  lemma LiveStays(s: State, c: Caller, a: Action, n: State, r: RecId)
    requires Inv(s) && Next(s, c, a, n) && r < |s.records| && r < |n.records| && !s.records[r].finished
    requires a.Finishes? ==> r != PcOf(s, c).rec
    ensures s.records[r].id in n.table && n.table[s.records[r].id] == r
  {
    assert RecordOk(s, r) && CallerOk(s, c);
    if a.Finishes? && !a.answer.Panicked? {
      assert TableOk(s, s.records[r].id);
    }
  }

  lemma TableKept(s: State, c: Caller, a: Action, n: State)
    requires Inv(s) && Next(s, c, a, n)
    ensures forall id :: TableOk(n, id)
  {
    StepParts(s, c, a, n);
    forall id
      ensures TableOk(n, id)
    {
      assert TableOk(s, id);
    }
  }

  lemma CallsKept(s: State, c: Caller, a: Action, n: State)
    requires Inv(s) && Next(s, c, a, n)
    ensures forall i :: 0 <= i < |n.calls| ==> CallOk(n, n.calls[i])
  {
    StepParts(s, c, a, n);
    assert CallerOk(s, c);
    forall i | 0 <= i < |n.calls|
      ensures CallOk(n, n.calls[i])
    {
      if i < |s.calls| {
        assert n.calls[i] == s.calls[i] && CallOk(s, s.calls[i]);
        if s.calls[i].result.Answered? { assert RecordOk(s, s.calls[i].rec); }
      } else if a.WakesUp? {
        assert RecordOk(s, PcOf(s, c).rec);
      } else if a.Begins? {
        assert TableOk(s, a.id);
      }
    }
  }

  lemma SerialKept(s: State, c: Caller, a: Action, n: State)
    requires Inv(s) && Next(s, c, a, n)
    ensures forall r, q :: 0 <= r < q < |n.records| ==> SerialOk(n, r, q)
  {
    StepParts(s, c, a, n);
    assert CallerOk(s, c);
    forall r, q | 0 <= r < q < |n.records|
      ensures SerialOk(n, r, q)
    {
      assert RecordOk(s, r);
      if q < |s.records| { assert SerialOk(s, r, q); }
    }
  }

  ghost predicate Steps(s: State, n: State) {
    exists c, a :: Next(s, c, a, n)
  }

  ghost predicate IsRun(run: seq<State>) {
    run != [] && run[0] == INITIAL && forall i :: 0 <= i < |run| - 1 ==> Steps(run[i], run[i + 1])
  }

  lemma {:induction false} RunKeeps(run: seq<State>)
    requires IsRun(run)
    ensures Inv(run[|run| - 1])
  {
    if |run| <= 1 {
    } else {
      var k := |run| - 2;
      var front := run[..k + 1];
      assert forall i :: 0 <= i < |front| ==> front[i] == run[i];
      RunKeeps(front);
      assert Steps(run[k], run[k + 1]);
      hide Next, Inv;
      var c, a :| Next(run[k], c, a, run[k + 1]);
      StepKeeps(run[k], c, a, run[k + 1]);
    }
  }

  lemma StepKeeps(s: State, c: Caller, a: Action, n: State)
    requires Inv(s) && Next(s, c, a, n)
    ensures Inv(n)
  {
    hide Next, TableOk, RecordOk, CallerOk, CallOk, SerialOk;
    SerialKept(s, c, a, n);
    TableKept(s, c, a, n);
    RecordsKept(s, c, a, n);
    CallersKept(s, c, a, n);
    CallsKept(s, c, a, n);
  }

  // ---- What callers may rely on -----------------------------------------------------------------

  /** In every interleaving: a record's function is called at most once; at most one
      record of an operation is unfinished, and it is the one in the table; everyone
      answered from a record got the answer of its run, with the id and key they asked
      with; and a record's channel is closed exactly when it is finished. */
  lemma AtMostOnce(run: seq<State>)
    requires IsRun(run)
    ensures var s := run[|run| - 1];
      && (forall r :: 0 <= r < |s.records| ==>
            s.records[r].runs <= 1 && s.records[r].doneClosed == s.records[r].finished)
      && (forall r :: 0 <= r < |s.records| && !s.records[r].finished ==>
            s.records[r].id in s.table && s.table[s.records[r].id] == r)
      && (forall i :: 0 <= i < |s.calls| && s.calls[i].result.Answered? ==>
            var k := s.calls[i];
            && k.rec < |s.records| && s.records[k.rec].runs == 1
            && s.records[k.rec].id == k.id && s.records[k.rec].key == k.key
            && k.result == Answered(s.records[k.rec].answer))
  {
    RunKeeps(run);
    var s := run[|run| - 1];
    forall r | 0 <= r < |s.records|
      ensures s.records[r].runs <= 1 && s.records[r].doneClosed == s.records[r].finished
      ensures !s.records[r].finished ==> s.records[r].id in s.table && s.table[s.records[r].id] == r
      ensures s.records[r].finished ==> s.records[r].runs == 1
    {
      assert RecordOk(s, r);
    }
    forall i | 0 <= i < |s.calls|
      ensures CallOk(s, s.calls[i])
    {
    }
  }

  /** What waking up leaves: the record's answer handed to the caller. */
  function Served(s: State, c: Caller): State
    requires PcOf(s, c).Waiting? && PcOf(s, c).rec < |s.records|
  {
    var w := PcOf(s, c);
    At(s, c, Idle).(calls := s.calls + [Call(w.id, w.key, Answered(s.records[w.rec].answer), w.rec)])
  }

  /** Nobody waits on a channel that nobody will close: the record is finished, or its
      owner is still on the way to finishing it, panic included. */
  lemma WaitersAreServed(run: seq<State>, c: Caller) returns (d: Caller)
    requires IsRun(run) && PcOf(run[|run| - 1], c).Waiting?
    ensures var s := run[|run| - 1];
      var r := PcOf(s, c).rec;
      && r < |s.records|
      && if s.records[r].finished then d == c && Next(s, c, WakesUp, Served(s, c)) else Owns(PcOf(s, d), r)
  {
    RunKeeps(run);
    var s := run[|run| - 1];
    var r := PcOf(s, c).rec;
    assert CallerOk(s, c) && RecordOk(s, r);
    d := if s.records[r].finished then c else s.records[r].owner;
  }

  /** In every interleaving: a call refused for its arguments met a record of its operation
      with another key, so its own key never ran on that record; and an operation gets a
      second record only after the first has finished, so its runs never overlap. */
  lemma OtherArgumentsNeverRun(run: seq<State>)
    requires IsRun(run)
    ensures var s := run[|run| - 1];
      && (forall i :: 0 <= i < |s.calls| && s.calls[i].result.DifferentArguments? ==>
            var k := s.calls[i];
            k.rec < |s.records| && s.records[k.rec].id == k.id && s.records[k.rec].key != k.key)
      && (forall r, q :: 0 <= r < q < |s.records| && s.records[r].id == s.records[q].id ==> s.records[r].finished)
  {
    RunKeeps(run);
    var s := run[|run| - 1];
    forall i | 0 <= i < |s.calls|
      ensures CallOk(s, s.calls[i])
    {
    }
    forall r, q | 0 <= r < q < |s.records| && s.records[r].id == s.records[q].id
      ensures s.records[r].finished
    {
      assert SerialOk(s, r, q);
    }
  }

  /** After a normal completion the table is within its capacity, or every other record
      in it is unfinished; the completed operation itself is still there, and the table
      is never cut below its capacity. */
  lemma CompletionEvicts(s: State, c: Caller, answer: Answer, kept: map<OpId, RecId>, n: State)
    requires Inv(s) && Next(s, c, Finishes(answer, kept), n) && answer.Returned?
    ensures var mine := s.records[PcOf(s, c).rec].id;
      && mine in n.table && n.table[mine] == PcOf(s, c).rec
      && (|n.table| <= CAPACITY || forall id :: id in n.table && id != mine ==> !n.records[n.table[id]].finished)
      && (n.table != s.table ==> |n.table| >= CAPACITY)
  {
    var r := PcOf(s, c).rec;
    assert CallerOk(s, c) && RecordOk(s, r);
    var q := Settle(s, r, answer);
    var mine := s.records[r].id;
    assert mine in kept;
    forall id | id in kept
      ensures kept[id] < |q.records|
    {
      assert TableOk(s, id);
    }
  }

  // ---- The eviction loop ---------------------------------------------------------------------------

  /** The loop over the table, in whatever order Go walks it. */
  method Evict(s: State, mine: OpId) returns (kept: map<OpId, RecId>)
    requires forall id :: id in s.table ==> s.table[id] < |s.records|
    ensures Evicts(s, mine, kept)
  {
    kept := s.table;
    if |kept| <= CAPACITY {
      return;
    }
    var rest := s.table.Keys;
    while rest != {}
      invariant rest <= kept.Keys
      invariant forall id :: id in kept ==> id in s.table && kept[id] == s.table[id]
      invariant forall id :: id in s.table && id !in kept ==> Evictable(s, mine, id)
      invariant forall id :: id in kept && id !in rest ==> !Evictable(s, mine, id)
      invariant |kept| > CAPACITY
      decreases rest
    {
      var id :| id in rest;
      rest := rest - {id};
      if id != mine && s.records[s.table[id]].finished {
        assert kept.Keys == (kept - {id}).Keys + {id};
        kept := kept - {id};
        if |kept| <= CAPACITY {
          return;
        }
      }
    }
  }

  // ---- The session's fields ----------------------------------------------------------------------------

  /** The table and its records. Every method is what one caller does while it holds the
      mutex, and takes exactly the step of that kind. */
  class Session {
    var operations: map<OpId, RecId>
    var records: seq<Record>
    ghost var pc: map<Caller, Pc>
    ghost var calls: seq<Call>

    ghost function Value(): State
      reads this
    {
      State(operations, records, pc, calls)
    }

    ghost predicate Valid()
      reads this
    {
      Inv(Value())
    }

    constructor ()
      ensures Valid() && Value() == INITIAL
    {
      operations, records, pc, calls := map[], [], map[], [];
    }

    /** Joins the record of the operation, refuses other arguments, or makes a new record. */
    method Begin(c: Caller, id: OpId, key: Key)
      requires Valid() && PcOf(Value(), c) == Idle
      modifies this
      ensures Next(old(Value()), c, Begins(id, key), Value())
      ensures Valid()
    {
      hide Inv, RecordOk, CallerOk, CallOk;
      assert TableOk(Value(), id) by { IdInRange(Value(), id); }
      if id == "" || |id| > MAX_ID {
        calls := calls + [Call(id, key, BadId, 0)];
      } else if id in operations {
        var existing := operations[id];
        if records[existing].key != key {
          calls := calls + [Call(id, key, DifferentArguments, existing)];
        } else {
          pc := pc[c := Waiting(existing, id, key)];
        }
      } else {
        var record := Record(id, key, c, 0, false, false, Panicked);
        operations := operations[id := |records|];
        pc := pc[c := Starting(|records|)];
        records := records + [record];
      }
      StepKeeps(old(Value()), c, Begins(id, key), Value());
    }

    /** The function returned: leave the answer, wake the waiters, evict. */
    method Settled(c: Caller, record: RecId, answer: Answer)
      requires Valid() && PcOf(Value(), c) == Running(record) && answer.Returned?
      modifies this
      ensures Next(old(Value()), c, Finishes(answer, operations), Value())
      ensures Valid()
    {
      hide Inv, RecordOk, CallerOk, CallOk;
      IdsInRange(Value(), c);
      var mine := records[record];
      records := records[record := mine.(finished := true, doneClosed := true, answer := answer)];
      ghost var q := Settle(old(Value()), record, answer);
      var kept := Evict(State(operations, records, map[], []), mine.id);
      assert Evicts(q, mine.id, kept);
      operations := kept;
      pc := pc[c := Idle];
      calls := calls + [Call(mine.id, mine.key, Answered(answer), record)];
      StepKeeps(old(Value()), c, Finishes(answer, operations), Value());
    }

    /** The function panicked: leave an answer behind, evict nothing. */
    method GaveOut(c: Caller, record: RecId)
      requires Valid() && PcOf(Value(), c) == Running(record)
      modifies this
      ensures Next(old(Value()), c, Finishes(Panicked, operations), Value())
      ensures Valid()
    {
      hide Inv, RecordOk, CallerOk, CallOk;
      IdsInRange(Value(), c);
      var mine := records[record];
      records := records[record := mine.(finished := true, doneClosed := true, answer := Panicked)];
      pc := pc[c := Idle];
      calls := calls + [Call(mine.id, mine.key, Answered(Panicked), record)];
      StepKeeps(old(Value()), c, Finishes(Panicked, operations), Value());
    }
  }

  lemma IdInRange(s: State, id: OpId)
    requires Inv(s)
    ensures TableOk(s, id)
  {
  }

  lemma IdsInRange(s: State, c: Caller)
    requires Inv(s)
    ensures forall id :: id in s.table ==> s.table[id] < |s.records|
    ensures PcOf(s, c).Running? ==> PcOf(s, c).rec < |s.records|
  {
    assert CallerOk(s, c);
    forall id | id in s.table
      ensures s.table[id] < |s.records|
    {
      assert TableOk(s, id);
    }
  }
}
