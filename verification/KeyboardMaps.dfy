/**
 Keyboard-map inheritance: what a map means on its chain of parents, and the
 registry builder that computes it with a memo and a visiting set.
 */
module KeyboardMaps {
  import opened Bits
  import opened Options

  type Id = string
  type Rune = int

  datatype Stroke = Stroke(key: byte, modifiers: byte, suppress: bool)
  datatype State = Plain | Shift | AltGr

  datatype Rule = Rule(plain: Option<Stroke>, shift: Option<Stroke>, altGr: Option<Stroke>) {
    function On(state: State): Option<Stroke> {
      match state
      case Plain => plain
      case Shift => shift
      case AltGr => altGr
    }
  }

  datatype PhysicalRule = PhysicalRule(input: string, rule: Rule)
  datatype TextRule = TextRule(rune: Rune, strokes: seq<Stroke>)

  /** A parsed file with its strokes compiled. */
  datatype MapFile = MapFile(extendsId: Id, selectable: bool, physical: seq<PhysicalRule>, text: seq<TextRule>)

  datatype ResolvedMap = ResolvedMap(selectable: bool, physical: map<string, Rule>, text: map<Rune, seq<Stroke>>)

  type Files = map<Id, MapFile>

  // ---- One file over its parent --------------------------------------------------

  const NO_RULE := Rule(None, None, None)

  function Or<T>(a: Option<T>, b: Option<T>): Option<T> {
    if a.Some? then a else b
  }

  function RuleAt(m: map<string, Rule>, input: string): Rule {
    if input in m then m[input] else NO_RULE
  }

  function OverlayRule(base: Rule, rule: Rule): Rule {
    Rule(Or(rule.plain, base.plain), Or(rule.shift, base.shift), Or(rule.altGr, base.altGr))
  }

  function OverlayPhysical(base: map<string, Rule>, rules: seq<PhysicalRule>): map<string, Rule> {
    if rules == [] then base
    else
      var m, last := OverlayPhysical(base, rules[..|rules| - 1]), rules[|rules| - 1];
      m[last.input := OverlayRule(RuleAt(m, last.input), last.rule)]
  }

  function OverlayText(base: map<Rune, seq<Stroke>>, rules: seq<TextRule>): map<Rune, seq<Stroke>> {
    if rules == [] then base
    else OverlayText(base, rules[..|rules| - 1])[rules[|rules| - 1].rune := rules[|rules| - 1].strokes]
  }

  const EMPTY := ResolvedMap(false, map[], map[])

  function Overlay(file: MapFile, parent: ResolvedMap): ResolvedMap {
    ResolvedMap(file.selectable, OverlayPhysical(parent.physical, file.physical), OverlayText(parent.text, file.text))
  }

  // ---- Chains ----------------------------------------------------------------------

  /** From a map to a root: every map present, each extending the next, the last extending nothing. */
  ghost predicate IsChain(files: Files, path: seq<Id>) {
    && path != [] && path[0] in files
    && if |path| == 1 then files[path[0]].extendsId == ""
       else files[path[0]].extendsId == path[1] && path[1] != "" && IsChain(files, path[1..])
  }

  lemma {:induction false} ChainPresent(files: Files, path: seq<Id>)
    requires IsChain(files, path)
    ensures forall i :: 0 <= i < |path| ==> path[i] in files
  {
    if |path| <= 1 {
    } else {
      ChainPresent(files, path[1..]);
      assert forall i :: 1 <= i < |path| ==> path[i] == path[1..][i - 1];
    }
  }

  /** The extends chain of id is finite and every map on it is present. */
  ghost predicate Sound(files: Files, id: Id) {
    exists path :: IsChain(files, path) && path[0] == id
  }

  lemma {:induction false} ChainUnique(files: Files, p: seq<Id>, q: seq<Id>)
    requires IsChain(files, p) && IsChain(files, q) && p[0] == q[0]
    ensures p == q
  {
    if |p| > 1 {
      ChainUnique(files, p[1..], q[1..]);
      assert p == [p[0]] + p[1..] && q == [q[0]] + q[1..];
    } else {
      assert p == [p[0]] && q == [q[0]];
    }
  }

  /** A map is sound exactly when it is present and extends nothing or a sound map. */
  lemma SoundStep(files: Files, id: Id)
    ensures Sound(files, id) <==> id in files && (files[id].extendsId == "" || Sound(files, files[id].extendsId))
  {
    if Sound(files, id) {
      var p :| IsChain(files, p) && p[0] == id;
      if |p| > 1 { assert p[1..][0] == p[1]; }
    }
    if id in files && files[id].extendsId == "" {
      assert IsChain(files, [id]) && [id][0] == id;
    } else if id in files && Sound(files, files[id].extendsId) {
      var q :| IsChain(files, q) && q[0] == files[id].extendsId;
      assert ([id] + q)[1..] == q;
      assert IsChain(files, [id] + q) && ([id] + q)[0] == id;
    }
  }

  /** The overlay of a whole chain, root first. */
  function OverlayChain(files: Files, path: seq<Id>): ResolvedMap
    requires path != [] && forall i :: 0 <= i < |path| ==> path[i] in files
  {
    Overlay(files[path[0]], if |path| == 1 then EMPTY else OverlayChain(files, path[1..]))
  }

  ghost function ChainOf(files: Files, id: Id): (path: seq<Id>)
    requires Sound(files, id)
    ensures path != [] && IsChain(files, path) && path[0] == id && forall i :: 0 <= i < |path| ==> path[i] in files
  {
    var p :| IsChain(files, p) && p[0] == id;
    ChainPresent(files, p);
    p
  }

  /** What a map means: each map of its chain laid over the next. */
  ghost function Meaning(files: Files, id: Id): ResolvedMap
    requires Sound(files, id)
  {
    OverlayChain(files, ChainOf(files, id))
  }

  lemma MeaningStep(files: Files, id: Id)
    requires Sound(files, id)
    ensures id in files
    ensures files[id].extendsId != "" ==> Sound(files, files[id].extendsId)
    ensures Meaning(files, id)
      == Overlay(files[id], if files[id].extendsId == "" then EMPTY else Meaning(files, files[id].extendsId))
  {
    SoundStep(files, id);
    var p := ChainOf(files, id);
    if |p| > 1 {
      ChainUnique(files, p[1..], ChainOf(files, files[id].extendsId));
    }
  }

  // ---- What a key does: the nearest definition wins ---------------------------------

  /** The last rule of a file that defines a key in a state. */
  function OwnStroke(rules: seq<PhysicalRule>, input: string, state: State): Option<Stroke> {
    if rules == [] then None
    else if rules[|rules| - 1].input == input && rules[|rules| - 1].rule.On(state).Some?
      then rules[|rules| - 1].rule.On(state)
    else OwnStroke(rules[..|rules| - 1], input, state)
  }

  function OwnText(rules: seq<TextRule>, rune: Rune): Option<seq<Stroke>> {
    if rules == [] then None
    else if rules[|rules| - 1].rune == rune then Some(rules[|rules| - 1].strokes)
    else OwnText(rules[..|rules| - 1], rune)
  }

  /** The first map along the chain that defines the key in the state. */
  function NearestStroke(files: Files, path: seq<Id>, input: string, state: State): Option<Stroke>
    requires forall i :: 0 <= i < |path| ==> path[i] in files
  {
    if path == [] then None
    else Or(OwnStroke(files[path[0]].physical, input, state), NearestStroke(files, path[1..], input, state))
  }

  function NearestText(files: Files, path: seq<Id>, rune: Rune): Option<seq<Stroke>>
    requires forall i :: 0 <= i < |path| ==> path[i] in files
  {
    if path == [] then None
    else Or(OwnText(files[path[0]].text, rune), NearestText(files, path[1..], rune))
  }

  lemma {:induction false} OverlayPhysicalAt(base: map<string, Rule>, rules: seq<PhysicalRule>,
                                             input: string, state: State)
    ensures RuleAt(OverlayPhysical(base, rules), input).On(state)
      == Or(OwnStroke(rules, input, state), RuleAt(base, input).On(state))
  {
    if rules == [] {
    } else {
      OverlayPhysicalAt(base, rules[..|rules| - 1], input, state);
    }
  }

  function TextAt(m: map<Rune, seq<Stroke>>, rune: Rune): Option<seq<Stroke>> {
    if rune in m then Some(m[rune]) else None
  }

  lemma {:induction false} OverlayTextAt(base: map<Rune, seq<Stroke>>, rules: seq<TextRule>, rune: Rune)
    ensures TextAt(OverlayText(base, rules), rune) == Or(OwnText(rules, rune), TextAt(base, rune))
  {
    if rules == [] {
    } else {
      OverlayTextAt(base, rules[..|rules| - 1], rune);
    }
  }

  /** A resolved map answers every key in every state, and every character, with the
      nearest definition along its chain. */
  lemma {:induction false} NearestWins(files: Files, path: seq<Id>, input: string, state: State, rune: Rune)
    requires path != [] && forall i :: 0 <= i < |path| ==> path[i] in files
    ensures RuleAt(OverlayChain(files, path).physical, input).On(state) == NearestStroke(files, path, input, state)
    ensures TextAt(OverlayChain(files, path).text, rune) == NearestText(files, path, rune)
  {
    var parent := if |path| == 1 then EMPTY else OverlayChain(files, path[1..]);
    OverlayPhysicalAt(parent.physical, files[path[0]].physical, input, state);
    OverlayTextAt(parent.text, files[path[0]].text, rune);
    if |path| <= 1 {
    } else {
      NearestWins(files, path[1..], input, state, rune);
    }
  }

  // ---- The builder ---------------------------------------------------------------------

  datatype Resolution = Resolved(entry: ResolvedMap) | Invalid(blamed: Id)

  /** The maps being resolved, outermost first, each extending the next and the last extending id. */
  ghost predicate Leads(files: Files, stack: seq<Id>, id: Id) {
    stack == [] ||
    (&& stack[0] in files && files[stack[0]].extendsId != ""
     && files[stack[0]].extendsId == (if |stack| > 1 then stack[1] else id)
     && Leads(files, stack[1..], id))
  }

  lemma {:induction false} LeadsOn(files: Files, stack: seq<Id>, id: Id)
    requires Leads(files, stack, id) && id in files && files[id].extendsId != ""
    ensures Leads(files, stack + [id], files[id].extendsId)
  {
    var s := stack + [id];
    if stack != [] {
      LeadsOn(files, stack[1..], id);
      assert s[1..] == stack[1..] + [id];
    } else {
      assert s[1..] == [];
    }
  }

  lemma {:induction false} LeadsFrom(files: Files, stack: seq<Id>, id: Id, j: nat)
    requires Leads(files, stack, id) && j <= |stack|
    ensures Leads(files, stack[j..], id)
  {
    if j > 0 {
      LeadsFrom(files, stack[1..], id, j - 1);
      assert stack[1..][j - 1..] == stack[j..];
    } else {
      assert stack[0..] == stack;
    }
  }

  lemma {:induction false} ChainFollows(files: Files, stack: seq<Id>, id: Id, p: seq<Id>)
    requires Leads(files, stack, id) && IsChain(files, p) && p[0] == if stack == [] then id else stack[0]
    ensures |p| > |stack| && IsChain(files, p[|stack|..]) && p[|stack|] == id
  {
    if stack == [] {
      assert p[0..] == p;
    } else {
      ChainFollows(files, stack[1..], id, p[1..]);
      assert p[1..][|stack| - 1..] == p[|stack|..];
    }
  }

  /** A map that extends itself through others has no finite chain. */
  lemma CycleUnsound(files: Files, stack: seq<Id>, id: Id)
    requires Leads(files, stack, id) && id in stack
    ensures !Sound(files, id)
  {
    if Sound(files, id) {
      var j :| 0 <= j < |stack| && stack[j] == id;
      var p := ChainOf(files, id);
      LeadsFrom(files, stack, id, j);
      ChainFollows(files, stack[j..], id, p);
      ChainUnique(files, p, p[|stack| - j..]);
    }
  }

  class Builder {
    const files: Files
    var resolved: map<Id, ResolvedMap>
    var visiting: set<Id>

    constructor (files: Files)
      ensures this.files == files && resolved == map[] && visiting == {}
    {
      this.files, resolved, visiting := files, map[], {};
    }

    /** The memo holds only sound maps, each with its meaning. */
    ghost predicate Valid()
      reads this
    {
      forall id :: id in resolved ==> Sound(files, id) && resolved[id] == Meaning(files, id)
    }

    method Resolve(id: Id, ghost stack: seq<Id>) returns (r: Resolution)
      requires Valid() && Leads(files, stack, id)
      requires visiting <= files.Keys && forall x :: x in visiting <==> x in stack
      modifies this
      ensures Valid()
      ensures forall x :: x in old(resolved) ==> x in resolved
      ensures Sound(files, id) ==> r == Resolved(Meaning(files, id)) && id in resolved && visiting == old(visiting)
      ensures !Sound(files, id) ==> r == Invalid(id)
      decreases files.Keys - visiting
    {
      if id in resolved {
        return Resolved(resolved[id]);
      }
      SoundStep(files, id);
      if id !in files {
        return Invalid(id);
      }
      var file := files[id];
      if id in visiting {
        CycleUnsound(files, stack, id);
        return Invalid(id);
      }
      ghost var before := visiting;
      visiting := visiting + {id};
      var parent := EMPTY;
      if file.extendsId != "" {
        LeadsOn(files, stack, id);
        var up := Resolve(file.extendsId, stack + [id]);
        if up.Invalid? {
          visiting := visiting - {id};
          var blamed := up.blamed;
          if blamed == file.extendsId {
            blamed := id;
          }
          return Invalid(blamed);
        }
        parent := up.entry;
      }
      MeaningStep(files, id);
      var current := Overlay(file, parent);
      visiting := visiting - {id};
      assert visiting == before;
      resolved := resolved[id := current];
      return Resolved(current);
    }
  }

  datatype Registry = Built(maps: map<Id, ResolvedMap>) | BuildError(blamed: Id)

  /** Whatever order the ids are visited in: success exactly when every chain is sound,
      and then the registry is the meaning of every map; on failure the blamed id is
      the first visited whose own chain is unsound. */
  method BuildRegistry(files: Files, order: seq<Id>) returns (r: Registry)
    requires forall id :: id in files <==> id in order
    ensures r.Built? <==> forall id :: id in files ==> Sound(files, id)
    ensures r.Built? ==> r.maps.Keys == files.Keys && forall id :: id in files ==> r.maps[id] == Meaning(files, id)
    ensures r.BuildError? ==> exists k :: 0 <= k < |order| && order[k] == r.blamed && !Sound(files, r.blamed)
                                          && forall j :: 0 <= j < k ==> Sound(files, order[j])
  {
    var b := new Builder(files);
    for i := 0 to |order|
      invariant b.Valid() && b.visiting == {} && b.files == files
      invariant forall j :: 0 <= j < i ==> Sound(files, order[j]) && order[j] in b.resolved
    {
      var id := order[i];
      assert id in files;
      var res := b.Resolve(id, []);
      if res.Invalid? {
        var blamed := res.blamed;
        if blamed !in files {
          blamed := id;
        }
        return BuildError(blamed);
      }
    }
    forall id
      ensures id in b.resolved <==> id in files
    {
      if id in files { var k :| 0 <= k < |order| && order[k] == id; }
      if id in b.resolved { SoundStep(files, id); }
    }
    assert b.resolved.Keys == files.Keys;
    return Built(b.resolved);
  }

  // ---- Lookups --------------------------------------------------------------------------

  const LEFT_SHIFT: byte := 2

  /** No id at all means the base map. */
  function KeyFor(id: Id): Id { if id == "" then "us-base" else id }

  function MapFor(maps: map<Id, ResolvedMap>, id: Id): Option<ResolvedMap> {
    if KeyFor(id) in maps then Some(maps[KeyFor(id)]) else None
  }

  function Shifted(s: Stroke): Stroke {
    if s.suppress then s else s.(modifiers := Bits.Or(s.modifiers, LEFT_SHIFT) % 256)
  }

  function ResolvePhysical(maps: map<Id, ResolvedMap>, id: Id, input: string, state: State): Option<Stroke> {
    match MapFor(maps, id)
    case None => None
    case Some(entry) =>
      if input !in entry.physical then None
      else
        var rule := entry.physical[input];
        if state == Shift && rule.shift.None? && rule.plain.Some? then Some(Shifted(rule.plain.value))
        else rule.On(state)
  }

  /** A lookup in a built registry gives the nearest definition along the chain; a key
      without a shifted definition anywhere is its plain one with shift held; a map that
      is not there defines nothing. */
  lemma ResolvesNearest(files: Files, maps: map<Id, ResolvedMap>, id: Id, input: string, state: State)
    requires maps.Keys == files.Keys && forall k :: k in files ==> Sound(files, k) && maps[k] == Meaning(files, k)
    ensures ResolvePhysical(maps, id, input, state) ==
      if KeyFor(id) !in files then None
      else
        var path := ChainOf(files, KeyFor(id));
        var own := NearestStroke(files, path, input, state);
        var plain := NearestStroke(files, path, input, Plain);
        if state == Shift && own.None? && plain.Some? then Some(Shifted(plain.value)) else own
  {
    hide IsChain, Sound, NearestStroke, NearestText, OverlayChain;
    var key := KeyFor(id);
    if key in files {
      NearestWins(files, ChainOf(files, key), input, state, 0);
      NearestWins(files, ChainOf(files, key), input, Plain, 0);
    }
  }
}
