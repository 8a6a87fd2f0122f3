/**
 Activating external keyboard maps: the loop that drops one blamed external map per
 round until the registry builds. Which map is blamed depends on the order in which
 a Go map is walked, so a round may blame any unsound map.
 */
module KeyboardLoader {
  import opened KeyboardMaps

  /** The files in force while the externals `ext` are still trusted. */
  function InForce(builtIns: Files, externals: Files, ext: set<Id>): (f: Files)
    ensures forall id :: id in f <==> id in builtIns || (id in externals && id in ext)
    ensures forall id :: id in f ==> f[id] == if id in externals && id in ext then externals[id] else builtIns[id]
  {
    builtIns + map id | id in externals && id in ext :: externals[id]
  }

  ghost predicate AllSound(files: Files) {
    forall id :: id in files ==> Sound(files, id)
  }

  /** A round blames an unsound external map and distrusts it. */
  ghost predicate Blames(builtIns: Files, externals: Files, ext: set<Id>, id: Id) {
    id in ext && id in InForce(builtIns, externals, ext) && !Sound(InForce(builtIns, externals, ext), id)
  }

  /** The loop gives up when the map it blames is a built-in one. */
  ghost predicate GivesUp(builtIns: Files, externals: Files, ext: set<Id>) {
    exists id :: id in InForce(builtIns, externals, ext) && id !in ext && !Sound(InForce(builtIns, externals, ext), id)
  }

  function Without(ext: set<Id>, blamed: seq<Id>): set<Id> {
    if blamed == [] then ext else Without(ext, blamed[..|blamed| - 1]) - {blamed[|blamed| - 1]}
  }

  /** The maps blamed round by round, under some order of iteration in each round. */
  ghost predicate IsTrace(builtIns: Files, externals: Files, blamed: seq<Id>) {
    blamed == [] ||
    (IsTrace(builtIns, externals, blamed[..|blamed| - 1])
     && Blames(builtIns, externals, Without(externals.Keys, blamed[..|blamed| - 1]), blamed[|blamed| - 1]))
  }

  // ---- Chains survive other maps' removal -------------------------------------------

  lemma {:induction false} ChainMembersSound(files: Files, p: seq<Id>)
    requires IsChain(files, p)
    ensures forall i :: 0 <= i < |p| ==> Sound(files, p[i])
  {
    assert p[0] == p[0] && Sound(files, p[0]);
    if |p| <= 1 {
    } else {
      ChainMembersSound(files, p[1..]);
      assert forall i :: 1 <= i < |p| ==> p[i] == p[1..][i - 1];
    }
  }

  /** Files that agree along a chain have the chain in common, with the same overlay. */
  lemma {:induction false} ChainCarriesOver(f: Files, g: Files, p: seq<Id>)
    requires forall i :: 0 <= i < |p| ==> p[i] in f
    requires IsChain(f, p) && forall i :: 0 <= i < |p| ==> p[i] in g && f[p[i]] == g[p[i]]
    ensures IsChain(g, p) && OverlayChain(f, p) == OverlayChain(g, p)
  {
    if |p| <= 1 {
    } else {
      assert forall i :: 0 <= i < |p| - 1 ==> p[1..][i] == p[i + 1];
      ChainCarriesOver(f, g, p[1..]);
    }
  }

  /** No chain passes through its first map again. */
  lemma ChainHeadOnce(files: Files, p: seq<Id>, i: nat)
    requires IsChain(files, p) && 0 < i < |p|
    ensures p[i] != p[0]
  {
    ChainSuffix(files, p, i);
    if p[i] == p[0] { ChainUnique(files, p, p[i..]); }
  }

  lemma {:induction false} ChainSuffix(files: Files, p: seq<Id>, i: nat)
    requires IsChain(files, p) && i < |p|
    ensures IsChain(files, p[i..])
  {
    if i > 0 {
      ChainSuffix(files, p[1..], i - 1);
      assert p[1..][i - 1..] == p[i..];
    } else {
      assert p[0..] == p;
    }
  }

  /** Distrusting an unsound map leaves every sound map sound, with the same meaning. */
  lemma SoundSurvives(builtIns: Files, externals: Files, ext: set<Id>, blamed: Id, id: Id)
    requires Blames(builtIns, externals, ext, blamed) && Sound(InForce(builtIns, externals, ext), id)
    ensures var f, g := InForce(builtIns, externals, ext), InForce(builtIns, externals, ext - {blamed});
      Sound(g, id) && Meaning(g, id) == Meaning(f, id)
  {
    var f, g := InForce(builtIns, externals, ext), InForce(builtIns, externals, ext - {blamed});
    var p := ChainOf(f, id);
    ChainMembersSound(f, p);
    forall i | 0 <= i < |p|
      ensures p[i] in g && f[p[i]] == g[p[i]]
    {
      assert Sound(f, p[i]) && p[i] != blamed && p[i] in f;
    }
    ChainCarriesOver(f, g, p);
    assert Sound(g, id);
    ChainUnique(g, p, ChainOf(g, id));
  }

  /** An external map whose whole chain is sound at the start is never dropped, and
      keeps its meaning, whatever the orders of iteration. */
  lemma {:induction false} SoundNeverDropped(builtIns: Files, externals: Files, blamed: seq<Id>, id: Id)
    requires IsTrace(builtIns, externals, blamed) && Sound(InForce(builtIns, externals, externals.Keys), id)
    ensures var f := InForce(builtIns, externals, Without(externals.Keys, blamed));
      && Sound(f, id) && Meaning(f, id) == Meaning(InForce(builtIns, externals, externals.Keys), id)
      && id !in blamed
  {
    if blamed == [] {
    } else {
      var front, last := blamed[..|blamed| - 1], blamed[|blamed| - 1];
      SoundNeverDropped(builtIns, externals, front, id);
      SoundSurvives(builtIns, externals, Without(externals.Keys, front), last, id);
      assert blamed == front + [last];
    }
  }

  // ---- When the loop can give up ------------------------------------------------------

  /** Every built-in map is sound, as overridden or else with only its own override undone. */
  ghost predicate BuiltInsStand(builtIns: Files, externals: Files, ext: set<Id>) {
    var f := InForce(builtIns, externals, ext);
    forall b :: b in builtIns ==> Sound(f, b) || (b in ext && Sound(f[b := builtIns[b]], b))
  }

  /** Undoing b's override stays good when another unsound map is distrusted. */
  lemma UndoneSurvives(builtIns: Files, externals: Files, ext: set<Id>, blamed: Id, b: Id)
    requires Blames(builtIns, externals, ext, blamed) && b in builtIns && b in ext && b != blamed
    requires Sound(InForce(builtIns, externals, ext)[b := builtIns[b]], b)
    ensures Sound(InForce(builtIns, externals, ext - {blamed})[b := builtIns[b]], b)
  {
    hide IsChain, Sound;
    var f, g := InForce(builtIns, externals, ext), InForce(builtIns, externals, ext - {blamed});
    var u, v := f[b := builtIns[b]], g[b := builtIns[b]];
    var p := ChainOf(u, b);
    ChainNext(u, p);
    assert p[0] == b && b in v && v[b] == u[b];
    if |p| > 1 {
      var q := p[1..];
      forall i | 0 <= i < |q|
        ensures q[i] != b && q[i] in f && u[q[i]] == f[q[i]]
      {
        ChainHeadOnce(u, p, i + 1);
        assert q[i] == p[i + 1] && p[i + 1] in u;
      }
      ChainCarriesOver(u, f, q);
      ChainMembersSound(f, q);
      forall i | 0 <= i < |q|
        ensures q[i] in v && f[q[i]] == v[q[i]]
      {
        assert q[i] != blamed && q[i] != b;
      }
      ChainCarriesOver(f, v, q);
      ChainMembersSound(v, q);
      assert q[0] == p[1];
    }
    SoundStep(v, b);
  }

  /** The rest of a chain is the chain of what its first map extends. */
  lemma ChainNext(files: Files, p: seq<Id>)
    requires IsChain(files, p)
    ensures p != [] && p[0] in files
    ensures if |p| == 1 then files[p[0]].extendsId == "" else files[p[0]].extendsId == p[1] && IsChain(files, p[1..])
  {
  }

  lemma StandSurvives(builtIns: Files, externals: Files, ext: set<Id>, blamed: Id, b: Id)
    requires Blames(builtIns, externals, ext, blamed) && b in builtIns
    requires var f := InForce(builtIns, externals, ext);
      Sound(f, b) || (b in ext && Sound(f[b := builtIns[b]], b))
    ensures var g := InForce(builtIns, externals, ext - {blamed});
      Sound(g, b) || (b in ext - {blamed} && Sound(g[b := builtIns[b]], b))
  {
    hide IsChain, Sound;
    var f, g := InForce(builtIns, externals, ext), InForce(builtIns, externals, ext - {blamed});
    if Sound(f, b) {
      SoundSurvives(builtIns, externals, ext, blamed, b);
    } else if b == blamed {
      assert g == f[b := builtIns[b]];
    } else {
      UndoneSurvives(builtIns, externals, ext, blamed, b);
    }
  }

  lemma {:induction false} StandAlways(builtIns: Files, externals: Files, blamed: seq<Id>)
    requires IsTrace(builtIns, externals, blamed) && BuiltInsStand(builtIns, externals, externals.Keys)
    ensures BuiltInsStand(builtIns, externals, Without(externals.Keys, blamed))
  {
    if blamed == [] {
    } else {
      var front, last := blamed[..|blamed| - 1], blamed[|blamed| - 1];
      StandAlways(builtIns, externals, front);
      forall b | b in builtIns
        ensures var g := InForce(builtIns, externals, Without(externals.Keys, blamed));
          Sound(g, b) || (b in Without(externals.Keys, blamed) && Sound(g[b := builtIns[b]], b))
      {
        StandSurvives(builtIns, externals, Without(externals.Keys, front), last, b);
      }
    }
  }

  /** Some orders of iteration lead through these blames to giving up. */
  ghost predicate LeadsToGivingUp(builtIns: Files, externals: Files, blamed: seq<Id>) {
    IsTrace(builtIns, externals, blamed) && GivesUp(builtIns, externals, Without(externals.Keys, blamed))
  }

  lemma TraceExtends(builtIns: Files, externals: Files, blamed: seq<Id>, id: Id)
    requires IsTrace(builtIns, externals, blamed) && Blames(builtIns, externals, Without(externals.Keys, blamed), id)
    ensures IsTrace(builtIns, externals, blamed + [id])
    ensures Without(externals.Keys, blamed + [id]) == Without(externals.Keys, blamed) - {id}
  {
    var next := blamed + [id];
    assert next[..|next| - 1] == blamed;
  }

  /** Distrusting a map restores the built-in one of that name or removes it. */
  lemma InForceNext(builtIns: Files, externals: Files, ext: set<Id>, id: Id)
    requires id in ext && ext <= externals.Keys
    ensures InForce(builtIns, externals, ext - {id}) ==
      var f := InForce(builtIns, externals, ext);
      if id in builtIns then f[id := builtIns[id]] else f - {id}
  {
  }

  /** Some orders of iteration make the loop give up, discarding every external map,
      if and only if some built-in map does not stand on its own. */
  lemma GivesUpIffBuiltInFalls(builtIns: Files, externals: Files)
    ensures (exists blamed :: LeadsToGivingUp(builtIns, externals, blamed))
      <==> !BuiltInsStand(builtIns, externals, externals.Keys)
  {
    if BuiltInsStand(builtIns, externals, externals.Keys) {
      forall blamed
        ensures !LeadsToGivingUp(builtIns, externals, blamed)
      {
        if IsTrace(builtIns, externals, blamed) { NeverGivesUp(builtIns, externals, blamed); }
      }
    } else {
      var all := externals.Keys;
      var f := InForce(builtIns, externals, all);
      var b :| b in builtIns && !Sound(f, b) && (b in all ==> !Sound(f[b := builtIns[b]], b));
      if b !in all {
        assert LeadsToGivingUp(builtIns, externals, []);
      } else {
        TraceExtends(builtIns, externals, [], b);
        InForceNext(builtIns, externals, all, b);
        assert [] + [b] == [b];
        assert LeadsToGivingUp(builtIns, externals, [b]);
      }
    }
  }

  lemma NeverGivesUp(builtIns: Files, externals: Files, blamed: seq<Id>)
    requires BuiltInsStand(builtIns, externals, externals.Keys) && IsTrace(builtIns, externals, blamed)
    ensures !GivesUp(builtIns, externals, Without(externals.Keys, blamed))
  {
    StandAlways(builtIns, externals, blamed);
  }

  /** The shape of the maps the program ships: each extends nothing or us-base, and
      us-base cannot be overridden. */
  ghost predicate Shipped(builtIns: Files, externals: Files) {
    && "us-base" in builtIns && builtIns["us-base"].extendsId == "" && "us-base" !in externals
    && forall b :: b in builtIns ==> builtIns[b].extendsId in {"", "us-base"}
  }

  /** A built-in map that is not overridden is sound, whatever else is there. */
  lemma BuiltInSound(builtIns: Files, externals: Files, files: Files, b: Id)
    requires Shipped(builtIns, externals) && b in builtIns && b in files && files[b] == builtIns[b]
    requires "us-base" in files && files["us-base"] == builtIns["us-base"]
    ensures Sound(files, b)
  {
    hide IsChain;
    SoundStep(files, "us-base");
    SoundStep(files, b);
  }

  /** Such maps stand on their own. */
  lemma ShippedMapsStand(builtIns: Files, externals: Files)
    requires Shipped(builtIns, externals)
    ensures BuiltInsStand(builtIns, externals, externals.Keys)
  {
    var f := InForce(builtIns, externals, externals.Keys);
    forall b | b in builtIns
      ensures Sound(f, b) || (b in externals.Keys && Sound(f[b := builtIns[b]], b))
    {
      BuiltInSound(builtIns, externals, f[b := builtIns[b]], b);
      assert b !in externals ==> f[b := builtIns[b]] == f;
    }
  }

  // ---- When the order of iteration matters ----------------------------------------------

  /** A run of the loop that ends in a registry. */
  ghost predicate Complete(builtIns: Files, externals: Files, blamed: seq<Id>) {
    IsTrace(builtIns, externals, blamed) && AllSound(InForce(builtIns, externals, Without(externals.Keys, blamed)))
  }

  function Start(builtIns: Files, externals: Files): Files { InForce(builtIns, externals, externals.Keys) }

  /** An override of a built-in map, other than e, that is unsound at the start. */
  ghost predicate BadOverride(builtIns: Files, externals: Files, e: Id, id: Id) {
    id in builtIns && id in externals && id != e && !Sound(Start(builtIns, externals), id)
  }

  /** The files at the start with all those overrides undone. */
  ghost function Undone(builtIns: Files, externals: Files, e: Id): (f: Files)
    ensures f.Keys == Start(builtIns, externals).Keys
  {
    map id | id in Start(builtIns, externals) ::
      if BadOverride(builtIns, externals, e, id) then builtIns[id] else Start(builtIns, externals)[id]
  }

  /** Unsound as it stands, but sound once every other unsound override is undone. */
  ghost predicate Rescuable(builtIns: Files, externals: Files, e: Id) {
    e in externals && !Sound(Start(builtIns, externals), e) && Sound(Undone(builtIns, externals, e), e)
  }

  lemma {:induction false} WithoutMember(ext: set<Id>, blamed: seq<Id>, id: Id)
    ensures id in Without(ext, blamed) <==> id in ext && id !in blamed
  {
    if blamed == [] {
    } else {
      var front := blamed[..|blamed| - 1];
      WithoutMember(ext, front, id);
      assert blamed == front + [blamed[|blamed| - 1]];
    }
  }

  /** Every run can be carried on to a registry, and keeps what is sound on the way. */
  lemma Completes(builtIns: Files, externals: Files, blamed: seq<Id>) returns (all: seq<Id>)
    requires Shipped(builtIns, externals) && IsTrace(builtIns, externals, blamed)
    ensures Complete(builtIns, externals, all)
    ensures Without(externals.Keys, all) <= Without(externals.Keys, blamed)
    ensures var ext := Without(externals.Keys, blamed);
      forall id :: id in ext && Sound(InForce(builtIns, externals, ext), id) ==> id in Without(externals.Keys, all)
    decreases Without(externals.Keys, blamed)
  {
    hide IsTrace, IsChain, BuiltInsStand;
    var ext := Without(externals.Keys, blamed);
    var f := InForce(builtIns, externals, ext);
    if AllSound(f) {
      return blamed;
    }
    var id :| id in f && !Sound(f, id);
    ShippedMapsStand(builtIns, externals);
    NeverGivesUp(builtIns, externals, blamed);
    TraceExtends(builtIns, externals, blamed, id);
    all := Completes(builtIns, externals, blamed + [id]);
    forall x | x in ext && Sound(f, x)
      ensures x in Without(externals.Keys, all)
    {
      SoundSurvives(builtIns, externals, ext, id, x);
    }
  }

  /** Only overrides other than e were blamed. */
  ghost predicate OnlyOverrides(builtIns: Files, externals: Files, blamed: seq<Id>, e: Id) {
    forall id :: id in externals && (id !in builtIns || id == e) ==> id in Without(externals.Keys, blamed)
  }

  /** Blaming unsound overrides other than e until none is left. */
  lemma OverridesFirst(builtIns: Files, externals: Files, blamed: seq<Id>, e: Id) returns (all: seq<Id>)
    requires IsTrace(builtIns, externals, blamed) && OnlyOverrides(builtIns, externals, blamed, e)
    ensures IsTrace(builtIns, externals, all) && OnlyOverrides(builtIns, externals, all, e)
    ensures forall b :: b in builtIns && b in Without(externals.Keys, all) && b != e ==>
      Sound(InForce(builtIns, externals, Without(externals.Keys, all)), b)
    decreases Without(externals.Keys, blamed)
  {
    hide IsTrace, IsChain;
    var ext := Without(externals.Keys, blamed);
    var f := InForce(builtIns, externals, ext);
    if b :| b in builtIns && b in ext && b != e && !Sound(f, b) {
      TraceExtends(builtIns, externals, blamed, b);
      all := OverridesFirst(builtIns, externals, blamed + [b], e);
    } else {
      all := blamed;
    }
  }

  /** From then on whatever is sound with all of them undone is sound. */
  lemma {:induction false} UndoneFollows(builtIns: Files, externals: Files, blamed: seq<Id>, e: Id, q: seq<Id>)
    requires Shipped(builtIns, externals) && OnlyOverrides(builtIns, externals, blamed, e)
    requires forall b :: b in builtIns && b in Without(externals.Keys, blamed) && b != e ==>
      Sound(InForce(builtIns, externals, Without(externals.Keys, blamed)), b)
    requires IsChain(Undone(builtIns, externals, e), q) && Without(externals.Keys, blamed) <= externals.Keys
    requires forall i :: 0 < i < |q| ==> q[i] != e
    requires q[0] == e ==> e in externals
    ensures Sound(InForce(builtIns, externals, Without(externals.Keys, blamed)), q[0])
    decreases |q|
  {
    hide OnlyOverrides;
    var id, ext := q[0], Without(externals.Keys, blamed);
    var g := InForce(builtIns, externals, ext);
    KeepsOthers(builtIns, externals, blamed, e, id);
    if |q| <= 1 {
    } else {
      UndoneFollows(builtIns, externals, blamed, e, q[1..]);
    }
    hide IsChain;
    if id !in ext {
      BuiltInSound(builtIns, externals, g, id);
    } else if id !in builtIns || id == e {
      SoundStep(g, id);
    }
  }

  lemma KeepsOthers(builtIns: Files, externals: Files, blamed: seq<Id>, e: Id, id: Id)
    requires OnlyOverrides(builtIns, externals, blamed, e)
    ensures id in externals && (id !in builtIns || id == e) ==> id in Without(externals.Keys, blamed)
  {
  }

  /** A map that a run keeps to the end is sound with all other unsound overrides undone. */
  lemma {:induction false} KeptFollows(builtIns: Files, externals: Files, blamed: seq<Id>, e: Id, q: seq<Id>)
    requires Shipped(builtIns, externals) && IsTrace(builtIns, externals, blamed)
    requires IsChain(InForce(builtIns, externals, Without(externals.Keys, blamed)), q)
    requires e in Without(externals.Keys, blamed) && forall i :: 0 < i < |q| ==> q[i] != e
    ensures Sound(Undone(builtIns, externals, e), q[0])
    decreases |q|
  {
    hide IsTrace;
    var id, ext, u := q[0], Without(externals.Keys, blamed), Undone(builtIns, externals, e);
    if |q| <= 1 {
    } else {
      KeptFollows(builtIns, externals, blamed, e, q[1..]);
    }
    hide IsChain;
    WithoutMember(externals.Keys, blamed, id);
    if BadOverride(builtIns, externals, e, id) {
      BuiltInSound(builtIns, externals, u, id);
    } else {
      if id in externals && id !in ext {
        if Sound(Start(builtIns, externals), id) { SoundNeverDropped(builtIns, externals, blamed, id); }
      }
      assert u[id] == InForce(builtIns, externals, ext)[id];
      SoundStep(u, id);
    }
  }

  /** The fate of an external map: some order of iteration keeps it if and only if it is
      sound at the start or once every other unsound override of a built-in map is
      undone, and some order drops it if and only if it is unsound at the start. */
  lemma Fate(builtIns: Files, externals: Files, e: Id)
    requires Shipped(builtIns, externals) && e in externals
    ensures (exists blamed :: Complete(builtIns, externals, blamed) && e in Without(externals.Keys, blamed))
      <==> Sound(Start(builtIns, externals), e) || Rescuable(builtIns, externals, e)
    ensures (exists blamed :: Complete(builtIns, externals, blamed) && e !in Without(externals.Keys, blamed))
      <==> !Sound(Start(builtIns, externals), e)
  {
    hide IsTrace, IsChain;
    var f := Start(builtIns, externals);
    NoBlame(builtIns, externals);
    if Sound(f, e) {
      var all := Completes(builtIns, externals, []);
      assert e in Without(externals.Keys, all);
      forall blamed | Complete(builtIns, externals, blamed)
        ensures e in Without(externals.Keys, blamed)
      {
        SoundNeverDropped(builtIns, externals, blamed, e);
        WithoutMember(externals.Keys, blamed, e);
      }
    } else {
      TraceExtends(builtIns, externals, [], e);
      var dropped := Completes(builtIns, externals, [] + [e]);
      assert e !in Without(externals.Keys, dropped);
      if Rescuable(builtIns, externals, e) {
        var kept := Rescued(builtIns, externals, e);
        assert e in Without(externals.Keys, kept);
      }
      forall blamed | Complete(builtIns, externals, blamed) && e in Without(externals.Keys, blamed)
        ensures Rescuable(builtIns, externals, e)
      {
        KeptIsRescuable(builtIns, externals, blamed, e);
      }
    }
  }

  /** Undoing the other unsound overrides first saves a rescuable map. */
  lemma Rescued(builtIns: Files, externals: Files, e: Id) returns (all: seq<Id>)
    requires Shipped(builtIns, externals) && Rescuable(builtIns, externals, e)
    ensures Complete(builtIns, externals, all) && e in Without(externals.Keys, all)
  {
    hide IsTrace, IsChain, Sound;
    NoBlame(builtIns, externals);
    var first := OverridesFirst(builtIns, externals, [], e);
    var p := ChainOf(Undone(builtIns, externals, e), e);
    forall i | 0 < i < |p|
      ensures p[i] != e
    {
      ChainHeadOnce(Undone(builtIns, externals, e), p, i);
    }
    forall id | id in Without(externals.Keys, first)
      ensures id in externals.Keys
    {
      WithoutMember(externals.Keys, first, id);
    }
    UndoneFollows(builtIns, externals, first, e, p);
    all := Completes(builtIns, externals, first);
  }

  lemma KeptIsRescuable(builtIns: Files, externals: Files, blamed: seq<Id>, e: Id)
    requires Shipped(builtIns, externals) && Complete(builtIns, externals, blamed)
    requires e in externals && e in Without(externals.Keys, blamed) && !Sound(Start(builtIns, externals), e)
    ensures Rescuable(builtIns, externals, e)
  {
    hide IsTrace, IsChain, Sound;
    var g := InForce(builtIns, externals, Without(externals.Keys, blamed));
    assert e in g && Sound(g, e);
    var p := ChainOf(g, e);
    forall i | 0 < i < |p|
      ensures p[i] != e
    {
      ChainHeadOnce(g, p, i);
    }
    KeptFollows(builtIns, externals, blamed, e, p);
  }

  /** Which external maps survive is the same for all orders of iteration if and only if
      no external map is unsound at the start yet sound once every other unsound override
      of a built-in map is undone. */
  lemma OrderIrrelevantIff(builtIns: Files, externals: Files)
    requires Shipped(builtIns, externals)
    ensures (forall p, q :: Complete(builtIns, externals, p) && Complete(builtIns, externals, q)
               ==> Without(externals.Keys, p) == Without(externals.Keys, q))
      <==> forall e :: !Rescuable(builtIns, externals, e)
  {
    hide IsTrace, IsChain, Complete, Sound, Rescuable;
    if e :| Rescuable(builtIns, externals, e) {
      assert e in externals && !Sound(Start(builtIns, externals), e) by { RescuableParts(builtIns, externals, e); }
      Fate(builtIns, externals, e);
    } else {
      forall p, q | Complete(builtIns, externals, p) && Complete(builtIns, externals, q)
        ensures Without(externals.Keys, p) == Without(externals.Keys, q)
      {
        forall e
          ensures e in Without(externals.Keys, p) <==> e in Without(externals.Keys, q)
        {
          WithoutMember(externals.Keys, p, e);
          WithoutMember(externals.Keys, q, e);
          if e in externals { Fate(builtIns, externals, e); }
        }
      }
    }
  }

  lemma RescuableParts(builtIns: Files, externals: Files, e: Id)
    requires Rescuable(builtIns, externals, e)
    ensures e in externals && !Sound(Start(builtIns, externals), e)
  {
  }

  // The maps the program ships, a broken override of one, and an external map that extends it.
  const BASE := MapFile("", false, [], [])
  const DERIVED := MapFile("us-base", true, [], [])
  const BROKEN := MapFile("missing", true, [], [])
  const CHILD := MapFile("german", true, [], [])
  const SHIPPED: Files := map["us-base" := BASE, "german" := DERIVED]
  const ADDED: Files := map["german" := BROKEN, "child" := CHILD]

  lemma ChildUnsound()
    ensures !Sound(Start(SHIPPED, ADDED), "german") && !Sound(Start(SHIPPED, ADDED), "child")
  {
    hide IsChain, Sound;
    var f := Start(SHIPPED, ADDED);
    SoundStep(f, "missing");
    SoundStep(f, "german");
    SoundStep(f, "child");
  }

  lemma ChildRescuable()
    ensures Shipped(SHIPPED, ADDED) && Rescuable(SHIPPED, ADDED, "child")
  {
    hide IsChain, Sound;
    var u := Undone(SHIPPED, ADDED, "child");
    ChildUnsound();
    SoundStep(u, "us-base");
    SoundStep(u, "german");
    SoundStep(u, "child");
  }

  /** So the order of iteration does matter for some files: with a broken override of the
      shipped German map and a map that extends it, some orders keep the second map and
      some lose it. */
  lemma OrderMatters()
    ensures exists p, q ::
      && Complete(SHIPPED, ADDED, p) && Complete(SHIPPED, ADDED, q)
      && "child" in Without(ADDED.Keys, p) && "child" !in Without(ADDED.Keys, q)
  {
    hide IsTrace, IsChain, Sound, Complete;
    ChildRescuable();
    Fate(SHIPPED, ADDED, "child");
  }

  // ---- The loop ---------------------------------------------------------------------------

  /** Some order of a set, as a Go map iteration may produce it. */
  method AnyOrder(s: set<Id>) returns (order: seq<Id>)
    ensures forall id :: id in s <==> id in order
  {
    order := [];
    var rest := s;
    while rest != {}
      invariant forall id :: id in s <==> id in rest || id in order
      decreases rest
    {
      var id :| id in rest;
      rest := rest - {id};
      order := order + [id];
    }
  }

  /** Builds the registry, dropping one blamed external map per round. It ends because
      every round trusts one map fewer. The registry always has every built-in map;
      unless the loop gave up it has the meaning of every map still in force, and those
      include every external map that was sound at the start. */
  method Activate(builtIns: Files, externals: Files)
    returns (maps: map<Id, ResolvedMap>, gaveUp: bool, ghost blamed: seq<Id>)
    requires AllSound(builtIns)
    ensures builtIns.Keys <= maps.Keys
    ensures IsTrace(builtIns, externals, blamed)
    ensures var f := InForce(builtIns, externals, Without(externals.Keys, blamed));
      if gaveUp
      then GivesUp(builtIns, externals, Without(externals.Keys, blamed))
           && maps.Keys == builtIns.Keys && forall id :: id in builtIns ==> maps[id] == Meaning(builtIns, id)
      else AllSound(f) && maps.Keys == f.Keys && forall id :: id in f ==> maps[id] == Meaning(f, id)
    ensures !gaveUp ==> forall id :: Sound(InForce(builtIns, externals, externals.Keys), id) ==>
      id in maps && maps[id] == Meaning(InForce(builtIns, externals, externals.Keys), id)
    ensures BuiltInsStand(builtIns, externals, externals.Keys) ==> !gaveUp
  {
    hide IsTrace, IsChain, Without, BuiltInsStand;
    var files := InForce(builtIns, externals, externals.Keys);
    var externalIDs := externals.Keys;
    blamed := [];
    NoBlame(builtIns, externals);
    while true
      invariant IsTrace(builtIns, externals, blamed) && externalIDs == Without(externals.Keys, blamed)
      invariant files == InForce(builtIns, externals, externalIDs) && externalIDs <= externals.Keys
      decreases externalIDs
    {
      var order := AnyOrder(files.Keys);
      var r := BuildRegistry(files, order);
      if r.Built? {
        SoundKept(builtIns, externals, blamed);
        return r.maps, false, blamed;
      }
      var problem := r.blamed;
      assert problem in files && !Sound(files, problem);
      if problem !in externalIDs {
        maps := Fallback(builtIns);
        FallsBack(builtIns, externals, blamed);
        return maps, true, blamed;
      }
      TraceExtends(builtIns, externals, blamed, problem);
      InForceNext(builtIns, externals, externalIDs, problem);
      externalIDs := externalIDs - {problem};
      if problem in builtIns {
        files := files[problem := builtIns[problem]];
      } else {
        files := files - {problem};
      }
      blamed := blamed + [problem];
    }
  }

  /** The registry of the built-in maps alone. */
  method Fallback(builtIns: Files) returns (maps: map<Id, ResolvedMap>)
    requires AllSound(builtIns)
    ensures maps.Keys == builtIns.Keys && forall id :: id in builtIns ==> maps[id] == Meaning(builtIns, id)
  {
    hide IsChain, Meaning;
    var order := AnyOrder(builtIns.Keys);
    var r := BuildRegistry(builtIns, order);
    maps := r.maps;
  }

  lemma NoBlame(builtIns: Files, externals: Files)
    ensures IsTrace(builtIns, externals, []) && Without(externals.Keys, []) == externals.Keys
  {
  }

  lemma FallsBack(builtIns: Files, externals: Files, blamed: seq<Id>)
    requires IsTrace(builtIns, externals, blamed) && GivesUp(builtIns, externals, Without(externals.Keys, blamed))
    ensures !BuiltInsStand(builtIns, externals, externals.Keys)
  {
    assert LeadsToGivingUp(builtIns, externals, blamed);
    GivesUpIffBuiltInFalls(builtIns, externals);
  }

  lemma SoundKept(builtIns: Files, externals: Files, blamed: seq<Id>)
    requires IsTrace(builtIns, externals, blamed)
    ensures var f := InForce(builtIns, externals, Without(externals.Keys, blamed));
      forall id :: Sound(InForce(builtIns, externals, externals.Keys), id) ==>
        id in f && Sound(f, id) && Meaning(f, id) == Meaning(InForce(builtIns, externals, externals.Keys), id)
  {
    forall id | Sound(InForce(builtIns, externals, externals.Keys), id)
      ensures var f := InForce(builtIns, externals, Without(externals.Keys, blamed));
        id in f && Sound(f, id) && Meaning(f, id) == Meaning(InForce(builtIns, externals, externals.Keys), id)
    {
      SoundNeverDropped(builtIns, externals, blamed, id);
      SoundStep(InForce(builtIns, externals, Without(externals.Keys, blamed)), id);
    }
  }
}
