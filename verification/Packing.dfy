/** How src/font/nerd_font_codegen.py packs the codepoints of the original symbol fonts into the Nerd Font. */
module Packing {
  import opened Basics

  /** Part of a symbol font: its range of codepoints there, where they go, and what is known of its glyphs. */
  datatype PatchSet<A> = PatchSet(
    name: string,
    exact: bool,
    symStart: nat,
    symEnd: nat,
    srcStart: Option<nat>,
    patchCmap: Option<set<nat>>,
    attributes: map<nat, A>,
    default: A,
    scaleGroups: seq<seq<nat>>)
  {
    /** The consistency the loop asserts. A start of 0 counts as none. */
    predicate Legal() {
      if exact then srcStart.None? else srcStart.Some? && srcStart.value != 0 && patchCmap.Some?
    }

    predicate InRange(cp: nat) { symStart <= cp <= symEnd }

    /** Codepoints without a glyph are passed over, unless the font's map is missing or empty. */
    predicate Present(cp: nat) {
      InRange(cp) && (patchCmap == None || patchCmap == Some({}) || cp in patchCmap.value)
    }

    /** How many codepoints come before this one. */
    function Rank(cp: nat): nat {
      if cp <= symStart then 0 else Rank(cp - 1) + if Present(cp - 1) then 1 else 0
    }

    /** Where a codepoint goes: to itself, or to its place in the packed range. */
    function Target(cp: nat): nat {
      if exact then cp else (if srcStart.Some? then srcStart.value else 0) + Rank(cp)
    }

    function Attribute(cp: nat): A {
      if cp in attributes then attributes[cp] else default
    }
  }

  datatype Error = NotLegal(index: nat) | MissingCodepoint(target: nat) | Overlap(target: nat)

  type Tables = map<string, map<nat, nat>>

  function Find(tables: Tables, name: string, cp: nat): Option<nat> {
    if name in tables && cp in tables[name] then Some(tables[name][cp]) else None
  }

  // ----- Packed ranges -----

  lemma {:induction false} RankGrows<A>(s: PatchSet<A>, a: nat, b: nat)
    requires a <= b
    ensures s.Rank(a) <= s.Rank(b)
    ensures a < b && s.Present(a) ==> s.Rank(a) < s.Rank(b)
    decreases b
  {
    if a < b { RankGrows(s, a, b - 1); }
  }

  /** Different codepoints of a patch set go to different places, in the same order. */
  lemma TargetsIncrease<A>(s: PatchSet<A>, a: nat, b: nat)
    requires a < b && s.Present(a) && s.Present(b)
    ensures s.Target(a) < s.Target(b)
  {
    RankGrows(s, a, b);
  }

  lemma {:induction false} RankIsTaken<A>(s: PatchSet<A>, end: nat, rank: nat) returns (cp: nat)
    requires rank < s.Rank(end)
    ensures cp < end && s.Present(cp) && s.Rank(cp) == rank
    decreases end
  {
    if s.Present(end - 1) && s.Rank(end - 1) == rank { cp := end - 1; }
    else { cp := RankIsTaken(s, end - 1, rank); }
  }

  /** A patch set that is not exact fills a range of the Nerd Font from its start on, without gaps. */
  lemma TargetsAreContiguous<A>(s: PatchSet<A>, target: nat)
    requires !s.exact && s.srcStart.Some?
    ensures s.srcStart.value <= target < s.srcStart.value + s.Rank(s.symEnd + 1) <==>
            exists cp :: s.Present(cp) && s.Target(cp) == target
  {
    if s.srcStart.value <= target < s.srcStart.value + s.Rank(s.symEnd + 1) {
      var cp := RankIsTaken(s, s.symEnd + 1, target - s.srcStart.value);
      assert s.Target(cp) == target;
    }
    if exists cp :: s.Present(cp) && s.Target(cp) == target {
      var cp :| s.Present(cp) && s.Target(cp) == target;
      RankGrows(s, cp, s.symEnd + 1);
    }
  }

  // ----- Codepoints and targets in plain words -----

  /** A codepoint of the range that the font's map has, or any if there is no map or nothing in it. */
  ghost predicate HasGlyph<A>(s: PatchSet<A>, cp: nat) {
    && s.symStart <= cp && cp <= s.symEnd
    && (s.patchCmap.Some? && |s.patchCmap.value| > 0 ==> cp in s.patchCmap.value)
  }

  /** An exact set says nothing of where it starts, the others start somewhere and know their map. */
  ghost predicate IsConsistent<A>(s: PatchSet<A>) {
    && (s.exact ==> s.srcStart.None?)
    && (!s.exact ==> s.srcStart.Some? && s.srcStart.value > 0 && s.patchCmap.Some?)
  }

  /** Itself, or as far from the start as there are codepoints with a glyph before it. */
  ghost function Place<A>(s: PatchSet<A>, cp: nat): nat
    requires IsConsistent(s)
  {
    if s.exact then cp else s.srcStart.value + |GlyphsBefore(s, cp)|
  }

  ghost function GlyphsBefore<A>(s: PatchSet<A>, cp: nat): set<nat> {
    set c: nat | c < cp && HasGlyph(s, c)
  }

  lemma GlyphIsPresent<A>(s: PatchSet<A>, cp: nat)
    ensures s.Present(cp) <==> HasGlyph(s, cp)
    ensures s.Legal() <==> IsConsistent(s)
  {
    if s.patchCmap.Some? && |s.patchCmap.value| == 0 { assert s.patchCmap.value == {}; }
  }

  lemma {:induction false} RankCountsGlyphs<A>(s: PatchSet<A>, cp: nat)
    ensures s.Rank(cp) == |GlyphsBefore(s, cp)|
    decreases cp
  {
    if cp <= s.symStart {
      assert GlyphsBefore(s, cp) == {};
    } else {
      RankCountsGlyphs(s, cp - 1);
      GlyphIsPresent(s, cp - 1);
      assert GlyphsBefore(s, cp) == GlyphsBefore(s, cp - 1) + if HasGlyph(s, cp - 1) then {cp - 1} else {};
    }
  }

  lemma PlaceIsTarget<A>(s: PatchSet<A>, cp: nat)
    requires IsConsistent(s)
    ensures s.Target(cp) == Place(s, cp)
  {
    RankCountsGlyphs(s, cp);
  }

  /** Patch set i is the last of its name with a glyph for the codepoint. */
  ghost predicate Decides<A>(sets: seq<PatchSet<A>>, i: nat, name: string, cp: nat) {
    && i < |sets| && sets[i].name == name && HasGlyph(sets[i], cp)
    && forall k :: i < k < |sets| && sets[k].name == name ==> !HasGlyph(sets[k], cp)
  }

  /** The tables have just the codepoints with a glyph, under the name of their set, each with its place in the last
      set that decides it. */
  ghost predicate AreTables<A>(sets: seq<PatchSet<A>>, tables: Tables) {
    && (forall i :: 0 <= i < |sets| ==> IsConsistent(sets[i]))
    && (forall name: string, cp: nat :: name in tables && cp in tables[name] ==>
          exists i: nat :: Decides(sets, i, name, cp) && tables[name][cp] == Place(sets[i], cp))
    && (forall i: nat, name: string, cp: nat :: Decides(sets, i, name, cp) ==>
          name in tables && cp in tables[name] && tables[name][cp] == Place(sets[i], cp))
  }

  /** Every set is consistent, and every codepoint with a glyph has a place that the Nerd Font has and no other gets. */
  ghost predicate CanBePacked<A>(sets: seq<PatchSet<A>>, cmap: set<nat>) {
    && (forall i :: 0 <= i < |sets| ==> IsConsistent(sets[i]))
    && (forall i: nat, c: nat :: i < |sets| && HasGlyph(sets[i], c) ==> Place(sets[i], c) in cmap)
    && (forall i: nat, c: nat, j: nat, d: nat ::
          i < |sets| && HasGlyph(sets[i], c) && j < |sets| && HasGlyph(sets[j], d) && (i != j || c != d) ==>
          Place(sets[i], c) != Place(sets[j], d))
  }

  /** A codepoint with a glyph, of a consistent set, and its place. */
  ghost predicate HasPlace<A>(sets: seq<PatchSet<A>>, i: nat, cp: nat, target: nat) {
    i < |sets| && IsConsistent(sets[i]) && HasGlyph(sets[i], cp) && Place(sets[i], cp) == target
  }

  /** What an error says: a set is not consistent, a place is not in the font, or two codepoints share one. */
  ghost predicate IsWrong<A>(sets: seq<PatchSet<A>>, cmap: set<nat>, error: Error) {
    match error
    case NotLegal(i) => i < |sets| && !IsConsistent(sets[i])
    case MissingCodepoint(target) => target !in cmap && exists i: nat, cp: nat :: HasPlace(sets, i, cp, target)
    case Overlap(target) =>
      target in cmap && exists i: nat, cp: nat, j: nat, c: nat ::
        HasPlace(sets, i, cp, target) && HasPlace(sets, j, c, target) && (i != j || cp != c)
  }

  // ----- All assignments, in order -----

  /** The codepoint c of patch set j is assigned before the codepoint cp of patch set i is. */
  ghost predicate Before<A>(sets: seq<PatchSet<A>>, i: nat, cp: nat, j: nat, c: nat) {
    j < |sets| && sets[j].Present(c) && (j < i || (j == i && c < cp))
  }

  ghost predicate Taken<A>(sets: seq<PatchSet<A>>, i: nat, cp: nat, target: nat) {
    exists j: nat, c: nat :: Before(sets, i, cp, j, c) && sets[j].Target(c) == target
  }

  /** An assignment is allowed if the Nerd Font has the codepoint and nobody else got it. */
  ghost predicate Allowed<A>(sets: seq<PatchSet<A>>, cmap: set<nat>, j: nat, c: nat)
    requires j < |sets|
  {
    sets[j].Target(c) in cmap && !Taken(sets, j, c, sets[j].Target(c))
  }

  ghost predicate AllowedBefore<A>(sets: seq<PatchSet<A>>, cmap: set<nat>, i: nat, cp: nat) {
    forall j: nat, c: nat :: Before(sets, i, cp, j, c) ==> Allowed(sets, cmap, j, c)
  }

  ghost predicate LegalUpTo<A>(sets: seq<PatchSet<A>>, i: nat)
    requires i <= |sets|
  {
    forall j :: 0 <= j < i ==> sets[j].Legal()
  }

  /** What an outcome says of the patch sets. The cases exclude each other. */
  ghost predicate Explains<A>(sets: seq<PatchSet<A>>, cmap: set<nat>, r: Result<Tables, Error>) {
    match r
    case Ok(tables) =>
      LegalUpTo(sets, |sets|) && AllowedBefore(sets, cmap, |sets|, 0)
    case Err(NotLegal(i)) =>
      i < |sets| && LegalUpTo(sets, i) && AllowedBefore(sets, cmap, i, 0) && !sets[i].Legal()
    case Err(MissingCodepoint(target)) =>
      exists i: nat, cp: nat :: Reached(sets, cmap, i, cp) && sets[i].Target(cp) == target && target !in cmap
    case Err(Overlap(target)) =>
      exists i: nat, cp: nat :: Reached(sets, cmap, i, cp) && sets[i].Target(cp) == target && target in cmap
                                && Taken(sets, i, cp, target)
  }

  ghost predicate Reached<A>(sets: seq<PatchSet<A>>, cmap: set<nat>, i: nat, cp: nat) {
    i < |sets| && sets[i].Present(cp) && LegalUpTo(sets, i + 1) && AllowedBefore(sets, cmap, i, cp)
  }

  /** The last patch set of that name decides. */
  ghost function Latest<A>(sets: seq<PatchSet<A>>, i: nat, name: string, cp: nat): Option<nat>
    requires i <= |sets|
  {
    if i == 0 then None
    else if sets[i - 1].name == name && sets[i - 1].Present(cp) then Some(sets[i - 1].Target(cp))
    else Latest(sets, i - 1, name, cp)
  }

  /** The tables halfway through patch set i. */
  ghost predicate Holds<A>(sets: seq<PatchSet<A>>, i: nat, cp: nat, tables: Tables)
    requires i < |sets|
  {
    forall name: string, c: nat {:trigger Find(tables, name, c)} :: Find(tables, name, c) ==
      if name == sets[i].name && sets[i].Present(c) && c < cp then Some(sets[i].Target(c)) else Latest(sets, i, name, c)
  }

  ghost predicate HoldsLatest<A>(sets: seq<PatchSet<A>>, i: nat, tables: Tables)
    requires i <= |sets|
  {
    forall name: string, c: nat {:trigger Find(tables, name, c)} :: Find(tables, name, c) == Latest(sets, i, name, c)
  }

  ghost predicate IsUsed<A>(sets: seq<PatchSet<A>>, i: nat, cp: nat, used: set<nat>) {
    forall target: nat {:trigger target in used} :: target in used <==> Taken(sets, i, cp, target)
  }

  ghost function StartOf<A>(sets: seq<PatchSet<A>>, i: nat): nat {
    if i < |sets| then sets[i].symStart else 0
  }

  lemma NobodyBefore<A>(sets: seq<PatchSet<A>>, cmap: set<nat>)
    ensures IsUsed(sets, 0, StartOf(sets, 0), {}) && AllowedBefore(sets, cmap, 0, StartOf(sets, 0))
  {}

  /** A codepoint without a glyph is not assigned. */
  lemma PassedOver<A>(sets: seq<PatchSet<A>>, cmap: set<nat>, i: nat, cp: nat, used: set<nat>)
    requires i < |sets| && !sets[i].Present(cp)
    requires IsUsed(sets, i, cp, used) && AllowedBefore(sets, cmap, i, cp)
    ensures IsUsed(sets, i, cp + 1, used) && AllowedBefore(sets, cmap, i, cp + 1)
  {
    hide Allowed;
    assert forall j: nat, c: nat :: Before(sets, i, cp + 1, j, c) <==> Before(sets, i, cp, j, c);
  }

  lemma Assigned<A>(sets: seq<PatchSet<A>>, cmap: set<nat>, i: nat, cp: nat, used: set<nat>)
    requires i < |sets| && sets[i].Present(cp)
    requires IsUsed(sets, i, cp, used) && AllowedBefore(sets, cmap, i, cp)
    requires sets[i].Target(cp) in cmap && sets[i].Target(cp) !in used
    ensures IsUsed(sets, i, cp + 1, used + {sets[i].Target(cp)}) && AllowedBefore(sets, cmap, i, cp + 1)
  {
    assert forall j: nat, c: nat :: Before(sets, i, cp + 1, j, c) <==> Before(sets, i, cp, j, c) || (j == i && c == cp);
    assert Allowed(sets, cmap, i, cp);
    assert AllowedBefore(sets, cmap, i, cp + 1) by { hide Allowed; }
    forall target: nat
      ensures Taken(sets, i, cp + 1, target) <==> Taken(sets, i, cp, target) || target == sets[i].Target(cp)
    {
      assert Before(sets, i, cp + 1, i, cp);
    }
  }

  /** Past the last codepoint of a patch set the next one starts. */
  lemma NextSet<A>(sets: seq<PatchSet<A>>, cmap: set<nat>, i: nat, cp: nat, used: set<nat>)
    requires i < |sets| && cp > sets[i].symEnd && cp >= sets[i].symStart
    requires IsUsed(sets, i, cp, used) && AllowedBefore(sets, cmap, i, cp)
    ensures IsUsed(sets, i + 1, StartOf(sets, i + 1), used) && AllowedBefore(sets, cmap, i + 1, StartOf(sets, i + 1))
  {
    hide Allowed;
    var next := StartOf(sets, i + 1);
    assert forall j: nat, c: nat :: Before(sets, i + 1, next, j, c) <==> Before(sets, i, cp, j, c);
  }

  lemma HoldsOneMore<A>(sets: seq<PatchSet<A>>, i: nat, cp: nat, tables: Tables)
    requires i < |sets| && Holds(sets, i, cp, tables)
    ensures !sets[i].Present(cp) ==> Holds(sets, i, cp + 1, tables)
    ensures sets[i].Present(cp) && sets[i].name in tables ==>
      Holds(sets, i, cp + 1, tables[sets[i].name := tables[sets[i].name][cp := sets[i].Target(cp)]])
  {
    if sets[i].Present(cp) && sets[i].name in tables {
      var tables' := tables[sets[i].name := tables[sets[i].name][cp := sets[i].Target(cp)]];
      forall name: string, c: nat
        ensures Find(tables', name, c) ==
          if name == sets[i].name && c == cp then Some(sets[i].Target(cp)) else Find(tables, name, c)
      {}
    }
  }

  lemma HoldsNext<A>(sets: seq<PatchSet<A>>, i: nat, cp: nat, tables: Tables)
    requires i < |sets| && cp > sets[i].symEnd && Holds(sets, i, cp, tables)
    ensures HoldsLatest(sets, i + 1, tables)
  {}

  lemma HoldsStart<A>(sets: seq<PatchSet<A>>, i: nat, tables: Tables)
    requires i < |sets| && HoldsLatest(sets, i, tables)
    ensures Holds(sets, i, sets[i].symStart, tables)
    ensures sets[i].name !in tables ==> Holds(sets, i, sets[i].symStart, tables[sets[i].name := map[]])
  {
    var tables' := tables[sets[i].name := map[]];
    assert sets[i].name !in tables ==> forall name, c :: Find(tables', name, c) == Find(tables, name, c);
  }

  lemma LegalStart<A>(sets: seq<PatchSet<A>>, i: nat)
    requires i < |sets| && LegalUpTo(sets, i + 1)
    ensures !sets[i].exact ==>
      && sets[i].srcStart.Some? && sets[i].srcStart.value >= 1
      && sets[i].srcStart.value == sets[i].Target(sets[i].symStart)
  {
    assert sets[i].Legal();
  }

  lemma TargetStep<A>(s: PatchSet<A>, cp: nat)
    requires s.symStart <= cp
    ensures s.exact ==> s.Target(cp) == cp
    ensures !s.exact ==> s.Target(cp + 1) == s.Target(cp) + if s.Present(cp) then 1 else 0
    ensures cp > s.symEnd ==> !s.Present(cp)
  {}

  lemma Refused<A>(sets: seq<PatchSet<A>>, cmap: set<nat>, i: nat, cp: nat, used: set<nat>)
    requires i < |sets| && sets[i].Present(cp) && LegalUpTo(sets, i + 1)
    requires IsUsed(sets, i, cp, used) && AllowedBefore(sets, cmap, i, cp)
    ensures sets[i].Target(cp) !in cmap ==> Explains(sets, cmap, Err(MissingCodepoint(sets[i].Target(cp))))
    ensures sets[i].Target(cp) in cmap && sets[i].Target(cp) in used ==>
      Explains(sets, cmap, Err(Overlap(sets[i].Target(cp))))
  {
    hide Allowed, Taken, AllowedBefore;
    assert Reached(sets, cmap, i, cp);
  }

  /** The codepoints of one patch set. */
  method PackSet<A>(sets: seq<PatchSet<A>>, i: nat, cmap: set<nat>, tables: Tables, used: set<nat>)
    returns (r: Result<Tables, Error>, used': set<nat>)
    requires i < |sets| && LegalUpTo(sets, i + 1)
    requires IsUsed(sets, i, sets[i].symStart, used) && AllowedBefore(sets, cmap, i, sets[i].symStart)
    requires sets[i].name in tables && Holds(sets, i, sets[i].symStart, tables)
    ensures r.Err? ==> !r.error.NotLegal? && Explains(sets, cmap, r)
    ensures r.Ok? ==>
      && HoldsLatest(sets, i + 1, r.value) && tables.Keys <= r.value.Keys
      && IsUsed(sets, i + 1, StartOf(sets, i + 1), used') && AllowedBefore(sets, cmap, i + 1, StartOf(sets, i + 1))
  {
    hide *;
    var s := sets[i];
    var result: Tables := tables;
    used' := used;
    var cp: nat := s.symStart;
    LegalStart(sets, i);
    var cpNerdfont: nat := if s.exact then 0 else s.srcStart.value - 1;
    while cp < s.symEnd + 1
      invariant s.symStart <= cp && (cp <= s.symEnd + 1 || cp == s.symStart)
      invariant IsUsed(sets, i, cp, used') && AllowedBefore(sets, cmap, i, cp)
      invariant s.name in result && tables.Keys <= result.Keys && Holds(sets, i, cp, result)
      invariant !s.exact ==> cpNerdfont + 1 == s.Target(cp)
    {
      HoldsOneMore(sets, i, cp, result);
      TargetStep(s, cp);
      if !s.Present(cp) {
        PassedOver(sets, cmap, i, cp, used');
        cp := cp + 1;
        continue;
      }
      cpNerdfont := if !s.exact then cpNerdfont + 1 else cp;
      assert cpNerdfont == s.Target(cp);
      if cpNerdfont !in cmap {
        Refused(sets, cmap, i, cp, used');
        r := Err(MissingCodepoint(cpNerdfont));
        return;
      } else if cpNerdfont in used' {
        Refused(sets, cmap, i, cp, used');
        r := Err(Overlap(cpNerdfont));
        return;
      }
      Assigned(sets, cmap, i, cp, used');
      var table: map<nat, nat> := result[s.name][cp := cpNerdfont];
      result := result[s.name := table];
      used' := used' + {cpNerdfont};
      cp := cp + 1;
    }
    HoldsNext(sets, i, cp, result);
    NextSet(sets, cmap, i, cp, used');
    r := Ok(result);
  }

  // ----- All patch sets -----

  /** The tables, or why there are none. */
  method GenerateCodepointTables<A>(sets: seq<PatchSet<A>>, cmap: set<nat>) returns (r: Result<Tables, Error>)
    ensures Explains(sets, cmap, r)
    ensures r.Ok? ==> HoldsLatest(sets, |sets|, r.value) && Named(sets, |sets|, r.value)
    ensures r.Ok? <==> CanBePacked(sets, cmap)
    ensures r.Ok? ==> AreTables(sets, r.value)
    ensures r.Err? ==> IsWrong(sets, cmap, r.error)
  {
    forall e: Result<Tables, Error> | Explains(sets, cmap, e)
      ensures e.Ok? <==> CanBePacked(sets, cmap)
      ensures e.Err? ==> IsWrong(sets, cmap, e.error)
    {
      SucceedsWhenPackable(sets, cmap, e);
      PackableCanBePacked(sets, cmap);
      if e.Err? { ExplainedIsWrong(sets, cmap, e.error); }
    }
    hide Explains, Holds, HoldsLatest, IsUsed, AllowedBefore, Latest, CanBePacked, AreTables, IsWrong;
    var tables: Tables := map[];
    var used: set<nat> := {};
    var i := 0;
    NobodyBefore(sets, cmap);
    HoldsNothing(sets);
    while i < |sets|
      invariant 0 <= i <= |sets|
      invariant LegalUpTo(sets, i)
      invariant IsUsed(sets, i, StartOf(sets, i), used) && AllowedBefore(sets, cmap, i, StartOf(sets, i))
      invariant HoldsLatest(sets, i, tables) && Named(sets, i, tables)
    {
      if !sets[i].Legal() {
        IsNotLegal(sets, cmap, i);
        return Err(NotLegal(i));
      }
      HoldsStart(sets, i, tables);
      if sets[i].name !in tables { tables := tables[sets[i].name := map[]]; }
      var packed, used' := PackSet(sets, i, cmap, tables, used);
      if packed.Err? { return packed; }
      tables, used := packed.value, used';
      i := i + 1;
    }
    IsPacked(sets, cmap, tables);
    LatestAreTables(sets, cmap, tables);
    return Ok(tables);
  }

  ghost predicate Named<A>(sets: seq<PatchSet<A>>, i: nat, tables: Tables)
    requires i <= |sets|
  {
    forall j :: 0 <= j < i ==> sets[j].name in tables
  }

  lemma HoldsNothing<A>(sets: seq<PatchSet<A>>)
    ensures HoldsLatest(sets, 0, map[])
  {}

  lemma IsNotLegal<A>(sets: seq<PatchSet<A>>, cmap: set<nat>, i: nat)
    requires i < |sets| && LegalUpTo(sets, i) && !sets[i].Legal()
    requires AllowedBefore(sets, cmap, i, sets[i].symStart)
    ensures Explains(sets, cmap, Err(NotLegal(i)))
  {
    hide Allowed;
    assert forall j: nat, c: nat :: Before(sets, i, 0, j, c) ==> Before(sets, i, sets[i].symStart, j, c);
  }

  lemma IsPacked<A>(sets: seq<PatchSet<A>>, cmap: set<nat>, tables: Tables)
    requires LegalUpTo(sets, |sets|) && AllowedBefore(sets, cmap, |sets|, 0)
    ensures Explains(sets, cmap, Ok(tables))
  {}

  // ----- When packing succeeds, and what it promises -----

  ghost predicate Exists<A>(sets: seq<PatchSet<A>>, i: nat, cp: nat) {
    i < |sets| && sets[i].Present(cp)
  }

  /** Every codepoint has somewhere of its own to go. */
  ghost predicate Packable<A>(sets: seq<PatchSet<A>>, cmap: set<nat>) {
    && (forall i :: 0 <= i < |sets| ==> sets[i].Legal())
    && (forall i: nat, c: nat :: Exists(sets, i, c) ==> sets[i].Target(c) in cmap)
    && (forall i: nat, c: nat, j: nat, d: nat :: Exists(sets, i, c) && Exists(sets, j, d) && (i != j || c != d) ==>
          sets[i].Target(c) != sets[j].Target(d))
  }

  /** Packing succeeds exactly when it can. */
  lemma SucceedsWhenPackable<A>(sets: seq<PatchSet<A>>, cmap: set<nat>, r: Result<Tables, Error>)
    requires Explains(sets, cmap, r)
    ensures r.Ok? <==> Packable(sets, cmap)
  {
    if r.Ok? { AllowedIsPackable(sets, cmap); }
    if Packable(sets, cmap) { PackableIsAllowed(sets, cmap, r); }
  }

  lemma AllowedIsPackable<A>(sets: seq<PatchSet<A>>, cmap: set<nat>)
    requires LegalUpTo(sets, |sets|) && AllowedBefore(sets, cmap, |sets|, 0)
    ensures Packable(sets, cmap)
  {
    forall i: nat, c: nat, j: nat, d: nat | Exists(sets, i, c) && Exists(sets, j, d) && (i != j || c != d)
      ensures sets[i].Target(c) != sets[j].Target(d)
    {
      assert Before(sets, |sets|, 0, i, c) && Before(sets, |sets|, 0, j, d);
      assert Allowed(sets, cmap, i, c) && Allowed(sets, cmap, j, d);
      assert Before(sets, i, c, j, d) || Before(sets, j, d, i, c);
    }
    forall i: nat, c: nat | Exists(sets, i, c) ensures sets[i].Target(c) in cmap {
      assert Before(sets, |sets|, 0, i, c);
    }
  }

  lemma PackableIsAllowed<A>(sets: seq<PatchSet<A>>, cmap: set<nat>, r: Result<Tables, Error>)
    requires Packable(sets, cmap) && Explains(sets, cmap, r)
    ensures r.Ok?
  {
    match r
    case Ok(_) =>
    case Err(NotLegal(i)) =>
    case Err(MissingCodepoint(target)) =>
      var i: nat, cp: nat :| Reached(sets, cmap, i, cp) && sets[i].Target(cp) == target && target !in cmap;
      assert Exists(sets, i, cp);
    case Err(Overlap(target)) =>
      var i: nat, cp: nat :| Reached(sets, cmap, i, cp) && sets[i].Target(cp) == target && Taken(sets, i, cp, target);
      var j: nat, c: nat :| Before(sets, i, cp, j, c) && sets[j].Target(c) == target;
      assert Exists(sets, i, cp) && Exists(sets, j, c);
  }

  lemma {:induction false} LatestIsAssigned<A>(sets: seq<PatchSet<A>>, i: nat, name: string, cp: nat)
    returns (j: nat)
    requires i <= |sets| && Latest(sets, i, name, cp).Some?
    ensures j < i && sets[j].name == name && Exists(sets, j, cp)
    ensures Latest(sets, i, name, cp).value == sets[j].Target(cp)
    ensures forall k :: j < k < i && sets[k].name == name ==> !Exists(sets, k, cp)
  {
    if sets[i - 1].name == name && sets[i - 1].Present(cp) { j := i - 1; }
    else { j := LatestIsAssigned(sets, i - 1, name, cp); }
  }

  lemma {:induction false} AssignedHasLatest<A>(sets: seq<PatchSet<A>>, i: nat, j: nat, cp: nat)
    requires j < i <= |sets| && Exists(sets, j, cp)
    ensures Latest(sets, i, sets[j].name, cp).Some?
  {
    if j < i - 1 { AssignedHasLatest(sets, i - 1, j, cp); }
  }

  /** No codepoint of the Nerd Font stands for two codepoints of the original fonts. */
  lemma TablesAreInjective<A>(sets: seq<PatchSet<A>>, cmap: set<nat>, tables: Tables,
                              name: string, cp: nat, name': string, cp': nat)
    requires Packable(sets, cmap) && HoldsLatest(sets, |sets|, tables)
    requires Find(tables, name, cp).Some? && Find(tables, name, cp) == Find(tables, name', cp')
    ensures name == name' && cp == cp'
    ensures Find(tables, name, cp).value in cmap
  {
    assert Find(tables, name, cp) == Latest(sets, |sets|, name, cp);
    assert Find(tables, name', cp') == Latest(sets, |sets|, name', cp');
    var j := LatestIsAssigned(sets, |sets|, name, cp);
    var j' := LatestIsAssigned(sets, |sets|, name', cp');
    assert j == j' && cp == cp';
  }

  // ----- The same in plain words -----

  lemma PackableCanBePacked<A>(sets: seq<PatchSet<A>>, cmap: set<nat>)
    ensures Packable(sets, cmap) <==> CanBePacked(sets, cmap)
  {
    assert forall s: PatchSet<A>, cp: nat :: s.Present(cp) <==> HasGlyph(s, cp) by {
      forall s: PatchSet<A>, cp: nat ensures s.Present(cp) <==> HasGlyph(s, cp) { GlyphIsPresent(s, cp); }
    }
    forall i | 0 <= i < |sets| ensures sets[i].Legal() <==> IsConsistent(sets[i]) { GlyphIsPresent(sets[i], 0); }
    forall i: nat, cp: nat | i < |sets| && IsConsistent(sets[i]) ensures sets[i].Target(cp) == Place(sets[i], cp) {
      PlaceIsTarget(sets[i], cp);
    }
    assert forall i: nat, c: nat :: Exists(sets, i, c) <==> i < |sets| && HasGlyph(sets[i], c);
    hide Place, HasGlyph, IsConsistent;
  }

  lemma LatestAreTables<A>(sets: seq<PatchSet<A>>, cmap: set<nat>, tables: Tables)
    requires LegalUpTo(sets, |sets|) && HoldsLatest(sets, |sets|, tables)
    ensures AreTables(sets, tables)
  {
    forall i | 0 <= i < |sets| ensures IsConsistent(sets[i]) { GlyphIsPresent(sets[i], 0); }
    hide Place, HasGlyph, IsConsistent, Latest;
    forall name: string, cp: nat | name in tables && cp in tables[name]
      ensures exists i: nat :: Decides(sets, i, name, cp) && tables[name][cp] == Place(sets[i], cp)
    {
      assert Find(tables, name, cp) == Latest(sets, |sets|, name, cp);
      var i := LatestIsAssigned(sets, |sets|, name, cp);
      LatestDecides(sets, i, name, cp);
      PlaceIsTarget(sets[i], cp);
    }
    forall i: nat, name: string, cp: nat | Decides(sets, i, name, cp)
      ensures name in tables && cp in tables[name] && tables[name][cp] == Place(sets[i], cp)
    {
      GlyphIsPresent(sets[i], cp);
      AssignedHasLatest(sets, |sets|, i, cp);
      assert Find(tables, name, cp) == Latest(sets, |sets|, name, cp);
      var j := LatestIsAssigned(sets, |sets|, name, cp);
      GlyphIsPresent(sets[j], cp);
      assert i == j;
      PlaceIsTarget(sets[i], cp);
    }
  }

  lemma LatestDecides<A>(sets: seq<PatchSet<A>>, i: nat, name: string, cp: nat)
    requires i < |sets| && sets[i].name == name && Exists(sets, i, cp)
    requires forall k :: i < k < |sets| && sets[k].name == name ==> !Exists(sets, k, cp)
    ensures Decides(sets, i, name, cp)
  {
    GlyphIsPresent(sets[i], cp);
    forall k | i < k < |sets| && sets[k].name == name ensures !HasGlyph(sets[k], cp) {
      GlyphIsPresent(sets[k], cp);
      assert !Exists(sets, k, cp);
    }
  }

  lemma ReachedHasPlace<A>(sets: seq<PatchSet<A>>, i: nat, cp: nat, target: nat)
    requires i < |sets| && sets[i].Present(cp) && sets[i].Legal() && sets[i].Target(cp) == target
    ensures HasPlace(sets, i, cp, target)
  {
    GlyphIsPresent(sets[i], cp);
    PlaceIsTarget(sets[i], cp);
  }

  lemma ExplainedIsWrong<A>(sets: seq<PatchSet<A>>, cmap: set<nat>, error: Error)
    requires Explains(sets, cmap, Err(error))
    ensures IsWrong(sets, cmap, error)
  {
    hide HasPlace;
    match error
    case NotLegal(i) => GlyphIsPresent(sets[i], 0);
    case MissingCodepoint(target) =>
      var i: nat, cp: nat :| Reached(sets, cmap, i, cp) && sets[i].Target(cp) == target && target !in cmap;
      ReachedHasPlace(sets, i, cp, target);
    case Overlap(target) =>
      var i: nat, cp: nat :| Reached(sets, cmap, i, cp) && sets[i].Target(cp) == target && target in cmap
                             && Taken(sets, i, cp, target);
      var j: nat, c: nat :| Before(sets, i, cp, j, c) && sets[j].Target(c) == target;
      ReachedHasPlace(sets, i, cp, target);
      ReachedHasPlace(sets, j, c, target);
  }
}
