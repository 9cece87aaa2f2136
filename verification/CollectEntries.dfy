/** How src/font/nerd_font_codegen.py collects the constraint of every codepoint of the Nerd Font. */
module CollectEntries {
  import opened Basics
  import opened Packing
  import ScaleGroups

  type Entry<A> = ScaleGroups.Entry<A>
  type Glyphs = map<nat, ScaleGroups.Glyph>

  const PADDED_SET: string := "Progress Indicators"

  datatype Failure = Overlaps(target: nat) | Scaling(error: ScaleGroups.Error)
  datatype Outcome<A> = Collected(entries: map<nat, Entry<A>>) | Failed(failure: Failure)

  /** Patch set i covers the codepoint, which went to that target. */
  ghost predicate Covers<A(!new)>(sets: seq<PatchSet<Entry<A>>>, tables: Tables, i: nat, cp: nat, target: nat) {
    i < |sets| && sets[i].InRange(cp) && Find(tables, sets[i].name, cp) == Some(target)
  }

  /** Two patch sets of one name, both of which cover a codepoint. */
  ghost predicate Clash<A(!new)>(sets: seq<PatchSet<Entry<A>>>, tables: Tables, j: nat, i: nat, cp: nat) {
    && j < i < |sets| && sets[j].name == sets[i].name
    && sets[j].InRange(cp) && sets[i].InRange(cp) && Find(tables, sets[i].name, cp).Some?
  }

  ghost predicate ClashFree<A(!new)>(sets: seq<PatchSet<Entry<A>>>, tables: Tables) {
    forall j: nat, i: nat, cp: nat :: !Clash(sets, tables, j, i, cp)
  }

  function FontOf<A(!new)>(s: PatchSet<Entry<A>>, tables: Tables, glyphs: Glyphs): ScaleGroups.Font
    requires s.name in tables
  {
    ScaleGroups.Font(tables[s.name], glyphs, s.name == PADDED_SET)
  }

  /** The entries of one patch set before scaling, for its codepoints below a bound. */
  ghost predicate IsPatch<A(!new)>(sets: seq<PatchSet<Entry<A>>>, tables: Tables, i: nat, end: nat,
                                   patch: map<nat, Entry<A>>)
    requires i < |sets|
  {
    && (forall t :: t in patch ==> exists cp: nat :: cp < end && Covers(sets, tables, i, cp, t))
    && (forall cp: nat, t: nat :: cp < end && Covers(sets, tables, i, cp, t) ==>
          t in patch && patch[t] == sets[i].Attribute(cp))
  }

  /** The entries of the first patch sets, each scaled by the rules of its own. */
  ghost predicate IsCollected<A(!new)>(sets: seq<PatchSet<Entry<A>>>, tables: Tables, glyphs: Glyphs, i: nat,
                                 entries: map<nat, Entry<A>>)
    requires i <= |sets| && Named(sets, |sets|, tables)
  {
    && (forall t :: t in entries ==> exists j: nat, cp: nat :: j < i && Covers(sets, tables, j, cp, t))
    && (forall j: nat, cp: nat, t: nat :: j < i && Covers(sets, tables, j, cp, t) ==>
          && t in entries
          && ScaleGroups.ScaledAs(FontOf(sets[j], tables, glyphs), sets[j].scaleGroups, |sets[j].scaleGroups|, t,
                                  sets[j].Attribute(cp), entries[t]))
  }

  ghost predicate ScalesPatch<A(!new)>(sets: seq<PatchSet<Entry<A>>>, tables: Tables, glyphs: Glyphs, i: nat)
    requires i < |sets| && Named(sets, |sets|, tables)
  {
    forall patch | IsPatch(sets, tables, i, sets[i].symEnd + 1, patch) ::
      ScaleGroups.Applicable(FontOf(sets[i], tables, glyphs), sets[i].scaleGroups, |sets[i].scaleGroups|, patch)
  }

  /** What packing leaves behind. */
  ghost predicate Packed<A(!new)>(sets: seq<PatchSet<Entry<A>>>, cmap: set<nat>, tables: Tables) {
    Packable(sets, cmap) && HoldsLatest(sets, |sets|, tables) && Named(sets, |sets|, tables)
  }

  /** Only one codepoint of one patch set name has a given target. */
  lemma CoversOnce<A(!new)>(sets: seq<PatchSet<Entry<A>>>, cmap: set<nat>, tables: Tables,
                      j: nat, c: nat, i: nat, cp: nat, target: nat)
    requires Packed(sets, cmap, tables)
    requires Covers(sets, tables, j, c, target) && Covers(sets, tables, i, cp, target)
    ensures c == cp && sets[j].name == sets[i].name
    ensures j < i ==> Clash(sets, tables, j, i, cp)
  {
    TablesAreInjective(sets, cmap, tables, sets[j].name, c, sets[i].name, cp);
  }

  lemma PatchOneMore<A(!new)>(sets: seq<PatchSet<Entry<A>>>, cmap: set<nat>, tables: Tables, i: nat, cp: nat,
                        patch: map<nat, Entry<A>>)
    requires Packed(sets, cmap, tables) && i < |sets|
    requires IsPatch(sets, tables, i, cp, patch) && sets[i].InRange(cp)
    ensures Find(tables, sets[i].name, cp).None? ==> IsPatch(sets, tables, i, cp + 1, patch)
    ensures Find(tables, sets[i].name, cp).Some? ==>
      IsPatch(sets, tables, i, cp + 1, patch[Find(tables, sets[i].name, cp).value := sets[i].Attribute(cp)])
  {
    hide Packed;
    if Find(tables, sets[i].name, cp).Some? {
      var target := Find(tables, sets[i].name, cp).value;
      assert Covers(sets, tables, i, cp, target);
      forall c: nat, t: nat | c < cp && Covers(sets, tables, i, c, t) ensures t != target {
        if t == target { CoversOnce(sets, cmap, tables, i, c, i, cp, target); }
      }
    }
  }

  /** A target that has an entry already is covered twice. */
  lemma TakenIsClash<A(!new)>(sets: seq<PatchSet<Entry<A>>>, cmap: set<nat>, tables: Tables, glyphs: Glyphs, i: nat,
                              cp: nat,
                        entries: map<nat, Entry<A>>, target: nat)
    requires Packed(sets, cmap, tables) && i < |sets|
    requires IsCollected(sets, tables, glyphs, i, entries) && Covers(sets, tables, i, cp, target)
    ensures target in entries <==> exists j: nat :: Clash(sets, tables, j, i, cp)
  {
    if target in entries {
      var j: nat, c: nat :| j < i && Covers(sets, tables, j, c, target);
      CoversOnce(sets, cmap, tables, j, c, i, cp, target);
    }
    if exists j: nat :: Clash(sets, tables, j, i, cp) {
      var j: nat :| Clash(sets, tables, j, i, cp);
      assert Covers(sets, tables, j, cp, target);
    }
  }

  lemma CollectedOneMore<A(!new)>(sets: seq<PatchSet<Entry<A>>>, cmap: set<nat>, tables: Tables, glyphs: Glyphs, i: nat,
                            entries: map<nat, Entry<A>>, patch: map<nat, Entry<A>>, scaled: map<nat, Entry<A>>)
    requires Packed(sets, cmap, tables) && i < |sets|
    requires IsCollected(sets, tables, glyphs, i, entries)
    requires IsPatch(sets, tables, i, sets[i].symEnd + 1, patch)
    requires ClashFreeUpTo(sets, tables, i + 1, 0)
    requires var s := sets[i];
      ScaleGroups.Applied(FontOf(s, tables, glyphs), s.scaleGroups, |s.scaleGroups|, patch, scaled)
    ensures IsCollected(sets, tables, glyphs, i + 1, entries + scaled)
  {
    hide ScaleGroups.ScaledAs, FontOf;
    var more := entries + scaled;
    forall t | t in more ensures exists j: nat, cp: nat :: j < i + 1 && Covers(sets, tables, j, cp, t) {
      if t in scaled {
        assert t in patch;
      }
    }
    forall j: nat, cp: nat, t: nat | j < i + 1 && Covers(sets, tables, j, cp, t)
      ensures t in more
      ensures ScaleGroups.ScaledAs(FontOf(sets[j], tables, glyphs), sets[j].scaleGroups, |sets[j].scaleGroups|, t,
                                   sets[j].Attribute(cp), more[t])
    {
      if j == i {
        assert t in patch && patch[t] == sets[i].Attribute(cp);
      } else if t in scaled {
        var c: nat :| Covers(sets, tables, i, c, t);
        CoversOnce(sets, cmap, tables, j, cp, i, c, t);
      }
    }
  }

  /** All patch sets in order: the entries, the first codepoint that has one already, or a scale that fails. */
  method Collect<A(!new)>(sets: seq<PatchSet<Entry<A>>>, tables: Tables, glyphs: Glyphs, ghost cmap: set<nat>)
    returns (r: Outcome<A>)
    requires Packed(sets, cmap, tables)
    ensures r.Collected? <==>
      ClashFree(sets, tables) && forall i :: 0 <= i < |sets| ==> ScalesPatch(sets, tables, glyphs, i)
    ensures r.Collected? ==> IsCollected(sets, tables, glyphs, |sets|, r.entries)
    ensures r.Failed? && r.failure.Overlaps? ==>
      exists j: nat, i: nat, cp: nat :: Clash(sets, tables, j, i, cp) && Covers(sets, tables, i, cp, r.failure.target)
    ensures r.Collected? ==> AreEntries(sets, tables, glyphs, r.entries)
    ensures r.Failed? && r.failure.Scaling? ==>
      exists i: nat, patch :: FailsToScale(sets, tables, glyphs, i, patch, r.failure.error)
  {
    hide *;
    NamedAll(sets, cmap, tables);
    var entries: map<nat, Entry<A>> := map[];
    var i := 0;
    NothingCollected(sets, tables, glyphs);
    while i < |sets|
      invariant 0 <= i <= |sets|
      invariant ClashFreeUpTo(sets, tables, i, 0)
      invariant forall j :: 0 <= j < i ==> ScalesPatch(sets, tables, glyphs, j)
      invariant IsCollected(sets, tables, glyphs, i, entries)
    {
      var s := sets[i];
      var table := tables[s.name];
      var patch: map<nat, Entry<A>> := map[];
      var cp: nat := s.symStart;
      NothingInPatch(sets, tables, i);
      while cp < s.symEnd + 1
        invariant s.symStart <= cp && (cp <= s.symEnd + 1 || cp == s.symStart)
        invariant ClashFreeUpTo(sets, tables, i, cp)
        invariant IsPatch(sets, tables, i, cp, patch)
      {
        CoveredHere(sets, cmap, tables, glyphs, i, cp, entries);
        PatchOneMore(sets, cmap, tables, i, cp, patch);
        if cp in table {
          var cpNerdfont := table[cp];
          if cpNerdfont in entries { return Failed(Overlaps(cpNerdfont)); }
          patch := patch[cpNerdfont := s.Attribute(cp)];
        }
        cp := cp + 1;
      }
      PatchDone(sets, tables, i, cp, patch);
      var font := FontOf(s, tables, glyphs);
      var scaled := ScaleGroups.ApplyScaleRules(font, s.scaleGroups, patch);
      PatchScales(sets, tables, glyphs, i, patch);
      if scaled.Err? {
        PatchFails(sets, tables, glyphs, i, patch, scaled.error);
        return Failed(Scaling(scaled.error));
      }
      CollectedOneMore(sets, cmap, tables, glyphs, i, entries, patch, scaled.value);
      entries := entries + scaled.value;
      i := i + 1;
    }
    AllClashFree(sets, tables);
    CollectedAreEntries(sets, cmap, tables, glyphs, entries);
    return Collected(entries);
  }

  /** The entries of patch set i, and what is wrong with scaling them. */
  ghost predicate FailsToScale<A(!new)>(sets: seq<PatchSet<Entry<A>>>, tables: Tables, glyphs: Glyphs, i: nat,
                                        patch: map<nat, Entry<A>>, error: ScaleGroups.Error)
  {
    && i < |sets| && sets[i].name in tables && IsPatch(sets, tables, i, sets[i].symEnd + 1, patch)
    && ScaleGroups.IsScaleError(FontOf(sets[i], tables, glyphs), sets[i].scaleGroups, patch, error)
  }

  lemma PatchFails<A(!new)>(sets: seq<PatchSet<Entry<A>>>, tables: Tables, glyphs: Glyphs, i: nat,
                            patch: map<nat, Entry<A>>, error: ScaleGroups.Error)
    requires i < |sets| && sets[i].name in tables && IsPatch(sets, tables, i, sets[i].symEnd + 1, patch)
    requires ScaleGroups.IsScaleError(FontOf(sets[i], tables, glyphs), sets[i].scaleGroups, patch, error)
    ensures exists i: nat, patch :: FailsToScale(sets, tables, glyphs, i, patch, error)
  {
    assert FailsToScale(sets, tables, glyphs, i, patch, error);
  }

  /** No patch set before i, and no codepoint below a bound of i, clashes with an earlier patch set. */
  ghost predicate ClashFreeUpTo<A(!new)>(sets: seq<PatchSet<Entry<A>>>, tables: Tables, i: nat, end: nat) {
    forall j: nat, k: nat, cp: nat :: Clash(sets, tables, j, k, cp) ==> k > i || (k == i && cp >= end)
  }

  lemma NamedAll<A(!new)>(sets: seq<PatchSet<Entry<A>>>, cmap: set<nat>, tables: Tables)
    requires Packed(sets, cmap, tables)
    ensures Named(sets, |sets|, tables) && forall i :: 0 <= i < |sets| ==> sets[i].name in tables
  {}

  lemma NothingCollected<A(!new)>(sets: seq<PatchSet<Entry<A>>>, tables: Tables, glyphs: Glyphs)
    requires Named(sets, |sets|, tables)
    ensures IsCollected(sets, tables, glyphs, 0, map[]) && ClashFreeUpTo(sets, tables, 0, 0)
  {}

  lemma NothingInPatch<A(!new)>(sets: seq<PatchSet<Entry<A>>>, tables: Tables, i: nat)
    requires i < |sets| && ClashFreeUpTo(sets, tables, i, 0)
    ensures IsPatch(sets, tables, i, sets[i].symStart, map[]) && ClashFreeUpTo(sets, tables, i, sets[i].symStart)
  {}

  /** Whether the next codepoint clashes. */
  lemma CoveredHere<A(!new)>(sets: seq<PatchSet<Entry<A>>>, cmap: set<nat>, tables: Tables, glyphs: Glyphs, i: nat,
                             cp: nat, entries: map<nat, Entry<A>>)
    requires Packed(sets, cmap, tables) && i < |sets| && sets[i].symStart <= cp < sets[i].symEnd + 1
    requires sets[i].name in tables
    requires IsCollected(sets, tables, glyphs, i, entries) && ClashFreeUpTo(sets, tables, i, cp)
    ensures sets[i].InRange(cp)
    ensures Find(tables, sets[i].name, cp) ==
            if cp in tables[sets[i].name] then Some(tables[sets[i].name][cp]) else None
    ensures cp !in tables[sets[i].name] || tables[sets[i].name][cp] !in entries ==>
      ClashFreeUpTo(sets, tables, i, cp + 1)
    ensures cp in tables[sets[i].name] && tables[sets[i].name][cp] in entries ==>
      && !ClashFree(sets, tables)
      && exists j: nat :: Clash(sets, tables, j, i, cp) && Covers(sets, tables, i, cp, tables[sets[i].name][cp])
  {
    hide Packed, IsCollected;
    if cp in tables[sets[i].name] {
      TakenIsClash(sets, cmap, tables, glyphs, i, cp, entries, tables[sets[i].name][cp]);
    }
  }

  lemma PatchDone<A(!new)>(sets: seq<PatchSet<Entry<A>>>, tables: Tables, i: nat, cp: nat, patch: map<nat, Entry<A>>)
    requires i < |sets| && cp > sets[i].symEnd && IsPatch(sets, tables, i, cp, patch)
    requires ClashFreeUpTo(sets, tables, i, cp)
    ensures IsPatch(sets, tables, i, sets[i].symEnd + 1, patch) && ClashFreeUpTo(sets, tables, i + 1, 0)
  {}

  /** A patch set has only one patch. */
  lemma PatchScales<A(!new)>(sets: seq<PatchSet<Entry<A>>>, tables: Tables, glyphs: Glyphs, i: nat,
                             patch: map<nat, Entry<A>>)
    requires i < |sets| && Named(sets, |sets|, tables) && IsPatch(sets, tables, i, sets[i].symEnd + 1, patch)
    ensures ScalesPatch(sets, tables, glyphs, i) <==>
      ScaleGroups.Applicable(FontOf(sets[i], tables, glyphs), sets[i].scaleGroups, |sets[i].scaleGroups|, patch)
  {
    var end := sets[i].symEnd + 1;
    forall other | IsPatch(sets, tables, i, end, other) ensures other == patch {
      SamePatch(sets, tables, i, patch, other);
      SamePatch(sets, tables, i, other, patch);
      assert other.Keys == patch.Keys;
    }
  }

  lemma SamePatch<A(!new)>(sets: seq<PatchSet<Entry<A>>>, tables: Tables, i: nat, patch: map<nat, Entry<A>>,
                           other: map<nat, Entry<A>>)
    requires i < |sets|
    requires IsPatch(sets, tables, i, sets[i].symEnd + 1, patch) && IsPatch(sets, tables, i, sets[i].symEnd + 1, other)
    ensures forall t :: t in patch ==> t in other && patch[t] == other[t]
  {
    forall t | t in patch ensures t in other && patch[t] == other[t] {
      var cp: nat :| cp < sets[i].symEnd + 1 && Covers(sets, tables, i, cp, t);
    }
  }

  lemma AllClashFree<A(!new)>(sets: seq<PatchSet<Entry<A>>>, tables: Tables)
    requires ClashFreeUpTo(sets, tables, |sets|, 0)
    ensures ClashFree(sets, tables)
  {}

  // ----- Across packing and collecting -----

  /** Without clashes a patch set covers just the codepoints it was given targets for: the entries are
      those of all codepoints with a glyph, each under the place it was packed to. */
  lemma CoversWhatIsPresent<A(!new)>(sets: seq<PatchSet<Entry<A>>>, cmap: set<nat>, tables: Tables,
                                     i: nat, cp: nat, target: nat)
    requires Packed(sets, cmap, tables) && ClashFree(sets, tables) && i < |sets|
    ensures Covers(sets, tables, i, cp, target) <==> sets[i].Present(cp) && sets[i].Target(cp) == target
  {
    var name := sets[i].name;
    assert Find(tables, name, cp) == Latest(sets, |sets|, name, cp);
    if sets[i].Present(cp) { AssignedHasLatest(sets, |sets|, i, cp); }
    if Find(tables, name, cp).Some? {
      var j := LatestIsAssigned(sets, |sets|, name, cp);
      if sets[i].InRange(cp) {
        assert !Clash(sets, tables, i, j, cp) && !Clash(sets, tables, j, i, cp);
      }
    }
  }

  /** The entries in plain words: one for each codepoint with a glyph, under its place, with its own attributes or the
      default, placed by the scale groups of its set; the padding glyph counts for the progress indicators only. */
  ghost predicate AreEntries<A(!new)>(sets: seq<PatchSet<Entry<A>>>, tables: Tables, glyphs: Glyphs,
                                      entries: map<nat, Entry<A>>)
  {
    && (forall i: nat, cp: nat, target: nat :: HasPlace(sets, i, cp, target) ==>
          target in entries && IsEntry(sets[i], tables, glyphs, cp, target, entries[target]))
    && (forall target :: target in entries ==> exists i: nat, cp: nat :: HasPlace(sets, i, cp, target))
  }

  ghost predicate IsEntry<A(!new)>(s: PatchSet<Entry<A>>, tables: Tables, glyphs: Glyphs, cp: nat, target: nat,
                                   entry: Entry<A>)
  {
    && s.name in tables
    && ScaleGroups.IsPlaced(ScaleGroups.Font(tables[s.name], glyphs, s.name == "Progress Indicators"), s.scaleGroups,
                            target, if cp in s.attributes then s.attributes[cp] else s.default, entry)
  }

  lemma CollectedAreEntries<A(!new)>(sets: seq<PatchSet<Entry<A>>>, cmap: set<nat>, tables: Tables, glyphs: Glyphs,
                                     entries: map<nat, Entry<A>>)
    requires Packed(sets, cmap, tables) && ClashFree(sets, tables)
    requires IsCollected(sets, tables, glyphs, |sets|, entries)
    ensures AreEntries(sets, tables, glyphs, entries)
  {
    hide IsEntry, ScaleGroups.ScaledAs;
    forall i: nat, cp: nat, target: nat | HasPlace(sets, i, cp, target)
      ensures target in entries && IsEntry(sets[i], tables, glyphs, cp, target, entries[target])
    {
      CoversItsPlace(sets, cmap, tables, i, cp, target);
      var s := sets[i];
      ScaledIsEntry(s, tables, glyphs, cp, target, entries[target]);
    }
    forall target | target in entries ensures exists i: nat, cp: nat :: HasPlace(sets, i, cp, target) {
      var i: nat, cp: nat :| i < |sets| && Covers(sets, tables, i, cp, target);
      CoversItsPlace(sets, cmap, tables, i, cp, target);
    }
  }

  lemma CoversItsPlace<A(!new)>(sets: seq<PatchSet<Entry<A>>>, cmap: set<nat>, tables: Tables,
                                i: nat, cp: nat, target: nat)
    requires Packed(sets, cmap, tables) && ClashFree(sets, tables) && i < |sets|
    ensures Covers(sets, tables, i, cp, target) <==> HasPlace(sets, i, cp, target)
  {
    hide Covers, ClashFree;
    CoversWhatIsPresent(sets, cmap, tables, i, cp, target);
    GlyphIsPresent(sets[i], cp);
    assert sets[i].Legal();
    PlaceIsTarget(sets[i], cp);
  }

  lemma ScaledIsEntry<A(!new)>(s: PatchSet<Entry<A>>, tables: Tables, glyphs: Glyphs, cp: nat, target: nat,
                               entry: Entry<A>)
    requires s.name in tables
    requires ScaleGroups.ScaledAs(FontOf(s, tables, glyphs), s.scaleGroups, |s.scaleGroups|, target, s.Attribute(cp),
                                  entry)
    ensures IsEntry(s, tables, glyphs, cp, target, entry)
  {
    var font := FontOf(s, tables, glyphs);
    assert font == ScaleGroups.Font(tables[s.name], glyphs, s.name == "Progress Indicators");
    var before := map[target := s.Attribute(cp)];
    var after := map[target := entry];
    hide ScaleGroups.ScaledAs, ScaleGroups.IsPlaced, FontOf;
    ScaleGroups.AppliedIsPlaced(font, s.scaleGroups, before, after);
    assert target in before && before[target] == s.Attribute(cp) && after[target] == entry;
    assert ScaleGroups.IsPlaced(font, s.scaleGroups, target, before[target], after[target]);
  }
}
