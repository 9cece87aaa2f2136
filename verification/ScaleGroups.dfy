/** How src/font/nerd_font_codegen.py places glyphs relative to the bounding box of their scale group. */
module ScaleGroups {
  import opened Basics

  datatype Box = Box(xMin: real, yMin: real, xMax: real, yMax: real)

  /** What a bounds pen reports. */
  type Bounds = b: Box | b.xMin <= b.xMax && b.yMin <= b.yMax witness Box(0.0, 0.0, 0.0, 0.0)

  datatype Glyph = Glyph(width: real, bounds: Option<Bounds>)

  datatype Horizontal = Horizontal(relativeWidth: real, relativeX: real)
  datatype Scale = Scale(relativeHeight: real, relativeY: real, horizontal: Option<Horizontal>)

  /** A constraint under construction. */
  datatype Entry<A> = Entry(attributes: A, scale: Option<Scale>)

  datatype Error = NoGlyph(target: nat) | NoBounds(target: nat) | DivisionByZero

  /** The glyph without a target, and the one that stands in for its vertical bounds. */
  const PADDING_GLYPH: nat := 0xEDFF
  const STAND_IN: nat := 0xE0B0

  /** Between infinities nothing has been seen. */
  datatype Extent = Nothing | Between(low: real, high: real)
  {
    function Widen(lo: real, hi: real): Extent {
      if Nothing? then Between(lo, hi)
      else Between(if lo < low then lo else low, if hi > high then hi else high)
    }

    /** Before anything has been seen nothing is divided by this. */
    function Size(): real { if Nothing? then 0.0 else high - low }
  }

  datatype Font = Font(table: map<nat, nat>, glyphs: map<nat, Glyph>, padded: bool)
  {
    /** The glyph of the Nerd Font that a member of a group shows, if any. */
    function Shown(cp: nat): Option<nat> {
      if cp in table then Some(table[cp]) else if padded && cp == PADDING_GLYPH then Some(STAND_IN) else None
    }

    function Problem(cp: nat): Option<Error> {
      match Shown(cp)
      case None => None
      case Some(target) =>
        if target !in glyphs then Some(NoGlyph(target))
        else if glyphs[target].bounds.None? then Some(NoBounds(target))
        else None
    }

    predicate Measurable(group: seq<nat>) {
      forall k :: 0 <= k < |group| ==> Problem(group[k]) == None
    }

    function BoundsOf(target: nat): Bounds
      requires target in glyphs && glyphs[target].bounds.Some?
    {
      glyphs[target].bounds.value
    }

    /** The stand-in counts for the vertical extent only. */
    ghost function Vertical(group: seq<nat>): Extent
      requires Measurable(group)
    {
      if group == [] then Nothing
      else
        var before, last := Vertical(group[..|group| - 1]), group[|group| - 1];
        if Shown(last).None? then before
        else assert Problem(last) == None; var b := BoundsOf(Shown(last).value); before.Widen(b.yMin, b.yMax)
    }

    ghost function Horizontally(group: seq<nat>): Extent
      requires Measurable(group)
    {
      if group == [] then Nothing
      else
        var before, last := Horizontally(group[..|group| - 1]), group[|group| - 1];
        if last !in table then before
        else assert Problem(last) == None; var b := BoundsOf(table[last]); before.Widen(b.xMin, b.xMax)
    }

    /** The members of a group that have a target, and their advances. */
    ghost function Members(group: seq<nat>): set<nat> {
      set k | 0 <= k < |group| && group[k] in table :: table[group[k]]
    }

    ghost function Advances(group: seq<nat>): set<real>
      requires Measurable(group)
    {
      set k | 0 <= k < |group| && group[k] in table :: (assert Problem(group[k]) == None; glyphs[table[group[k]]].width)
    }

    ghost predicate IsMonospace(group: seq<nat>)
      requires Measurable(group)
    {
      |Members(group)| > 1 && |Advances(group)| == 1
    }

    /** What a member of the group is scaled to. */
    ghost function ScaleIn(group: seq<nat>, target: nat): Scale
      requires Measurable(group) && target in Members(group) && Divides(group)
    {
      MemberHasBounds(group, target);
      var b, y, x := BoundsOf(target), Vertical(group), Horizontally(group);
      ExtentsCover(group, target);
      Scale((b.yMax - b.yMin) / y.Size(), (b.yMin - y.low) / y.Size(),
            if IsMonospace(group) then Some(Horizontal((b.xMax - b.xMin) / x.Size(), (b.xMin - x.low) / x.Size()))
            else None)
    }

    ghost predicate Divides(group: seq<nat>)
      requires Measurable(group)
    {
      Vertical(group).Size() != 0.0 && (IsMonospace(group) ==> Horizontally(group).Size() != 0.0)
    }

    lemma MemberHasBounds(group: seq<nat>, target: nat)
      requires Measurable(group) && target in Members(group)
      ensures target in glyphs && glyphs[target].bounds.Some?
    {
      var k :| 0 <= k < |group| && group[k] in table && target == table[group[k]];
      assert Problem(group[k]) == None;
    }

    /** Every member lies within the extents of its group. */
    lemma ExtentsCover(group: seq<nat>, target: nat)
      requires Measurable(group) && target in Members(group)
      requires target in glyphs && glyphs[target].bounds.Some?
      ensures var b, y := BoundsOf(target), Vertical(group); y.Between? && y.low <= b.yMin <= b.yMax <= y.high
      ensures var b, x := BoundsOf(target), Horizontally(group); x.Between? && x.low <= b.xMin <= b.xMax <= x.high
    {
      var k :| 0 <= k < |group| && group[k] in table && target == table[group[k]];
      VerticalCovers(group, k);
      HorizontallyCovers(group, k);
    }

    /** The vertical extent covers the padding glyph too. */
    lemma {:induction false} VerticalCovers(group: seq<nat>, k: nat)
      requires Measurable(group) && k < |group| && Shown(group[k]).Some?
      ensures Problem(group[k]) == None
      ensures var b, y := BoundsOf(Shown(group[k]).value), Vertical(group);
        y.Between? && y.low <= b.yMin <= b.yMax <= y.high
    {
      var n := |group| - 1;
      assert Problem(group[n]) == None && Problem(group[k]) == None;
      if k < n {
        assert group[..n][k] == group[k];
        VerticalCovers(group[..n], k);
      }
    }

    lemma {:induction false} HorizontallyCovers(group: seq<nat>, k: nat)
      requires Measurable(group) && k < |group| && group[k] in table
      ensures Problem(group[k]) == None
      ensures var b, x := BoundsOf(table[group[k]]), Horizontally(group);
        x.Between? && x.low <= b.xMin <= b.xMax <= x.high
    {
      var n := |group| - 1;
      assert Problem(group[n]) == None && Problem(group[k]) == None;
      if k < n {
        assert group[..n][k] == group[k];
        HorizontallyCovers(group[..n], k);
      }
    }

    /** The vertical extent is no wider than it has to be: glyphs of the group reach both its ends. */
    lemma {:induction false} VerticalIsTight(group: seq<nat>) returns (bottom: nat, top: nat)
      requires Measurable(group) && Vertical(group).Between?
      ensures bottom < |group| && Shown(group[bottom]).Some? && Problem(group[bottom]) == None
      ensures top < |group| && Shown(group[top]).Some? && Problem(group[top]) == None
      ensures BoundsOf(Shown(group[bottom]).value).yMin == Vertical(group).low
      ensures BoundsOf(Shown(group[top]).value).yMax == Vertical(group).high
    {
      var n := |group| - 1;
      assert Problem(group[n]) == None;
      var before := Vertical(group[..n]);
      if before.Nothing? {
        bottom, top := n, n;
      } else {
        bottom, top := VerticalIsTight(group[..n]);
        if Shown(group[n]).Some? {
          var b := BoundsOf(Shown(group[n]).value);
          if b.yMin < before.low { bottom := n; }
          if b.yMax > before.high { top := n; }
        }
      }
    }

    /** So is the horizontal extent, of which the padding glyph is no part. */
    lemma {:induction false} HorizontallyIsTight(group: seq<nat>) returns (left: nat, right: nat)
      requires Measurable(group) && Horizontally(group).Between?
      ensures left < |group| && group[left] in table && Problem(group[left]) == None
      ensures right < |group| && group[right] in table && Problem(group[right]) == None
      ensures BoundsOf(table[group[left]]).xMin == Horizontally(group).low
      ensures BoundsOf(table[group[right]]).xMax == Horizontally(group).high
    {
      var n := |group| - 1;
      assert Problem(group[n]) == None;
      var before := Horizontally(group[..n]);
      if before.Nothing? {
        left, right := n, n;
      } else {
        left, right := HorizontallyIsTight(group[..n]);
        if group[n] in table {
          var b := BoundsOf(table[group[n]]);
          if b.xMin < before.low { left := n; }
          if b.xMax > before.high { right := n; }
        }
      }
    }

    /** A scaled glyph stays within its group, in both directions. */
    lemma ScaleIsRelative(group: seq<nat>, target: nat)
      requires Measurable(group) && target in Members(group) && Divides(group)
      ensures var s := ScaleIn(group, target);
        && 0.0 <= s.relativeY && 0.0 <= s.relativeHeight && s.relativeY + s.relativeHeight <= 1.0
        && (s.horizontal.Some? ==>
              && 0.0 <= s.horizontal.value.relativeX && 0.0 <= s.horizontal.value.relativeWidth
              && s.horizontal.value.relativeX + s.horizontal.value.relativeWidth <= 1.0)
    {
      MemberHasBounds(group, target);
      ExtentsCover(group, target);
      var b, y, x := BoundsOf(target), Vertical(group), Horizontally(group);
      Within(y.low, b.yMin, b.yMax, y.high);
      if IsMonospace(group) { Within(x.low, b.xMin, b.xMax, x.high); }
    }

    /** The scale puts the glyph back where it is in the group's box: the vertical numbers always, the horizontal
        ones if there are any. */
    lemma ScaleRestoresBounds(group: seq<nat>, target: nat)
      requires Measurable(group) && target in Members(group) && Divides(group)
      ensures target in glyphs && glyphs[target].bounds.Some?
      ensures var s, b, y := ScaleIn(group, target), BoundsOf(target), Vertical(group);
        y.Between? && b.yMin == y.low + s.relativeY * y.Size() && b.yMax == b.yMin + s.relativeHeight * y.Size()
      ensures var s, b, x := ScaleIn(group, target), BoundsOf(target), Horizontally(group);
        && (s.horizontal.Some? <==> IsMonospace(group))
        && (s.horizontal.Some? ==>
              && x.Between? && b.xMin == x.low + s.horizontal.value.relativeX * x.Size()
              && b.xMax == b.xMin + s.horizontal.value.relativeWidth * x.Size())
    {
      hide *;
      ScaledVertically(group, target);
      ScaledHorizontally(group, target);
      var b, y, x := BoundsOf(target), Vertical(group), Horizontally(group);
      Cancel(b.yMin - y.low, y.Size());
      Cancel(b.yMax - b.yMin, y.Size());
      if IsMonospace(group) {
        Cancel(b.xMin - x.low, x.Size());
        Cancel(b.xMax - b.xMin, x.Size());
      }
    }

    lemma ScaledVertically(group: seq<nat>, target: nat)
      requires Measurable(group) && target in Members(group) && Divides(group)
      ensures target in glyphs && glyphs[target].bounds.Some?
      ensures var s, b, y := ScaleIn(group, target), BoundsOf(target), Vertical(group);
        && y.Between? && y.Size() != 0.0
        && s.relativeY == (b.yMin - y.low) / y.Size() && s.relativeHeight == (b.yMax - b.yMin) / y.Size()
    {
      MemberHasBounds(group, target);
      ExtentsCover(group, target);
    }

    lemma ScaledHorizontally(group: seq<nat>, target: nat)
      requires Measurable(group) && target in Members(group) && Divides(group)
      ensures target in glyphs && glyphs[target].bounds.Some?
      ensures var s, b, x := ScaleIn(group, target), BoundsOf(target), Horizontally(group);
        && (s.horizontal.Some? <==> IsMonospace(group)) && x.Between?
        && (s.horizontal.Some? ==>
              && x.Size() != 0.0
              && s.horizontal.value.relativeX == (b.xMin - x.low) / x.Size()
              && s.horizontal.value.relativeWidth == (b.xMax - b.xMin) / x.Size())
    {
      MemberHasBounds(group, target);
      ExtentsCover(group, target);
    }
  }

  lemma Cancel(a: real, size: real)
    requires size != 0.0
    ensures a / size * size == a
  {}

  lemma Within(low: real, from: real, to: real, high: real)
    requires low <= from <= to <= high && high - low != 0.0
    ensures 0.0 <= (from - low) / (high - low) && 0.0 <= (to - from) / (high - low)
    ensures (from - low) / (high - low) + (to - from) / (high - low) <= 1.0
  {
    var size := high - low;
    assert (from - low) / size + (to - from) / size == (to - low) / size;
  }

  // ----- Measuring a group -----

  /** The bounding box of a group, the bounds of its members, and whether their advances are one. */
  datatype Measure = Measure(x: Extent, y: Extent, individual: map<nat, Bounds>, monospace: bool)

  ghost predicate Measures(font: Font, group: seq<nat>, m: Measure)
    requires font.Measurable(group)
  {
    && m.x == font.Horizontally(group) && m.y == font.Vertical(group)
    && m.individual.Keys == font.Members(group)
    && (forall t :: t in m.individual ==> t in font.glyphs && font.glyphs[t].bounds == Some(m.individual[t]))
    && m.monospace == font.IsMonospace(group)
  }

  method MeasureGroup(font: Font, group: seq<nat>) returns (r: Result<Measure, Error>)
    ensures r.Ok? <==> font.Measurable(group)
    ensures r.Ok? ==> Measures(font, group, r.value)
    ensures r.Err? ==>
      exists k :: 0 <= k < |group| && font.Measurable(group[..k]) && font.Problem(group[k]) == Some(r.error)
  {
    hide *;
    var x, y: Extent := Nothing, Nothing;
    var individual: map<nat, Bounds> := map[];
    var advances: set<real> := {};
    var k := 0;
    NobodyMeasured(font, group);
    while k < |group|
      invariant 0 <= k <= |group|
      invariant MeasuresPrefix(font, group, k, x, y, individual, advances)
    {
      var cp := group[k];
      OneMoreProblem(font, group, k, x, y, individual, advances);
      var shown := font.Shown(cp);
      if shown.Some? {
        if shown.value !in font.glyphs { return Err(NoGlyph(shown.value)); }
        var glyph := font.glyphs[shown.value];
        if glyph.bounds.None? { return Err(NoBounds(shown.value)); }
        var b := glyph.bounds.value;
        OneMoreMeasured(font, group, k, x, y, individual, advances);
        if cp in font.table {
          advances := advances + {glyph.width};
          individual := individual[shown.value := b];
          x := x.Widen(b.xMin, b.xMax);
        }
        y := y.Widen(b.yMin, b.yMax);
      }
      k := k + 1;
    }
    AllMeasured(font, group, x, y, individual, advances);
    return Ok(Measure(x, y, individual, |individual| > 1 && |advances| == 1));
  }

  ghost predicate MeasuresPrefix(font: Font, group: seq<nat>, k: nat, x: Extent, y: Extent,
                                 individual: map<nat, Bounds>,
                                 advances: set<real>)
    requires k <= |group|
  {
    && font.Measurable(group[..k])
    && x == font.Horizontally(group[..k]) && y == font.Vertical(group[..k])
    && individual.Keys == font.Members(group[..k]) && advances == font.Advances(group[..k])
    && forall t :: t in individual ==> t in font.glyphs && font.glyphs[t].bounds == Some(individual[t])
  }

  lemma NobodyMeasured(font: Font, group: seq<nat>)
    ensures MeasuresPrefix(font, group, 0, Nothing, Nothing, map[], {})
  {}

  lemma AllMeasured(font: Font, group: seq<nat>, x: Extent, y: Extent, individual: map<nat, Bounds>,
                    advances: set<real>)
    requires MeasuresPrefix(font, group, |group|, x, y, individual, advances)
    ensures font.Measurable(group)
    ensures Measures(font, group, Measure(x, y, individual, |individual| > 1 && |advances| == 1))
  {
    assert group[..|group|] == group;
    assert |individual| == |individual.Keys|;
  }

  /** What the next member of a group may be: no glyph to look at, or one that is missing. */
  lemma OneMoreProblem(font: Font, group: seq<nat>, k: nat, x: Extent, y: Extent, individual: map<nat, Bounds>,
                       advances: set<real>)
    requires k < |group| && MeasuresPrefix(font, group, k, x, y, individual, advances)
    ensures font.Measurable(group[..k])
    ensures font.Problem(group[k]) != None ==> !font.Measurable(group)
    ensures font.Shown(group[k]).None? ==> MeasuresPrefix(font, group, k + 1, x, y, individual, advances)
    ensures font.Shown(group[k]).Some? ==>
      var target := font.Shown(group[k]).value;
      && (target !in font.glyphs ==> font.Problem(group[k]) == Some(NoGlyph(target)))
      && (target in font.glyphs && font.glyphs[target].bounds.None? ==>
            font.Problem(group[k]) == Some(NoBounds(target)))
  {
    hide font.Vertical, font.Horizontally, font.Advances, font.Members;
    if font.Shown(group[k]).None? {
      OneMoreMember(font, group, k);
    }
  }

  lemma OneMoreMeasured(font: Font, group: seq<nat>, k: nat, x: Extent, y: Extent, individual: map<nat, Bounds>,
                        advances: set<real>)
    requires k < |group| && MeasuresPrefix(font, group, k, x, y, individual, advances)
    requires font.Shown(group[k]).Some? && font.Shown(group[k]).value in font.glyphs
    requires font.glyphs[font.Shown(group[k]).value].bounds.Some?
    ensures var target := font.Shown(group[k]).value; var b := font.glyphs[target].bounds.value;
      MeasuresPrefix(font, group, k + 1,
        if group[k] in font.table then x.Widen(b.xMin, b.xMax) else x, y.Widen(b.yMin, b.yMax),
        if group[k] in font.table then individual[target := b] else individual,
        if group[k] in font.table then advances + {font.glyphs[target].width} else advances)
  {
    hide font.Vertical, font.Horizontally, font.Advances, font.Members;
    OneMoreMember(font, group, k);
  }

  lemma OneMoreMember(font: Font, group: seq<nat>, k: nat)
    requires k < |group| && font.Measurable(group[..k])
    ensures font.Measurable(group[..k + 1]) <==> font.Problem(group[k]) == None
    ensures font.Problem(group[k]) != None ==> !font.Measurable(group)
    ensures font.Members(group[..k + 1]) ==
            font.Members(group[..k]) + if group[k] in font.table then {font.table[group[k]]} else {}
    ensures font.Problem(group[k]) == None ==>
      && font.Vertical(group[..k + 1]) == (
          if font.Shown(group[k]).None? then font.Vertical(group[..k])
          else var b := font.BoundsOf(font.Shown(group[k]).value); font.Vertical(group[..k]).Widen(b.yMin, b.yMax))
      && font.Horizontally(group[..k + 1]) == (
          if group[k] !in font.table then font.Horizontally(group[..k])
          else var b := font.BoundsOf(font.table[group[k]]); font.Horizontally(group[..k]).Widen(b.xMin, b.xMax))
      && font.Advances(group[..k + 1]) ==
          font.Advances(group[..k]) + if group[k] in font.table then {font.glyphs[font.table[group[k]]].width} else {}
  {
    var more := group[..k + 1];
    assert more[..k] == group[..k] && more[k] == group[k];
    assert forall j :: 0 <= j < k ==> more[j] == group[..k][j];
  }

  // ----- Scaling -----

  /** What a group makes of an entry: it scales its members that have no scale yet. */
  ghost function Claimed<A>(font: Font, group: seq<nat>, target: nat, e: Entry<A>): Entry<A>
    requires font.Measurable(group) && (target in font.Members(group) && e.scale.None? ==> font.Divides(group))
  {
    if target in font.Members(group) && e.scale.None? then e.(scale := Some(font.ScaleIn(group, target))) else e
  }

  ghost predicate Claims<A>(font: Font, group: seq<nat>, entries: map<nat, Entry<A>>, target: nat) {
    target in entries && entries[target].scale.None? && target in font.Members(group)
  }

  /** The arithmetic of one member. */
  method Place(b: Bounds, m: Measure) returns (r: Result<Scale, Error>)
    requires m.y.Between? && (m.monospace ==> m.x.Between?)
    ensures r.Ok? <==> m.y.Size() != 0.0 && (m.monospace ==> m.x.Size() != 0.0)
    ensures r.Err? ==> r.error == DivisionByZero
    ensures r.Ok? ==> r.value == Scale(
      (b.yMax - b.yMin) / m.y.Size(), (b.yMin - m.y.low) / m.y.Size(),
      if m.monospace then Some(Horizontal((b.xMax - b.xMin) / m.x.Size(), (b.xMin - m.x.low) / m.x.Size())) else None)
  {
    var groupWidth, groupHeight := m.x.Size(), m.y.Size();
    if groupHeight == 0.0 { return Err(DivisionByZero); }
    var relativeHeight := (b.yMax - b.yMin) / groupHeight;
    var relativeY := (b.yMin - m.y.low) / groupHeight;
    var horizontal: Option<Horizontal> := None;
    if m.monospace {
      if groupWidth == 0.0 { return Err(DivisionByZero); }
      horizontal := Some(Horizontal((b.xMax - b.xMin) / groupWidth, (b.xMin - m.x.low) / groupWidth));
    }
    return Ok(Scale(relativeHeight, relativeY, horizontal));
  }

  method ScaleMember(font: Font, group: seq<nat>, m: Measure, target: nat) returns (r: Result<Scale, Error>)
    requires font.Measurable(group) && Measures(font, group, m) && target in font.Members(group)
    ensures r.Ok? <==> font.Divides(group)
    ensures r.Err? ==> r.error == DivisionByZero
    ensures r.Ok? ==> r.value == font.ScaleIn(group, target)
  {
    hide font.Vertical, font.Horizontally, font.Members, font.Advances, font.Measurable;
    font.MemberHasBounds(group, target);
    font.ExtentsCover(group, target);
    r := Place(m.individual[target], m);
  }

  /** The second loop over a group. */
  method ClaimMembers<A>(font: Font, group: seq<nat>, m: Measure, entries: map<nat, Entry<A>>)
    returns (r: Result<map<nat, Entry<A>>, Error>)
    requires font.Measurable(group) && Measures(font, group, m)
    ensures r.Ok? <==> font.Divides(group) || forall t :: !Claims(font, group, entries, t)
    ensures r.Err? ==> r.error == DivisionByZero
    ensures r.Ok? ==> r.value.Keys == entries.Keys && forall t :: t in entries ==>
      (Claims(font, group, entries, t) ==> font.Divides(group)) && r.value[t] == Claimed(font, group, t, entries[t])
  {
    hide *;
    var result := entries;
    var k := 0;
    NobodyClaimed(font, group, entries);
    while k < |group|
      invariant 0 <= k <= |group|
      invariant ClaimedPrefix(font, group, k, entries, result)
    {
      var cp := group[k];
      OneMoreClaim(font, group, k, entries, result);
      if cp in font.table && font.table[cp] in result && result[font.table[cp]].scale.None? {
        var target := font.table[cp];
        var scale := ScaleMember(font, group, m, target);
        if scale.Err? { return Err(scale.error); }
        ClaimedOneMore(font, group, k, entries, result);
        var placed := Entry(result[target].attributes, Some(scale.value));
        result := result[target := placed];
      }
      k := k + 1;
    }
    AllClaimed(font, group, entries, result);
    return Ok(result);
  }

  ghost predicate ClaimedPrefix<A>(font: Font, group: seq<nat>, k: nat, entries: map<nat, Entry<A>>,
                                   result: map<nat, Entry<A>>)
    requires k <= |group| && font.Measurable(group)
  {
    && result.Keys == entries.Keys
    && forall t :: t in entries ==>
      if Claims(font, group, entries, t) && t in font.Members(group[..k])
      then font.Divides(group) && result[t] == Claimed(font, group, t, entries[t])
      else result[t] == entries[t]
  }

  lemma NobodyClaimed<A>(font: Font, group: seq<nat>, entries: map<nat, Entry<A>>)
    requires font.Measurable(group)
    ensures ClaimedPrefix(font, group, 0, entries, entries)
  {}

  lemma MembersOneMore(font: Font, group: seq<nat>, k: nat)
    requires k < |group|
    ensures font.Members(group[..k + 1]) ==
            font.Members(group[..k]) + if group[k] in font.table then {font.table[group[k]]} else {}
    ensures group[k] in font.table ==> font.table[group[k]] in font.Members(group)
  {
    var more := group[..k + 1];
    assert more[k] == group[k];
    assert forall j :: 0 <= j < k ==> more[j] == group[..k][j];
  }

  lemma OneMoreClaim<A>(font: Font, group: seq<nat>, k: nat, entries: map<nat, Entry<A>>, result: map<nat, Entry<A>>)
    requires k < |group| && font.Measurable(group) && ClaimedPrefix(font, group, k, entries, result)
    ensures group[k] in font.table ==> font.table[group[k]] in font.Members(group)
    ensures group[k] in font.table && font.table[group[k]] in result && result[font.table[group[k]]].scale.None? ==>
      Claims(font, group, entries, font.table[group[k]])
    ensures !(group[k] in font.table && font.table[group[k]] in result && result[font.table[group[k]]].scale.None?) ==>
      ClaimedPrefix(font, group, k + 1, entries, result)
  {
    hide font.Members, font.Measurable, font.ScaleIn, font.Divides;
    MembersOneMore(font, group, k);
  }

  lemma ClaimedOneMore<A>(font: Font, group: seq<nat>, k: nat, entries: map<nat, Entry<A>>, result: map<nat, Entry<A>>)
    requires k < |group| && font.Measurable(group) && ClaimedPrefix(font, group, k, entries, result)
    requires group[k] in font.table && font.table[group[k]] in result && result[font.table[group[k]]].scale.None?
    requires font.Divides(group) && font.table[group[k]] in font.Members(group)
    ensures var target := font.table[group[k]];
      ClaimedPrefix(font, group, k + 1, entries,
        result[target := Entry(result[target].attributes, Some(font.ScaleIn(group, target)))])
  {
    hide font.Members, font.Measurable, font.ScaleIn, font.Divides;
    MembersOneMore(font, group, k);
  }

  lemma AllClaimed<A>(font: Font, group: seq<nat>, entries: map<nat, Entry<A>>, result: map<nat, Entry<A>>)
    requires font.Measurable(group) && ClaimedPrefix(font, group, |group|, entries, result)
    ensures font.Divides(group) || forall t :: !Claims(font, group, entries, t)
    ensures result.Keys == entries.Keys && forall t :: t in entries ==>
      (Claims(font, group, entries, t) ==> font.Divides(group)) && result[t] == Claimed(font, group, t, entries[t])
  {
    hide font.Members, font.Measurable, font.ScaleIn, font.Divides;
    assert group[..|group|] == group;
  }

  // ----- All groups of a patch set -----

  /** The first of the first n groups that a glyph is a member of. */
  ghost function First(font: Font, groups: seq<seq<nat>>, n: nat, target: nat): (r: Option<nat>)
    requires n <= |groups|
    ensures r.Some? ==> r.value < n && target in font.Members(groups[r.value])
    ensures r.Some? ==> forall g :: 0 <= g < r.value ==> target !in font.Members(groups[g])
    ensures r.None? ==> forall g :: 0 <= g < n ==> target !in font.Members(groups[g])
  {
    if n == 0 then None
    else
      var before := First(font, groups, n - 1, target);
      if before.Some? then before else if target in font.Members(groups[n - 1]) then Some(n - 1) else None
  }

  /** An entry is scaled by the first group of its glyph, unless it came with a scale. */
  ghost predicate ScaledAs<A>(font: Font, groups: seq<seq<nat>>, n: nat, target: nat, before: Entry<A>, after: Entry<A>)
    requires n <= |groups|
  {
    var first := First(font, groups, n, target);
    if before.scale.None? && first.Some? then
      var group := groups[first.value];
      && font.Measurable(group) && font.Divides(group)
      && after == Entry(before.attributes, Some(font.ScaleIn(group, target)))
    else after == before
  }

  /** Every group can be measured, and every group that is the first of some entry has a size to divide by. */
  ghost predicate Applicable<A>(font: Font, groups: seq<seq<nat>>, n: nat, entries: map<nat, Entry<A>>)
    requires n <= |groups|
  {
    forall g :: 0 <= g < n ==>
      && font.Measurable(groups[g])
      && (font.Divides(groups[g]) || forall t :: !ClaimedFirst(font, groups, g, entries, t))
  }

  ghost predicate ClaimedFirst<A>(font: Font, groups: seq<seq<nat>>, g: nat, entries: map<nat, Entry<A>>, target: nat)
    requires g < |groups|
  {
    Claims(font, groups[g], entries, target) && First(font, groups, g, target).None?
  }

  ghost predicate Applied<A>(font: Font, groups: seq<seq<nat>>, n: nat, entries: map<nat, Entry<A>>,
                             result: map<nat, Entry<A>>)
    requires n <= |groups|
  {
    result.Keys == entries.Keys && forall t :: t in entries ==> ScaledAs(font, groups, n, t, entries[t], result[t])
  }

  lemma OneMoreGroup<A>(font: Font, groups: seq<seq<nat>>, n: nat, entries: map<nat, Entry<A>>,
                        result: map<nat, Entry<A>>, more: map<nat, Entry<A>>)
    requires n < |groups| && Applied(font, groups, n, entries, result)
    requires font.Measurable(groups[n]) && more.Keys == result.Keys
    requires forall t :: t in result ==>
      && (Claims(font, groups[n], result, t) ==> font.Divides(groups[n]))
      && more[t] == Claimed(font, groups[n], t, result[t])
    ensures Applied(font, groups, n + 1, entries, more)
  {
    hide font.Members, font.Measurable, font.ScaleIn, font.Divides;
  }

  lemma ClaimsAreFirst<A>(font: Font, groups: seq<seq<nat>>, n: nat, entries: map<nat, Entry<A>>,
                          result: map<nat, Entry<A>>)
    requires n < |groups| && Applied(font, groups, n, entries, result)
    ensures forall t :: Claims(font, groups[n], result, t) <==> ClaimedFirst(font, groups, n, entries, t)
  {
    hide font.Members, font.Measurable, font.ScaleIn, font.Divides;
    forall t ensures Claims(font, groups[n], result, t) <==> ClaimedFirst(font, groups, n, entries, t) {
      if t in entries { assert ScaledAs(font, groups, n, t, entries[t], result[t]); }
    }
  }

  /** The scale rules of one patch set. */
  method ApplyScaleRules<A>(font: Font, groups: seq<seq<nat>>, entries: map<nat, Entry<A>>)
    returns (r: Result<map<nat, Entry<A>>, Error>)
    ensures r.Ok? <==> Applicable(font, groups, |groups|, entries)
    ensures r.Ok? ==> Applied(font, groups, |groups|, entries, r.value)
    ensures r.Ok? <==> CanBePlaced(font, groups, entries)
    ensures r.Ok? ==>
      r.value.Keys == entries.Keys && forall t :: t in entries ==> IsPlaced(font, groups, t, entries[t], r.value[t])
    ensures r.Err? ==> IsScaleError(font, groups, entries, r.error)
  {
    hide IsScaleError, Measures, Applied, First, ScaledAs, Claims, Claimed, ClaimedFirst, IsPlaced, CanBePlaced;
    ApplicableIsPlaceable(font, groups, entries);
    var result := entries;
    var g := 0;
    NothingApplied(font, groups, entries);
    while g < |groups|
      invariant 0 <= g <= |groups|
      invariant Applicable(font, groups, g, entries)
      invariant Applied(font, groups, g, entries, result)
    {
      var m := MeasureGroup(font, groups[g]);
      if m.Err? {
        ProblemIsError(font, groups, entries, g, m.error);
        return Err(m.error);
      }
      var claimed := ClaimMembers(font, groups[g], m.value, result);
      ClaimsAreFirst(font, groups, g, entries, result);
      if claimed.Err? {
        NoSizeIsError(font, groups, entries, g);
        return Err(claimed.error);
      }
      OneMoreGroup(font, groups, g, entries, result, claimed.value);
      result := claimed.value;
      g := g + 1;
    }
    AppliedIsPlaced(font, groups, entries, result);
    return Ok(result);
  }

  lemma NothingApplied<A>(font: Font, groups: seq<seq<nat>>, entries: map<nat, Entry<A>>)
    ensures Applied(font, groups, 0, entries, entries)
  {}

  /** Every scale the rules give is that of the first group with the glyph, and lies within it. */
  lemma ScalesAreRelative<A>(font: Font, groups: seq<seq<nat>>, entries: map<nat, Entry<A>>,
                             result: map<nat, Entry<A>>, target: nat)
    requires Applied(font, groups, |groups|, entries, result)
    requires target in entries && entries[target].scale.None?
    ensures result[target].scale.Some? <==> exists g :: 0 <= g < |groups| && target in font.Members(groups[g])
    ensures result[target].attributes == entries[target].attributes
    ensures result[target].scale.Some? ==>
      var s := result[target].scale.value;
      && 0.0 <= s.relativeY && 0.0 <= s.relativeHeight && s.relativeY + s.relativeHeight <= 1.0
      && (s.horizontal.Some? ==>
            && 0.0 <= s.horizontal.value.relativeX && 0.0 <= s.horizontal.value.relativeWidth
            && s.horizontal.value.relativeX + s.horizontal.value.relativeWidth <= 1.0)
  {
    hide font.Members, font.Measurable, font.ScaleIn, font.Divides;
    assert ScaledAs(font, groups, |groups|, target, entries[target], result[target]);
    var first := First(font, groups, |groups|, target);
    if first.Some? { font.ScaleIsRelative(groups[first.value], target); }
  }

  // ----- The same without extents -----

  /** A codepoint of a group counts through the glyph it has in the table. The one codepoint that pads the progress
      indicators, U+EDFF, has none, and counts through U+E0B0. */
  ghost predicate CountsAs(font: Font, cp: nat, target: nat) {
    || (cp in font.table && font.table[cp] == target)
    || (cp !in font.table && font.padded && cp == 0xEDFF && target == 0xE0B0)
  }

  ghost predicate IsMember(font: Font, group: seq<nat>, target: nat) {
    exists k :: 0 <= k < |group| && group[k] in font.table && font.table[group[k]] == target
  }

  ghost predicate HasBounds(font: Font, target: nat) {
    target in font.glyphs && font.glyphs[target].bounds.Some?
  }

  /** Every glyph that counts is there and has bounds. */
  ghost predicate AllThere(font: Font, group: seq<nat>) {
    forall k, target :: 0 <= k < |group| && CountsAs(font, group[k], target) ==> HasBounds(font, target)
  }

  /** The least bottom and the greatest top of what counts. */
  ghost predicate Spans(font: Font, group: seq<nat>, low: real, high: real) {
    && (forall k, t :: 0 <= k < |group| && CountsAs(font, group[k], t) && HasBounds(font, t) ==>
          low <= font.glyphs[t].bounds.value.yMin && font.glyphs[t].bounds.value.yMax <= high)
    && (exists k, t :: 0 <= k < |group| && CountsAs(font, group[k], t) && HasBounds(font, t) &&
          font.glyphs[t].bounds.value.yMin == low)
    && (exists k, t :: 0 <= k < |group| && CountsAs(font, group[k], t) && HasBounds(font, t) &&
          font.glyphs[t].bounds.value.yMax == high)
  }

  /** The leftmost left and the rightmost right of the members. */
  ghost predicate SpansAcross(font: Font, group: seq<nat>, low: real, high: real) {
    && (forall t :: IsMember(font, group, t) && HasBounds(font, t) ==>
          low <= font.glyphs[t].bounds.value.xMin && font.glyphs[t].bounds.value.xMax <= high)
    && (exists t :: IsMember(font, group, t) && HasBounds(font, t) && font.glyphs[t].bounds.value.xMin == low)
    && (exists t :: IsMember(font, group, t) && HasBounds(font, t) && font.glyphs[t].bounds.value.xMax == high)
  }

  /** More than one member, and one advance for all. */
  ghost predicate HasOneAdvance(font: Font, group: seq<nat>) {
    && (exists t, u :: t != u && IsMember(font, group, t) && IsMember(font, group, u))
    && (forall t, u :: IsMember(font, group, t) && IsMember(font, group, u) && t in font.glyphs && u in font.glyphs ==>
          font.glyphs[t].width == font.glyphs[u].width)
  }

  /** Where a glyph is in its group: its bottom and height as fractions of the height of the group, and, if the group
      has one advance, its left side and width as fractions of the width. */
  ghost predicate PlacedIn(font: Font, group: seq<nat>, b: Bounds, s: Scale) {
    && (exists low, high :: Spans(font, group, low, high) && low < high
          && b.yMin == low + s.relativeY * (high - low) && b.yMax == b.yMin + s.relativeHeight * (high - low))
    && (s.horizontal.Some? <==> HasOneAdvance(font, group))
    && (s.horizontal.Some? ==> PlacedAcross(font, group, b, s.horizontal.value))
  }

  ghost predicate PlacedAcross(font: Font, group: seq<nat>, b: Bounds, h: Horizontal) {
    exists low, high :: SpansAcross(font, group, low, high) && low < high
      && b.xMin == low + h.relativeX * (high - low) && b.xMax == b.xMin + h.relativeWidth * (high - low)
  }

  lemma AllThereIsMeasurable(font: Font, group: seq<nat>)
    ensures AllThere(font, group) <==> font.Measurable(group)
  {
    if AllThere(font, group) {
      forall k | 0 <= k < |group| ensures font.Problem(group[k]) == None {
        if font.Shown(group[k]).Some? {
          assert CountsAs(font, group[k], font.Shown(group[k]).value);
          assert HasBounds(font, font.Shown(group[k]).value);
        }
      }
    }
    if font.Measurable(group) {
      forall k, target | 0 <= k < |group| && CountsAs(font, group[k], target) ensures HasBounds(font, target) {
        assert font.Problem(group[k]) == None;
      }
    }
  }

  lemma CountsIsShown(font: Font, cp: nat, target: nat)
    ensures CountsAs(font, cp, target) <==> font.Shown(cp) == Some(target)
  {}

  lemma ExtentSpans(font: Font, group: seq<nat>)
    requires font.Measurable(group) && font.Vertical(group).Between?
    ensures Spans(font, group, font.Vertical(group).low, font.Vertical(group).high)
  {
    hide font.Vertical, font.Measurable;
    forall k, t | 0 <= k < |group| && CountsAs(font, group[k], t) && HasBounds(font, t)
      ensures font.Vertical(group).low <= font.glyphs[t].bounds.value.yMin
      ensures font.glyphs[t].bounds.value.yMax <= font.Vertical(group).high
    {
      CountsIsShown(font, group[k], t);
      font.VerticalCovers(group, k);
    }
    var bottom, top := font.VerticalIsTight(group);
    var b, t := font.Shown(group[bottom]).value, font.Shown(group[top]).value;
    assert CountsAs(font, group[bottom], b) && HasBounds(font, b);
    assert CountsAs(font, group[top], t) && HasBounds(font, t);
  }

  lemma ExtentSpansAcross(font: Font, group: seq<nat>)
    requires font.Measurable(group) && font.Horizontally(group).Between?
    ensures SpansAcross(font, group, font.Horizontally(group).low, font.Horizontally(group).high)
  {
    hide font.Horizontally, font.Measurable;
    forall t | IsMember(font, group, t) && HasBounds(font, t)
      ensures font.Horizontally(group).low <= font.glyphs[t].bounds.value.xMin
      ensures font.glyphs[t].bounds.value.xMax <= font.Horizontally(group).high
    {
      var k :| 0 <= k < |group| && group[k] in font.table && font.table[group[k]] == t;
      font.HorizontallyCovers(group, k);
    }
    var left, right := font.HorizontallyIsTight(group);
    var l, r := font.table[group[left]], font.table[group[right]];
    assert IsMember(font, group, l) && HasBounds(font, l);
    assert IsMember(font, group, r) && HasBounds(font, r);
  }

  lemma SpansOnce(font: Font, group: seq<nat>, low: real, high: real, low': real, high': real)
    requires Spans(font, group, low, high) && Spans(font, group, low', high')
    ensures low == low' && high == high'
  {}

  lemma SpansAcrossOnce(font: Font, group: seq<nat>, low: real, high: real, low': real, high': real)
    requires SpansAcross(font, group, low, high) && SpansAcross(font, group, low', high')
    ensures low == low' && high == high'
  {}

  lemma OneAdvanceIsMonospace(font: Font, group: seq<nat>)
    requires font.Measurable(group)
    ensures font.IsMonospace(group) <==> HasOneAdvance(font, group)
  {
    var members, advances := font.Members(group), font.Advances(group);
    assert forall t :: IsMember(font, group, t) <==> t in members;
    AdvancesOfMembers(font, group);
    hide font.Members, font.Advances, IsMember;
    if HasOneAdvance(font, group) {
      var t, u :| t != u && IsMember(font, group, t) && IsMember(font, group, u);
      MoreThanOne(members, t, u);
      JustOne(advances, font.glyphs[t].width);
    }
    if font.IsMonospace(group) {
      var t, u := TwoOf(members);
      forall p, q | p in members && q in members ensures font.glyphs[p].width == font.glyphs[q].width {
        OnlyOne(advances, font.glyphs[p].width, font.glyphs[q].width);
      }
    }
  }

  lemma AdvancesOfMembers(font: Font, group: seq<nat>)
    requires font.Measurable(group)
    ensures forall t :: t in font.Members(group) ==> t in font.glyphs && font.glyphs[t].width in font.Advances(group)
    ensures forall a :: a in font.Advances(group) ==>
      exists t :: t in font.Members(group) && t in font.glyphs && font.glyphs[t].width == a
  {
    forall t | t in font.Members(group) ensures t in font.glyphs && font.glyphs[t].width in font.Advances(group) {
      font.MemberHasBounds(group, t);
    }
    forall a | a in font.Advances(group)
      ensures exists t :: t in font.Members(group) && t in font.glyphs && font.glyphs[t].width == a
    {
      var k :| 0 <= k < |group| && group[k] in font.table &&
               (assert font.Problem(group[k]) == None; font.glyphs[font.table[group[k]]].width) == a;
      assert font.table[group[k]] in font.Members(group);
    }
  }

  lemma MoreThanOne<T>(s: set<T>, t: T, u: T)
    requires t in s && u in s && t != u
    ensures |s| > 1
  {
    assert s - {t} - {u} == s - {t, u} && |s - {t}| == |s| - 1 && |s - {t} - {u}| == |s| - 2;
  }

  lemma TwoOf<T>(s: set<T>) returns (t: T, u: T)
    requires |s| > 1
    ensures t in s && u in s && t != u
  {
    t :| t in s;
    assert |s - {t}| == |s| - 1;
    u :| u in s - {t};
  }

  lemma JustOne<T>(s: set<T>, t: T)
    requires t in s && forall u :: u in s ==> u == t
    ensures |s| == 1
  {
    assert s == {t};
  }

  lemma OnlyOne<T>(s: set<T>, t: T, u: T)
    requires |s| == 1 && t in s && u in s
    ensures t == u
  {
    if t != u { MoreThanOne(s, t, u); }
  }

  /** What a group makes of a member is its place in it. */
  lemma ScaleIsPlace(font: Font, group: seq<nat>, target: nat)
    requires font.Measurable(group) && target in font.Members(group) && font.Divides(group)
    ensures HasBounds(font, target)
    ensures PlacedIn(font, group, font.glyphs[target].bounds.value, font.ScaleIn(group, target))
  {
    hide Spans, SpansAcross, HasOneAdvance;
    hide font.Members, font.Measurable, font.Vertical, font.Horizontally, font.ScaleIn, font.IsMonospace;
    font.MemberHasBounds(group, target);
    font.ExtentsCover(group, target);
    ExtentSpans(font, group);
    ExtentSpansAcross(font, group);
    OneAdvanceIsMonospace(font, group);
    var y, x := font.Vertical(group), font.Horizontally(group);
    var b, s := font.glyphs[target].bounds.value, font.ScaleIn(group, target);
    assert y.low < y.high && (font.IsMonospace(group) ==> x.low < x.high);
    font.ScaleRestoresBounds(group, target);
    hide *;
    PlacedBy(font, group, b, s, y.low, y.high, x.low, x.high);
  }

  lemma PlacedBy(font: Font, group: seq<nat>, b: Bounds, s: Scale, bottom: real, top: real, left: real, right: real)
    requires Spans(font, group, bottom, top) && bottom < top && SpansAcross(font, group, left, right)
    requires b.yMin == bottom + s.relativeY * (top - bottom) && b.yMax == b.yMin + s.relativeHeight * (top - bottom)
    requires s.horizontal.Some? <==> HasOneAdvance(font, group)
    requires s.horizontal.Some? ==>
      && left < right
      && b.xMin == left + s.horizontal.value.relativeX * (right - left)
      && b.xMax == b.xMin + s.horizontal.value.relativeWidth * (right - left)
    ensures PlacedIn(font, group, b, s)
  {
    hide Spans, SpansAcross, HasOneAdvance;
  }

  /** What scaling makes of an entry: it keeps a scale it came with, and otherwise gets its place in the first group
      with its glyph, if there is one. */
  ghost predicate IsPlaced<A>(font: Font, groups: seq<seq<nat>>, target: nat, before: Entry<A>, after: Entry<A>) {
    && after.attributes == before.attributes
    && (before.scale.Some? ==> after.scale == before.scale)
    && (before.scale.None? ==>
          && (after.scale.None? <==> forall g :: 0 <= g < |groups| ==> !IsMember(font, groups[g], target))
          && (after.scale.Some? ==> PlacedInFirst(font, groups, target, after.scale.value)))
  }

  ghost predicate PlacedInFirst(font: Font, groups: seq<seq<nat>>, target: nat, s: Scale) {
    && HasBounds(font, target)
    && exists g :: IsFirst(font, groups, g, target) && PlacedIn(font, groups[g], font.glyphs[target].bounds.value, s)
  }

  ghost predicate IsFirst(font: Font, groups: seq<seq<nat>>, g: int, target: nat) {
    && 0 <= g < |groups| && IsMember(font, groups[g], target)
    && forall h :: 0 <= h < g ==> !IsMember(font, groups[h], target)
  }

  /** All glyphs are there, and what some entry is to be placed in has a height, and a width if it has one advance. */
  ghost predicate CanBePlaced<A>(font: Font, groups: seq<seq<nat>>, entries: map<nat, Entry<A>>) {
    && (forall g :: 0 <= g < |groups| ==> AllThere(font, groups[g]))
    && (forall g, t :: 0 <= g < |groups| && t in entries && entries[t].scale.None? && IsFirst(font, groups, g, t) ==>
          HasSize(font, groups[g]))
  }

  ghost predicate HasSize(font: Font, group: seq<nat>) {
    && (exists low, high :: Spans(font, group, low, high) && low < high)
    && (HasOneAdvance(font, group) ==> exists low, high :: SpansAcross(font, group, low, high) && low < high)
  }

  lemma MemberIs(font: Font, group: seq<nat>, target: nat)
    ensures IsMember(font, group, target) <==> target in font.Members(group)
  {}

  lemma SizeDivides(font: Font, group: seq<nat>, target: nat)
    requires font.Measurable(group) && IsMember(font, group, target)
    ensures HasSize(font, group) <==> font.Divides(group)
  {
    hide Spans, SpansAcross, HasOneAdvance, font.Members, font.Measurable, font.Vertical, font.Horizontally,
         font.IsMonospace, IsMember;
    MemberIs(font, group, target);
    font.MemberHasBounds(group, target);
    font.ExtentsCover(group, target);
    ExtentSpans(font, group);
    ExtentSpansAcross(font, group);
    OneAdvanceIsMonospace(font, group);
    var y, x := font.Vertical(group), font.Horizontally(group);
    assert y.low <= y.high && x.low <= x.high;
    forall low, high | Spans(font, group, low, high) ensures low == y.low && high == y.high {
      SpansOnce(font, group, low, high, y.low, y.high);
    }
    forall low, high | SpansAcross(font, group, low, high) ensures low == x.low && high == x.high {
      SpansAcrossOnce(font, group, low, high, x.low, x.high);
    }
  }

  lemma FirstIs(font: Font, groups: seq<seq<nat>>, n: nat, target: nat)
    requires n <= |groups|
    ensures forall g :: First(font, groups, n, target) == Some(g) <==> g < n && IsFirst(font, groups, g, target)
    ensures First(font, groups, n, target) == None <==> forall g :: 0 <= g < n ==> !IsMember(font, groups[g], target)
  {
    assert forall g :: 0 <= g < |groups| ==>
      (IsMember(font, groups[g], target) <==> target in font.Members(groups[g])) by {
      forall g | 0 <= g < |groups| ensures IsMember(font, groups[g], target) <==> target in font.Members(groups[g]) {
        MemberIs(font, groups[g], target);
      }
    }
    hide font.Members, IsMember;
  }

  lemma AppliedIsPlaced<A>(font: Font, groups: seq<seq<nat>>, entries: map<nat, Entry<A>>, result: map<nat, Entry<A>>)
    requires Applied(font, groups, |groups|, entries, result)
    ensures result.Keys == entries.Keys
    ensures forall t :: t in entries ==> IsPlaced(font, groups, t, entries[t], result[t])
  {
    hide PlacedIn, IsFirst, IsMember, First, font.Members, font.Measurable, font.ScaleIn, font.Divides;
    forall t | t in entries ensures IsPlaced(font, groups, t, entries[t], result[t]) {
      assert ScaledAs(font, groups, |groups|, t, entries[t], result[t]);
      FirstIs(font, groups, |groups|, t);
      var first := First(font, groups, |groups|, t);
      if entries[t].scale.None? && first.Some? {
        assert IsFirst(font, groups, first.value, t);
        FirstIsMember(font, groups, first.value, t);
        ScaleIsPlace(font, groups[first.value], t);
      }
    }
  }

  lemma FirstIsMember(font: Font, groups: seq<seq<nat>>, g: int, target: nat)
    requires IsFirst(font, groups, g, target)
    ensures 0 <= g < |groups| && IsMember(font, groups[g], target) && target in font.Members(groups[g])
  {
    MemberIs(font, groups[g], target);
  }

  lemma ApplicableIsPlaceable<A>(font: Font, groups: seq<seq<nat>>, entries: map<nat, Entry<A>>)
    ensures Applicable(font, groups, |groups|, entries) <==> CanBePlaced(font, groups, entries)
  {
    hide HasSize, AllThere, IsMember, IsFirst, First, font.Members, font.Measurable, font.Divides, ClaimedFirst;
    if Applicable(font, groups, |groups|, entries) {
      forall g | 0 <= g < |groups| ensures AllThere(font, groups[g]) {
        AllThereIsMeasurable(font, groups[g]);
      }
      forall g, t | 0 <= g < |groups| && t in entries && entries[t].scale.None? && IsFirst(font, groups, g, t)
        ensures HasSize(font, groups[g])
      {
        FirstIsMember(font, groups, g, t);
        ClaimedFirstIs(font, groups, g, entries, t);
        SizeDivides(font, groups[g], t);
      }
    }
    if CanBePlaced(font, groups, entries) {
      forall g | 0 <= g < |groups|
        ensures font.Measurable(groups[g])
        ensures font.Divides(groups[g]) || forall t :: !ClaimedFirst(font, groups, g, entries, t)
      {
        AllThereIsMeasurable(font, groups[g]);
        if t :| ClaimedFirst(font, groups, g, entries, t) {
          ClaimedFirstIs(font, groups, g, entries, t);
          FirstIsMember(font, groups, g, t);
          SizeDivides(font, groups[g], t);
        }
      }
    }
  }

  lemma ClaimedFirstIs<A>(font: Font, groups: seq<seq<nat>>, g: nat, entries: map<nat, Entry<A>>, target: nat)
    requires g < |groups|
    ensures ClaimedFirst(font, groups, g, entries, target) <==>
            target in entries && entries[target].scale.None? && IsFirst(font, groups, g, target)
  {
    MemberIs(font, groups[g], target);
    FirstIs(font, groups, g, target);
    hide First, font.Members, IsMember;
  }

  /** What an error says: a glyph that counts is missing, or has no bounds, or an entry is first placed in a group
      without a size. */
  ghost predicate IsScaleError<A>(font: Font, groups: seq<seq<nat>>, entries: map<nat, Entry<A>>, error: Error) {
    match error
    case NoGlyph(target) => IsCounted(font, groups, target) && target !in font.glyphs
    case NoBounds(target) =>
      IsCounted(font, groups, target) && target in font.glyphs && font.glyphs[target].bounds.None?
    case DivisionByZero =>
      exists g, t :: 0 <= g < |groups| && t in entries && entries[t].scale.None? && IsFirst(font, groups, g, t)
                     && !HasSize(font, groups[g])
  }

  ghost predicate IsCounted(font: Font, groups: seq<seq<nat>>, target: nat) {
    exists g, k :: 0 <= g < |groups| && 0 <= k < |groups[g]| && CountsAs(font, groups[g][k], target)
  }

  lemma ProblemIsError<A>(font: Font, groups: seq<seq<nat>>, entries: map<nat, Entry<A>>, g: nat, error: Error)
    requires g < |groups| && exists k :: 0 <= k < |groups[g]| && font.Problem(groups[g][k]) == Some(error)
    ensures IsScaleError(font, groups, entries, error)
  {
    var k :| 0 <= k < |groups[g]| && font.Problem(groups[g][k]) == Some(error);
    assert CountsAs(font, groups[g][k], font.Shown(groups[g][k]).value);
  }

  lemma NoSizeIsError<A>(font: Font, groups: seq<seq<nat>>, entries: map<nat, Entry<A>>, g: nat)
    requires g < |groups| && font.Measurable(groups[g]) && !font.Divides(groups[g])
    requires exists t :: ClaimedFirst(font, groups, g, entries, t)
    ensures IsScaleError(font, groups, entries, DivisionByZero)
  {
    hide HasSize, IsMember, IsFirst, First, font.Members, font.Measurable, font.Divides, ClaimedFirst;
    var t :| ClaimedFirst(font, groups, g, entries, t);
    ClaimedFirstIs(font, groups, g, entries, t);
    FirstIsMember(font, groups, g, t);
    SizeDivides(font, groups[g], t);
  }
}
