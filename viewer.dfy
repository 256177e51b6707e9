/** The font viewer's view state: the family filter, the pinned families, the rows to show,
    and the message dispatcher that updates them one event at a time. Widget layout and
    rendering are not modelled. */
module Viewer {
  import opened Optional
  import opened SeqOps
  import opened Text
  import opened FontWeight
  import IcedFont
  import opened FontManager

  /** The GUI events the viewer reacts to. `TextSizeChanged` carries an `f32`, kept as a `real`. */
  datatype Message =
    | TextChanged(text: string)
    | WeightChanged(weight: FVWeight)
    | TextSizeChanged(size: real)
    | FontFamilyFilterChanged(filter: string)
    | Pin(id: nat)
    | HideUnpin(hide: bool)
    | UpdateShownFontFamily

  /** The fields of a viewer that messages change, as one value. */
  datatype ViewState = ViewState(
    text: string,
    weight: FVWeight,
    textSize: real,
    filter: string,
    pinned: seq<nat>,
    pattern: seq<string>,
    hideUnpin: bool,
    shown: seq<nat>)

  // ----- The family filter -----

  /** A family is a target when there are no patterns or one of them occurs in its name
      (case-sensitive substring; the empty pattern occurs in every name). */
  ghost predicate Matches(patterns: seq<string>, family: string) {
    |patterns| == 0 || exists k :: 0 <= k < |patterns| && Occurs(patterns[k], family)
  }

  /** An empty alternative matches every family. */
  lemma EmptyAlternativeMatchesAll(patterns: seq<string>, family: string)
    requires "" in patterns
    ensures Matches(patterns, family)
  {
    var k :| 0 <= k < |patterns| && patterns[k] == "";
    assert OccursAt("", family, 0);
  }

  /** A filter that ends with the delimiter, such as "Aria|", matches every family: its last
      alternative is empty. */
  lemma TrailingBarMatchesAll(filter: string, family: string)
    requires |filter| > 0 && filter[|filter| - 1] == Bar
    ensures Matches(Split(filter), family)
  {
    FrontLast(filter);
    SplitSnoc(filter[..|filter| - 1], Bar);
    var parts := Split(filter);
    assert parts[|parts| - 1] == "";
    EmptyAlternativeMatchesAll(parts, family);
  }

  /** The pattern list is the compiled filter, or still empty before the first filter change. */
  ghost predicate CompiledFrom(pattern: seq<string>, filter: string) {
    pattern == Split(filter) || (pattern == [] && filter == "")
  }

  /** Whichever of the two, the pattern list selects the families that contain one of the
      filter's alternatives. */
  lemma PatternAgreesWithFilter(pattern: seq<string>, filter: string, family: string)
    requires CompiledFrom(pattern, filter)
    ensures Matches(pattern, family) <==> Matches(Split(filter), family)
  {
    if pattern != Split(filter) {
      FrontLast([""]);
      assert Split("") == [""];
      EmptyAlternativeMatchesAll(Split(""), family);
    }
  }

  /** The indices of the registry whose names match, ascending. */
  ghost function MatchingIndices(families: seq<string>, patterns: seq<string>): (r: seq<nat>)
    ensures StrictlySorted(NatLe, r)
    ensures forall k :: 0 <= k < |r| ==> r[k] < |families|
    ensures forall i: nat :: i in r <==> i < |families| && Matches(patterns, families[i])
  {
    if |families| == 0 then []
    else
      var n := |families| - 1;
      var init := families[..n];
      assert forall i :: 0 <= i < n ==> init[i] == families[i];
      MatchingIndices(init, patterns) + (if Matches(patterns, families[n]) then [n] else [])
  }

  /** What `UpdateShownFontFamily` promises about the rows it computes from state `s`: without
      hide-unpinned, the matching indices in ascending order; with it, each matching pinned
      index exactly once, in no particular order (the rows come out of a hash set). */
  ghost predicate ShownRows(s: ViewState, families: seq<string>, rows: seq<nat>) {
    if !s.hideUnpin then rows == MatchingIndices(families, s.pattern)
    else
      && NoDuplicates(rows)
      && forall i :: i in rows <==> i in MatchingIndices(families, s.pattern) && i in s.pinned
  }

  /** Every row is a registry index whose name matches, and no row repeats. */
  lemma ShownRowsAreMatchingIndices(s: ViewState, families: seq<string>, rows: seq<nat>)
    requires ShownRows(s, families, rows)
    ensures NoDuplicates(rows)
    ensures forall i :: i in rows ==> i < |families| && Matches(s.pattern, families[i])
  {
  }

  /** With hide-unpinned on and nothing pinned, no row is shown, whatever the filter. */
  lemma HideUnpinnedWithoutPinsShowsNothing(s: ViewState, families: seq<string>, rows: seq<nat>)
    requires s.hideUnpin && s.pinned == []
    requires ShownRows(s, families, rows)
    ensures rows == []
  {
    HeadIsMember(rows);
  }

  // ----- Pinning -----

  /** `Pin(id)` on the pinned list: drop every occurrence of a pinned `id`; otherwise push it,
      sort and deduplicate. */
  function TogglePinned(pinned: seq<nat>, id: nat): (r: seq<nat>)
    ensures id in pinned ==> multiset(r) == multiset(pinned)[id := 0]
    ensures id !in pinned ==> StrictlySorted(NatLe, r)
    ensures id !in pinned ==> forall x :: x in r <==> x in pinned || x == id
  {
    if id in pinned then RemoveAll(pinned, id)
    else
      SortDedupMembers(NatLe, pinned + [id]);
      NatLeIsTotalOrder();
      SortSorted(NatLe, pinned + [id]);
      DedupStrictlySorted(NatLe, Sort(NatLe, pinned + [id]));
      Dedup(Sort(NatLe, pinned + [id]))
  }

  /** Toggling flips the membership of `id` and of nothing else. */
  lemma TogglePinnedMembers(pinned: seq<nat>, id: nat)
    ensures id in TogglePinned(pinned, id) <==> id !in pinned
    ensures forall x :: x != id ==> (x in TogglePinned(pinned, id) <==> x in pinned)
  {
    var r := TogglePinned(pinned, id);
    if id in pinned {
      assert forall x :: x in r <==> x in multiset(r);
      assert forall x :: x in pinned <==> x in multiset(pinned);
    }
  }

  /** Toggling a strictly ascending list leaves it strictly ascending; inserting does so
      from any list. */
  lemma TogglePinnedAscending(pinned: seq<nat>, id: nat)
    ensures id !in pinned ==> StrictlySorted(NatLe, TogglePinned(pinned, id))
    ensures StrictlySorted(NatLe, pinned) ==> StrictlySorted(NatLe, TogglePinned(pinned, id))
  {
    NatLeIsTotalOrder();
    if id in pinned {
      if StrictlySorted(NatLe, pinned) {
        RemoveAllStrictlySorted(NatLe, pinned, id);
      }
    } else {
      SortSorted(NatLe, pinned + [id]);
      DedupStrictlySorted(NatLe, Sort(NatLe, pinned + [id]));
    }
  }

  /** Pinning the same family twice restores the pinned list. */
  lemma TogglePinnedTwice(pinned: seq<nat>, id: nat)
    requires StrictlySorted(NatLe, pinned)
    ensures TogglePinned(TogglePinned(pinned, id), id) == pinned
  {
    var once := TogglePinned(pinned, id);
    var twice := TogglePinned(once, id);
    TogglePinnedMembers(pinned, id);
    TogglePinnedMembers(once, id);
    TogglePinnedAscending(pinned, id);
    TogglePinnedAscending(once, id);
    NatLeIsTotalOrder();
    StrictlySortedUnique(NatLe, twice, pinned);
  }

  /** Both lists turned into hash sets, intersected and collected: each common element once,
      in an order the model leaves open (a hash set's iteration order). */
  method HashSetIntersection(a: seq<nat>, b: seq<nat>) returns (rows: seq<nat>)
    ensures NoDuplicates(rows)
    ensures forall i :: i in rows <==> i in a && i in b
  {
    var left := set i | i in a;
    var right := set i | i in b;
    var remaining := left * right;
    rows := [];
    while remaining != {}
      invariant remaining <= left * right
      invariant NoDuplicates(rows)
      invariant forall i :: i in rows <==> i in left * right && i !in remaining
      decreases |remaining|
    {
      var i :| i in remaining;
      rows := rows + [i];
      remaining := remaining - {i};
    }
  }

  // ----- The viewer -----

  class FontViewer {
    var text: string
    var weight: FVWeight
    var textSize: real
    var fontFamilyFilter: string
    /** The registry's list, shared and never changed. */
    const fontFamilies: seq<string>
    var pinned: seq<nat>
    var fontFamilyFilterPattern: seq<string>
    var hideUnpin: bool
    var shownFamily: seq<nat>

    ghost function State(): ViewState
      reads this
    {
      ViewState(text, weight, textSize, fontFamilyFilter, pinned, fontFamilyFilterPattern,
        hideUnpin, shownFamily)
    }

    ghost predicate Valid()
      reads this
    {
      && StrictlySorted(NatLe, pinned)
      && CompiledFrom(fontFamilyFilterPattern, fontFamilyFilter)
      && NoDuplicates(shownFamily)
      && forall i :: i in shownFamily ==> i < |fontFamilies|
    }

    constructor (families: seq<string>, defaultWeight: IcedFont.Weight)
      ensures Valid()
      ensures fontFamilies == families
      ensures State() == ViewState("ABC123", FromWeight(defaultWeight), 12.0, "", [], [], false, [])
    {
      text := "ABC123";
      weight := FromWeight(defaultWeight);
      textSize := 12.0;
      fontFamilyFilter := "";
      fontFamilies := families;
      pinned := [];
      fontFamilyFilterPattern := [];
      hideUnpin := false;
      shownFamily := [];
    }

    /** `FontViewer::new`: the initial state over the registry's list, and the task that asks
        for the first row computation. The toolkit's default weight is a parameter. */
    static method New(registry: FontRegistry, query: Option<seq<Face>>, defaultWeight: IcedFont.Weight)
      returns (viewer: FontViewer, task: Option<Message>)
      requires registry.Valid()
      modifies registry
      ensures registry.Valid() && fresh(viewer) && viewer.Valid()
      ensures registry.cache == Some(viewer.fontFamilies)
      ensures old(registry.cache).Some? ==> viewer.fontFamilies == old(registry.cache).value
      ensures old(registry.cache).None? ==>
        forall n :: n in viewer.fontFamilies <==> query.Some? && IsPrimaryFamily(query.value, n)
      ensures StrictlySorted(LexLe, viewer.fontFamilies)
      ensures viewer.State() == ViewState("ABC123", FromWeight(defaultWeight), 12.0, "", [], [], false, [])
      ensures task == Some(UpdateShownFontFamily)
    {
      var families := registry.GetGlobalFontList(query);
      viewer := new FontViewer(families, defaultWeight);
      task := Some(UpdateShownFontFamily);
    }

    /** `compile_font_family_filter`: the pattern list becomes the filter split at `|`. */
    method CompileFontFamilyFilter()
      modifies this`fontFamilyFilterPattern
      ensures fontFamilyFilterPattern == Split(fontFamilyFilter)
    {
      fontFamilyFilterPattern := Split(fontFamilyFilter);
    }

    /** `is_target_font_family`: true at once without patterns, else at the first pattern
        that occurs in `family`. */
    method IsTargetFontFamily(family: string) returns (b: bool)
      ensures b <==> Matches(fontFamilyFilterPattern, family)
    {
      if |fontFamilyFilterPattern| == 0 {
        return true;
      }
      for k := 0 to |fontFamilyFilterPattern|
        invariant forall j :: 0 <= j < k ==> !Occurs(fontFamilyFilterPattern[j], family)
      {
        ContainsIsOccurs(family, fontFamilyFilterPattern[k]);
        if Contains(family, fontFamilyFilterPattern[k]) {
          return true;
        }
      }
      return false;
    }

    /** The `Pin(id)` arm of `update`. */
    method PinToggle(id: nat)
      requires Valid()
      modifies this`pinned
      ensures Valid()
      ensures pinned == TogglePinned(old(pinned), id)
    {
      TogglePinnedAscending(pinned, id);
      if id in pinned {
        pinned := RemoveAll(pinned, id);
      } else {
        pinned := pinned + [id];
        pinned := Sort(NatLe, pinned);
        pinned := Dedup(pinned);
      }
    }

    /** The registry indices whose names pass `is_target_font_family`, in registry order
        (`enumerate().filter(..).map(..).collect()`). */
    method MatchingFamilies() returns (shown: seq<nat>)
      ensures shown == MatchingIndices(fontFamilies, fontFamilyFilterPattern)
    {
      shown := [];
      for i := 0 to |fontFamilies|
        invariant shown == MatchingIndices(fontFamilies[..i], fontFamilyFilterPattern)
      {
        assert fontFamilies[..i + 1][..i] == fontFamilies[..i];
        var hit := IsTargetFontFamily(fontFamilies[i]);
        if hit {
          shown := shown + [i];
        }
      }
      assert fontFamilies[..|fontFamilies|] == fontFamilies;
    }

    /** The `UpdateShownFontFamily` arm of `update`: the matching indices in registry order,
        then, with hide-unpinned, their intersection with the pinned ones. */
    method RefreshShownFamily()
      requires Valid()
      modifies this`shownFamily
      ensures Valid()
      ensures ShownRows(old(State()), fontFamilies, shownFamily)
    {
      shownFamily := MatchingFamilies();
      if hideUnpin {
        shownFamily := HashSetIntersection(shownFamily, pinned);
      }
    }

    /** `update`: each message changes its own fields only; the three that affect the rows
        return the follow-up `UpdateShownFontFamily`, the others no task. */
    method Update(message: Message) returns (task: Option<Message>)
      requires Valid()
      modifies this
      ensures Valid()
      ensures task == if message.FontFamilyFilterChanged? || message.Pin? || message.HideUnpin?
        then Some(UpdateShownFontFamily) else None
      ensures match message
        case TextChanged(t) => State() == old(State()).(text := t)
        case WeightChanged(w) => State() == old(State()).(weight := w)
        case TextSizeChanged(z) => State() == old(State()).(textSize := z)
        case FontFamilyFilterChanged(f) => State() == old(State()).(filter := f, pattern := Split(f))
        case Pin(id) => State() == old(State()).(pinned := TogglePinned(old(pinned), id))
        case HideUnpin(h) => State() == old(State()).(hideUnpin := h)
        case UpdateShownFontFamily =>
          && State() == old(State()).(shown := shownFamily)
          && ShownRows(old(State()), fontFamilies, shownFamily)
    {
      match message {
        case TextChanged(t) =>
          text := t;
        case WeightChanged(w) =>
          weight := w;
        case TextSizeChanged(z) =>
          textSize := z;
        case FontFamilyFilterChanged(f) =>
          fontFamilyFilter := f;
          CompileFontFamilyFilter();
          return Some(UpdateShownFontFamily);
        case Pin(id) =>
          PinToggle(id);
          return Some(UpdateShownFontFamily);
        case HideUnpin(h) =>
          hideUnpin := h;
          return Some(UpdateShownFontFamily);
        case UpdateShownFontFamily =>
          RefreshShownFamily();
      }
      return None;
    }
  }
}
