/** The closure of github-collapse-markdown.js as an object: the heading-id
    table (`headingIndex`, `usedHeadings`, `headingsMap`), the collapsed
    signatures, the colour palette and the flat markdown body whose class
    flags the operations change in place. Every operation that changes state is
    proved against its pure counterpart in `CollapseSpec`; the read-only search
    `FirstCollapsedHeading` states its result directly. */
module CollapseMarkdown {
  import opened Strings
  import opened Wrappers
  import opened CollapseSpec

  class CollapseState {
    var headingIndex: int
    var usedHeadings: set<string>
    var headingsMap: map<string, int>
    var collapsedHeadings: map<string, bool>
    var colors: Option<seq<string>>
    var body: seq<Element>

    /** The heading-id table as a value. */
    function IdTable(): Table
      reads this
    {
      Table(headingsMap, usedHeadings, headingIndex)
    }

    /** The table, the collapsed signatures and the body as a value. */
    function PageOf(): Page
      reads this
    {
      Page(IdTable(), collapsedHeadings, body)
    }

    /** The counter covers every index, so the next index issued is fresh. */
    ghost predicate Covering()
      reads this
    {
      CounterCovers(headingsMap, headingIndex)
    }

    /** The counter covers every index and no two ids share one. */
    ghost predicate Valid()
      reads this
    {
      Covering() && Injective(headingsMap)
    }

    /** The state when the script starts on a page. */
    constructor (page: seq<Element>)
      ensures headingIndex == 0 && usedHeadings == {} && headingsMap == map[] && collapsedHeadings == map[]
      ensures colors == Some(DefaultColors) && body == page
      ensures Valid()
    {
      headingIndex := 0;
      usedHeadings := {};
      headingsMap := map[];
      collapsedHeadings := map[];
      colors := Some(DefaultColors);
      body := page;
    }

    /** `adjustHeadingIndex()`: the counter becomes the maximum of 0 and every
        index in the map, whatever order the keys are visited in. */
    method AdjustHeadingIndex()
      modifies this`headingIndex
      ensures headingIndex == MaxIndex(headingsMap)
    {
      headingIndex := 0;
      var rest := headingsMap.Keys;
      while rest != {}
        invariant rest <= headingsMap.Keys
        invariant IsMaxIndex(headingsMap - rest, headingIndex)
        decreases |rest|
      {
        var id :| id in rest;
        ghost var seen := headingsMap - rest;
        MaxIndexStep(seen, id, headingsMap[id], headingIndex);
        if headingIndex < headingsMap[id] {
          headingIndex := headingsMap[id];
        }
        rest := rest - {id};
        assert headingsMap - rest == seen[id := headingsMap[id]];
      }
      assert headingsMap - rest == headingsMap;
      MaxIndexUnique(headingsMap, headingIndex, MaxIndex(headingsMap));
    }

    /** `getHeaderIndex(id)`, which keeps the table valid. */
    method GetHeaderIndex(id: string) returns (index: int)
      modifies this`usedHeadings, this`headingsMap, this`headingIndex
      ensures (IdTable(), index) == Issue(old(IdTable()), id)
      ensures old(Covering()) ==> Covering()
      ensures old(Valid()) ==> Valid()
    {
      ghost var t := IdTable();
      usedHeadings := usedHeadings + {id};
      if id in headingsMap {
        return headingsMap[id];
      }
      headingIndex := headingIndex + 1;
      headingsMap := headingsMap[id := headingIndex];
      index := headingIndex;
      if CounterCovers(t.headingsMap, t.headingIndex) && Injective(t.headingsMap) {
        IssueKeepsInjective(t, id);
      }
    }

    /** `saveCollapsedState()`: the map keeps the used ids with a non-zero
        index, the counter is adjusted to it, and the state object handed to
        the host is returned. */
    method SaveCollapsedState() returns (saved: StoredState)
      modifies this`headingsMap, this`headingIndex
      ensures IdTable() == SavedTable(old(IdTable()))
      ensures saved == SavedRecord(headingsMap, collapsedHeadings)
      ensures Covering()
      ensures old(Valid()) ==> Valid()
    {
      ghost var before := headingIndex;
      ghost var oldMap := headingsMap;
      var newMap := PrunedHeadings();
      headingsMap := newMap;
      AdjustHeadingIndex();
      saved := SavedRecord(headingsMap, collapsedHeadings);
      if old(Valid()) {
        PruneLowersCounter(oldMap, usedHeadings, before, headingIndex);
      }
    }

    /** The pruning loop of `saveCollapsedState()`: visits the keys of the map
        in any order and keeps each used id whose index is not zero. */
    method PrunedHeadings() returns (newMap: map<string, int>)
      ensures newMap == Pruned(headingsMap, usedHeadings)
    {
      newMap := map[];
      var rest := headingsMap.Keys;
      while rest != {}
        invariant rest <= headingsMap.Keys
        invariant newMap == Pruned(headingsMap - rest, usedHeadings)
        decreases |rest|
      {
        var id :| id in rest;
        PrunedStep(headingsMap, rest, usedHeadings, id);
        if headingsMap[id] != 0 && IsUsed(usedHeadings, id) {
          newMap := newMap[id := headingsMap[id]];
        }
        rest := rest - {id};
      }
      assert headingsMap - rest == headingsMap;
    }

    /** `loadCollapsedState()`, with the host's answer to `getState` passed
        in. */
    method LoadCollapsedState(state: Option<StoredState>)
      modifies this`headingsMap, this`collapsedHeadings, this`headingIndex
      ensures (IdTable(), collapsedHeadings) == Loaded(state, usedHeadings)
      ensures Covering()
    {
      if state.Some? && state.value.headingsMap.Some? && state.value.collapsedHeadings.Some? {
        headingsMap := state.value.headingsMap.value;
        match state.value.collapsedHeadings.value {
          case CollapsedObject(entries) =>
            collapsedHeadings := entries;
          case CollapsedArray =>
            collapsedHeadings := map[];
        }
        AdjustHeadingIndex();
      } else {
        headingsMap := map[];
        collapsedHeadings := map[];
        headingIndex := 0;
      }
    }

    /** `headerIds(el)` for the element at position `i`: walks back from `i`,
        recording each heading of lower level than the last one recorded, and
        stops after an H1 or at the start of the body. */
    method HeaderIds(i: nat) returns (signature: string)
      requires i < |body|
      modifies this`usedHeadings, this`headingsMap, this`headingIndex
      ensures (IdTable(), signature) == HeaderIdsOf(old(IdTable()), body, i)
      ensures old(Covering()) ==> Covering()
      ensures old(Valid()) ==> Valid()
    {
      ghost var t0 := IdTable();
      if !IsHeading(body[i]) {
        // The selector is empty: every `matches` throws inside the try.
        return "";
      }
      if Covering() {
        WalkKeepsValid(t0, body, i, body[i].kind.level, []);
      }
      ghost var w := Walk(t0, body, i, body[i].kind.level, []);
      var lim: int := body[i].kind.level;
      var headers: seq<string> := [];
      var j: int := i;
      while j >= 0
        invariant -1 <= j < |body|
        invariant w == Walk(IdTable(), body, j, lim, headers)
        decreases j + 1
      {
        if MatchesUpTo(body[j], lim) {
          var part := HeaderPart(j);
          headers := headers + [part];
          if body[j].kind.level == 1 {
            break;
          }
          lim := body[j].kind.level - 1;
        }
        j := j - 1;
      }
      signature := JoinDash(Reverse(headers));
    }

    /** The header `headerIds` pushes for the matching heading at `j`, asking
        `getHeaderIndex` for the index when the heading has an id. */
    method HeaderPart(j: nat) returns (part: string)
      requires j < |body| && IsHeading(body[j])
      modifies this`usedHeadings, this`headingsMap, this`headingIndex
      ensures (IdTable(), part) == Step(old(IdTable()), body[j])
    {
      if body[j].id != "" {
        var index := GetHeaderIndex(body[j].id);
        part := NodeName(body[j].kind.level) + "-" + IntToString(index);
      } else {
        part := NodeName(body[j].kind.level) + "-" + "undef";
      }
    }

    /** `nextHeader(el, level, isCollapsed)` with `el` at position `i`. */
    method NextHeader(i: nat, level: int, isCollapsed: bool)
      requires i < |body| && 1 <= level
      modifies this`body, this`usedHeadings, this`headingsMap, this`headingIndex, this`collapsedHeadings
      ensures PageOf() == NextHeaderOf(old(PageOf()), i, level, isCollapsed)
      ensures old(Covering()) ==> Covering()
      ensures old(Valid()) ==> Valid()
    {
      ghost var p := PageOf();
      body := body[i := body[i].(collapsed := isCollapsed)];
      var ids := HeaderIds(i);
      collapsedHeadings := collapsedHeadings[ids := isCollapsed];
      ghost var b1 := body;
      var e := FindSectionEnd(i, level);
      if e > i + 1 {
        if isCollapsed {
          HideSection(i, e);
        } else {
          UnhideSection(i, e);
        }
      } else {
        assert Collapse(b1, i, e) == b1 && Expand(b1, i, e) == b1;
      }
    }

    /** The siblings `nextHeader` collects after the heading at `i`: it steps
        forward until the next heading of level at most `level` or the end of
        the body, and returns where it stopped. */
    method FindSectionEnd(i: nat, level: int) returns (e: nat)
      requires i < |body|
      ensures i < e <= |body|
      ensures forall k :: i < k < e ==> !MatchesUpTo(body[k], level)
      ensures e < |body| ==> MatchesUpTo(body[e], level)
      ensures e == SectionEnd(body, i, level)
    {
      e := i + 1;
      while e < |body| && !MatchesUpTo(body[e], level)
        invariant i + 1 <= e <= |body|
        invariant forall k :: i < k < e ==> !MatchesUpTo(body[k], level)
        decreases |body| - e
      {
        e := e + 1;
      }
      SectionEndFromStop(body, i + 1, e, level);
    }

    /** The `els.forEach` that adds `ghcm-hidden` to the section `lo + 1 ..
        hi - 1`. */
    method HideSection(lo: nat, hi: nat)
      requires lo < hi <= |body|
      modifies this`body
      ensures body == Collapse(old(body), lo, hi)
    {
      ghost var b0 := body;
      var k := lo + 1;
      while k < hi
        invariant lo + 1 <= k <= hi
        invariant body == Collapse(b0, lo, k)
        decreases hi - k
      {
        body := body[k := body[k].(hidden := true)];
        k := k + 1;
      }
    }

    /** The `els.forEach` of an expand over the section `lo + 1 .. hi - 1`:
        `currentCollapsed` starts false (the heading at `lo` has just been
        expanded) and follows the collapsed flag of each heading met. */
    method UnhideSection(lo: nat, hi: nat)
      requires lo < hi <= |body|
      modifies this`body
      ensures body == Expand(old(body), lo, hi)
    {
      ghost var b0 := body;
      var currentCollapsed := false;
      var k := lo + 1;
      while k < hi
        invariant lo + 1 <= k <= hi
        invariant currentCollapsed == Governing(b0, lo, k)
        invariant body == Expand(b0, lo, k)
        decreases hi - k
      {
        if IsHeading(body[k]) {
          currentCollapsed := body[k].collapsed;
          body := body[k := body[k].(hidden := false)];
        } else if !currentCollapsed {
          body := body[k := body[k].(hidden := false)];
        }
        k := k + 1;
      }
    }

    /** `toggleHeader(el, shifted)`: `None` stands for a missing element. The
        element is always a heading: the click handler and the restore loop
        only pass headings. */
    method ToggleHeader(el: Option<nat>, shifted: bool)
      requires el.Some? ==> el.value < |body| && IsHeading(body[el.value])
      modifies this`body, this`usedHeadings, this`headingsMap, this`headingIndex, this`collapsedHeadings
      ensures el.None? ==> PageOf() == old(PageOf())
      ensures el.Some? ==> PageOf() == ToggleOf(old(PageOf()), el.value, shifted)
      ensures old(Covering()) ==> Covering()
      ensures old(Valid()) ==> Valid()
    {
      if el.Some? {
        var i := el.value;
        body := body[i := body[i].(collapsed := !body[i].collapsed)];
        var level := body[i].kind.level;
        var isCollapsed := body[i].collapsed;
        if shifted {
          NextHeaderAll(SameLevelFrom(body, 0, level), level, isCollapsed);
        } else {
          NextHeader(i, level, isCollapsed);
        }
      }
    }

    /** `for (el of els) nextHeader(el, level, isCollapsed)`. */
    method NextHeaderAll(els: seq<nat>, level: int, isCollapsed: bool)
      requires 1 <= level && forall q :: 0 <= q < |els| ==> els[q] < |body|
      modifies this`body, this`usedHeadings, this`headingsMap, this`headingIndex, this`collapsedHeadings
      ensures PageOf() == NextAll(old(PageOf()), els, level, isCollapsed)
      ensures old(Covering()) ==> Covering()
      ensures old(Valid()) ==> Valid()
    {
      ghost var wasCovering := Covering();
      ghost var wasValid := Valid();
      var k := 0;
      while k < |els|
        invariant 0 <= k <= |els|
        invariant |body| == |old(body)|
        invariant NextAll(old(PageOf()), els, level, isCollapsed) == NextAll(PageOf(), els[k..], level, isCollapsed)
        invariant wasCovering ==> Covering()
        invariant wasValid ==> Valid()
        decreases |els| - k
      {
        ghost var before := PageOf();
        NextHeader(els[k], level, isCollapsed);
        NextAllUnfold(before, els, k, level, isCollapsed);
        k := k + 1;
      }
    }

    /** `checkColors()`: a missing palette or one without six colours is
        replaced by the default one. */
    method CheckColors()
      modifies this`colors
      ensures colors == Some(CheckedColors(old(colors)))
    {
      if colors.None? || |colors.value| != 6 {
        colors := Some(DefaultColors);
      }
    }

    /** `firstCollapsedHeading(element)` for the element at position `k`,
        without the search for an enclosing closed DETAILS element: for a
        hidden element, the nearest earlier sibling that is a collapsed,
        visible heading. */
    method FirstCollapsedHeading(k: nat) returns (r: Option<nat>)
      requires k < |body|
      ensures r.Some? ==>
        && body[k].hidden && r.value < k && IsShownCollapsedHeading(body[r.value])
        && forall q :: r.value < q < k ==> !IsShownCollapsedHeading(body[q])
      ensures r.None? ==> !body[k].hidden || forall q :: 0 <= q < k ==> !IsShownCollapsedHeading(body[q])
    {
      if body[k].hidden {
        var j: int := k - 1;
        while j >= 0
          invariant -1 <= j < k
          invariant forall q :: j < q < k ==> !IsShownCollapsedHeading(body[q])
          decreases j + 1
        {
          if IsShownCollapsedHeading(body[j]) {
            return Some(j);
          }
          j := j - 1;
        }
      }
      return None;
    }
  }
}
