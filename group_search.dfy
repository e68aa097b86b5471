/** `create_groups`, `_find_group` and `_go_back` as the source writes them:
    a search object whose three stacks are updated in place, a recursive
    search with a loop over the group slots, and the per-segment loop over
    the levels. Each method is proved to compute what `GroupSpec` describes. */
module GroupSearch {
  import opened Results
  import opened Reference
  import opened Elements
  import opened GroupSpec
  import opened GroupProperties

  /** `search_data`: the open parents, their current slot indexes and their
      structures, together with the children of the message being built. */
  class SearchData {
    var parents: seq<Parent>
    var indexes: seq<int>
    var structures: seq<seq<Slot>>
    var message: seq<Element>

    function State(): SearchState
      reads this
    {
      SearchState(parents, indexes, structures, message)
    }

    /** `{'parents': [message], 'indexes': [-1], 'structures': [structure]}`. */
    constructor(structure: seq<Slot>)
      ensures State() == Initial(structure)
    {
      parents := [MessageParent];
      indexes := [-1];
      structures := [structure];
      message := [];
    }

    /** `parent.add(child)` on the innermost parent. */
    method Add(child: Element)
      requires State().Valid() && |parents| > 0
      modifies this
      ensures State() == AddToTop(old(State()), child)
    {
      var t := |parents| - 1;
      match parents[t]
      case MessageParent =>
        message := message + [child];
      case GroupParent(name, children, attached) =>
        parents := parents[t := GroupParent(name, children + [child], attached)];
    }

    /** `_go_back`: pops the three stacks; an attached group instance takes
        its place among its parent's children. */
    method GoBack()
      requires State().Valid() && |parents| > 0
      modifies this
      ensures State() == GroupSpec.GoBack(old(State()))
    {
      var t := |parents| - 1;
      var top := parents[t];
      parents := parents[..t];
      structures := structures[..t];
      indexes := indexes[..t];
      if top.GroupParent? && top.attached {
        Add(GroupElement(top.name, top.children));
      }
    }

    /** Opens a new instance of a group slot. */
    method Push(slot: Slot)
      requires State().Valid() && |parents| > 0 && slot.kind.GroupSlot?
      modifies this
      ensures State() == GroupSpec.Push(old(State()), slot)
    {
      structures := structures + [slot.kind.slots];
      parents := parents + [GroupParent(slot.name, [], false)];
      indexes := indexes + [-1];
    }

    /** `group.parent = parents[find_parent]` and `indexes[find_parent] = search_index`. */
    method Attach(findParent: nat, searchIndex: nat)
      requires State().Valid() && findParent + 1 < |parents|
      modifies this
      ensures State() == GroupSpec.Attach(old(State()), findParent, searchIndex)
    {
      parents := parents[findParent + 1 := parents[findParent + 1].(attached := true)];
      indexes := indexes[findParent := searchIndex];
    }

    /** `_find_group`. */
    method FindGroup(segment: Segment) returns (found: Found)
      requires State().Valid()
      modifies this
      ensures (State(), found) == GroupSpec.FindGroup(old(State()), segment)
      decreases Rank(State()), TopSize(State()), 1, 0
    {
      if |parents| == 0 {
        // `search_data['indexes'][-1]` raises `IndexError`
        return StackEmpty;
      }
      var t := |parents| - 1;
      var currentIndex := indexes[t];
      var structure := structures[t];
      match SlotIndex(structure, segment.name)
      case None =>
        found := TryGroupSlots(segment);
      case Some(searchIndex) =>
        if searchIndex <= currentIndex && structure[searchIndex].max == Bounded(1) {
          // a second instance of a non-repeatable segment: look one level up
          GoBack();
          found := FindGroup(segment);
          return;
        }
        indexes := indexes[t := searchIndex];
        Add(SegmentElement(segment));
        found := Placed(searchIndex);
    }
    /** The loop of `_find_group` over the group slots of the innermost
        structure: each group slot in turn gets a fresh instance, searched
        recursively, attached when the segment is found there and dropped
        otherwise. */
    method TryGroupSlots(segment: Segment) returns (found: Found)
      requires State().Valid() && |parents| > 0
      modifies this
      ensures (State(), found) == TryGroups(old(State()), segment, 0)
      decreases Rank(State()), TopSize(State()), 0, 0
    {
      var t := |parents| - 1;
      var structure := structures[t];
      ghost var start := State();
      var j := 0;
      while j < |structure|
        invariant 0 <= j <= |structure|
        invariant State() == start
        invariant TryGroups(start, segment, j) == TryGroups(start, segment, 0)
        decreases |structure| - j
      {
        if structure[j].kind.GroupSlot? {
          GroupSmaller(structure, j);
          Push(structure[j]);
          var foundIndex := FindGroup(segment);
          if foundIndex.Placed? {
            Attach(t, j);
            return Placed(j);
          }
          GoBack();
        }
        j := j + 1;
      }
      found := NotFound;
    }
  }

  /** What one iteration of `create_groups` contributes to the assignment of the remaining segments. */
  lemma PlaceSegment(before: SearchState, c: Segment, children: seq<Segment>, i: nat, after: SearchState, found: Found)
    requires before.Valid() && after.Valid() && i < |children| && c == children[i]
    requires Levels(before, c, |before.structures|) == (after, found)
    ensures found.StackEmpty? ==> Assign(before, children[i..]) == Err(EmptySearchStack)
    ensures found.NotFound? ==>
      Assign(before, children[i..]) == Assign(after.(message := after.message + [SegmentElement(c)]), children[i + 1..])
    ensures found.Placed? ==> Assign(before, children[i..]) == Assign(after, children[i + 1..])
  {
    assert children[i..] == [c] + children[i + 1..];
    assert children[i..][1..] == children[i + 1..];
  }

  /** The inner loop of `create_groups`: searches from each level in turn,
      going back one level after each search that finds nothing. */
  method SearchLevels(searchData: SearchData, c: Segment) returns (found: Found)
    requires searchData.State().Valid()
    modifies searchData
    ensures (searchData.State(), found) == Levels(old(searchData.State()), c, |old(searchData.structures)|)
  {
    ghost var before := searchData.State();
    var levels := |searchData.structures|;
    found := NotFound;
    for x := 0 to levels
      invariant searchData.State().Valid()
      invariant found.NotFound?
      invariant Levels(before, c, levels) == Levels(searchData.State(), c, levels - x)
    {
      ghost var current := searchData.State();
      found := searchData.FindGroup(c);
      if !found.NotFound? {
        assert Levels(current, c, levels - x) == (searchData.State(), found);
        break;
      }
      ghost var next := searchData.State();
      searchData.GoBack();
      assert Levels(current, c, levels - x) == Levels(GroupSpec.GoBack(next), c, levels - x - 1);
    }
  }

  /** `create_groups`: the children of a message with the given structure,
      each segment assigned to the group instance it belongs to. */
  method CreateGroups(structure: seq<Slot>, children: seq<Segment>) returns (r: Result<seq<Element>>)
    ensures r == GroupSpec.CreateGroups(structure, children)
    ensures r.Ok? ==> Flatten(r.value) == children
  {
    var searchData := new SearchData(structure);
    for i := 0 to |children|
      invariant searchData.State().Valid()
      invariant Assign(Initial(structure), children) == Assign(searchData.State(), children[i..])
    {
      var c := children[i];
      ghost var before := searchData.State();
      var found := SearchLevels(searchData, c);
      PlaceSegment(before, c, children, i, searchData.State(), found);
      if found.StackEmpty? {
        return Err(EmptySearchStack);
      }
      if found.NotFound? {
        // `message.add(c)`
        searchData.message := searchData.message + [SegmentElement(c)];
      }
    }
    assert children[|children|..] == [];
    r := Ok(Close(searchData.State()));
    CreateGroupsKeepsSegments(structure, children);
  }
}
