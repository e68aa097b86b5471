/** What the group search promises: every segment ends up exactly once in the
    message tree, in input order, inside the innermost parent whose structure
    lists it; once the search has given up on every level, the remaining
    segments go straight to the message. */
module GroupProperties {
  import opened Results
  import opened Reference
  import opened Elements
  import opened GroupSpec

  /** The segments a parent holds so far. */
  function FrameSegments(p: Parent): seq<Segment> {
    match p
    case MessageParent => []
    case GroupParent(_, children, _) => Flatten(children)
  }

  function FramesContent(parents: seq<Parent>): seq<Segment>
    decreases |parents|
  {
    if |parents| == 0 then []
    else FramesContent(parents[..|parents| - 1]) + FrameSegments(parents[|parents| - 1])
  }

  /** The segments of the message and of every open group, outermost first. */
  function Content(st: SearchState): seq<Segment> {
    Flatten(st.message) + FramesContent(st.parents)
  }

  predicate AllAttached(st: SearchState) {
    forall p :: 0 <= p < |st.parents| ==> Attached(st.parents[p])
  }

  /** The children of the innermost parent. */
  function TopChildren(st: SearchState): seq<Element>
    requires |st.parents| > 0
  {
    match st.parents[|st.parents| - 1]
    case MessageParent => st.message
    case GroupParent(_, children, _) => children
  }

  /** The segment is the last child of the innermost parent, whose index
      records a slot of its structure carrying the segment's name. */
  predicate SegmentAtTop(st: SearchState, seg: Segment)
    requires st.Valid()
  {
    var t := |st.parents| - 1;
    && |st.parents| > 0
    && 0 <= st.indexes[t] < |st.structures[t]|
    && st.structures[t][st.indexes[t]].name == seg.name
    && |TopChildren(st)| > 0 && TopChildren(st)[|TopChildren(st)| - 1] == SegmentElement(seg)
  }

  /** A successful search from the innermost parent of `st` leaves the parents
      below it as they were and that parent as attached as it was, and every
      parent it opened above is attached. */
  predicate Extends(st: SearchState, r: SearchState)
    requires st.Valid() && r.Valid() && |st.parents| > 0
  {
    var t := |st.parents| - 1;
    && |r.parents| >= |st.parents|
    && (forall p :: 0 <= p < t ==> r.parents[p] == st.parents[p])
    && Attached(r.parents[t]) == Attached(st.parents[t])
    && forall p :: t < p < |r.parents| ==> Attached(r.parents[p])
  }

  // ---------------------------------------------------------------------------
  // One step at a time

  lemma {:induction false} FramesContentSame(a: seq<Parent>, b: seq<Parent>)
    requires |a| == |b| && forall i :: 0 <= i < |a| ==> FrameSegments(a[i]) == FrameSegments(b[i])
    ensures FramesContent(a) == FramesContent(b)
    decreases |a|
  {
    if |a| > 0 {
      FramesContentSame(a[..|a| - 1], b[..|b| - 1]);
    }
  }

  lemma FlattenSingle(e: Element)
    ensures Flatten([e]) == FlattenOne(e)
  {
    assert [e][1..] == [];
  }

  /** Adding a child to the innermost parent adds its segments at the end. */
  lemma AddToTopContent(st: SearchState, e: Element)
    requires st.Valid() && |st.parents| > 0
    ensures Content(AddToTop(st, e)) == Content(st) + FlattenOne(e)
    ensures AllAttached(AddToTop(st, e)) == AllAttached(st)
  {
    var t := |st.parents| - 1;
    var r := AddToTop(st, e);
    FlattenSingle(e);
    match st.parents[t]
    case MessageParent =>
      assert t == 0 && st.parents[..0] == [];
      assert FramesContent(st.parents) == [];
      FlattenConcat(st.message, [e]);
      assert r.parents == st.parents;
    case GroupParent(n, ch, a) =>
      AddToGroupContent(st, n, ch, a, e);
  }

  /** The group case of `AddToTopContent`: the frames below the innermost
      parent are untouched and its children gain the new one. */
  lemma AddToGroupContent(st: SearchState, n: string, ch: seq<Element>, a: bool, e: Element)
    requires st.Valid() && |st.parents| > 0
    requires st.parents[|st.parents| - 1] == GroupParent(n, ch, a)
    requires Flatten([e]) == FlattenOne(e)
    ensures Content(AddToTop(st, e)) == Content(st) + FlattenOne(e)
    ensures AllAttached(AddToTop(st, e)) == AllAttached(st)
  {
    var t := |st.parents| - 1;
    var r := AddToTop(st, e);
    assert r.parents == st.parents[t := GroupParent(n, ch + [e], a)];
    assert r.parents[..t] == st.parents[..t];
    assert r.message == st.message;
    FlattenConcat(ch, [e]);
    var below := FramesContent(st.parents[..t]);
    var added := FlattenOne(e);
    assert FramesContent(st.parents) == below + Flatten(ch);
    assert FramesContent(r.parents) == below + (Flatten(ch) + added);
    assert Content(r) == Flatten(st.message) + (below + (Flatten(ch) + added));
    assert Content(st) == Flatten(st.message) + (below + Flatten(ch));
    forall p | 0 <= p < |st.parents| ensures Attached(r.parents[p]) == Attached(st.parents[p]) {
    }
  }

  lemma PlaceContent(st: SearchState, seg: Segment, k: nat)
    requires st.Valid() && |st.parents| > 0
    ensures Content(Place(st, seg, k)) == Content(st) + [seg]
    ensures AllAttached(Place(st, seg, k)) == AllAttached(st)
  {
    AddToTopContent(st, SegmentElement(seg));
  }

  /** Going back loses no segment when the innermost parent is attached, or
      has no children. */
  lemma GoBackContent(st: SearchState)
    requires st.Valid() && |st.parents| > 0
    requires Attached(st.parents[|st.parents| - 1]) || FrameSegments(st.parents[|st.parents| - 1]) == []
    ensures Content(GoBack(st)) == Content(st)
    ensures AllAttached(st) ==> AllAttached(GoBack(st))
  {
    var t := |st.parents| - 1;
    var popped := SearchState(st.parents[..t], st.indexes[..t], st.structures[..t], st.message);
    assert popped.Valid();
    var below := Flatten(st.message) + FramesContent(st.parents[..t]);
    assert Content(popped) == below;
    assert Content(st) == below + FrameSegments(st.parents[t]);
    match st.parents[t]
    case GroupParent(n, ch, true) =>
      AddToTopContent(popped, GroupElement(n, ch));
      assert FlattenOne(GroupElement(n, ch)) == FrameSegments(st.parents[t]);
      assert GoBack(st) == AddToTop(popped, GroupElement(n, ch));
    case _ =>
      assert GoBack(st) == popped;
      assert FrameSegments(st.parents[t]) == [];
      assert below + [] == below;
  }

  lemma PushContent(st: SearchState, slot: Slot)
    requires st.Valid() && |st.parents| > 0 && slot.kind.GroupSlot?
    ensures Content(Push(st, slot)) == Content(st)
  {
    var r := Push(st, slot);
    assert r.parents[..|st.parents|] == st.parents;
    assert Flatten([]) == [];
  }

  lemma AttachContent(st: SearchState, p: nat, j: nat)
    requires st.Valid() && p + 1 < |st.parents|
    ensures Content(Attach(st, p, j)) == Content(st)
  {
    FramesContentSame(Attach(st, p, j).parents, st.parents);
  }

  // ---------------------------------------------------------------------------
  // The search

  /** A search that starts at a freshly opened group: when it finds the
      segment, the segment has been added once, at the innermost parent whose
      structure names it, and every group opened on the way is attached. */
  lemma {:induction false} FindGroupFresh(st: SearchState, seg: Segment)
    requires st.Valid() && Fresh(st)
    ensures var r := FindGroup(st, seg);
      r.1.Placed? ==> Content(r.0) == Content(st) + [seg] && Extends(st, r.0) && SegmentAtTop(r.0, seg)
    decreases Rank(st), TopSize(st), 1, 0
  {
    var t := |st.parents| - 1;
    var structure := st.structures[t];
    match SlotIndex(structure, seg.name)
    case None =>
      TryGroupsPlaced(st, seg, 0);
    case Some(k) =>
      PlaceContent(st, seg, k);
  }

  /** Trying the group slots of the innermost parent: when the segment is
      found in one, that parent is left as it was (apart from its index) and
      the group instance found is attached to it. */
  lemma {:induction false} TryGroupsPlaced(st: SearchState, seg: Segment, j: nat)
    requires st.Valid() && |st.parents| > 0 && j <= |st.structures[|st.parents| - 1]|
    ensures var r := TryGroups(st, seg, j);
      r.1.Placed? ==> (Content(r.0) == Content(st) + [seg] && Extends(st, r.0) && SegmentAtTop(r.0, seg) &&
        r.0.parents[|st.parents| - 1] == st.parents[|st.parents| - 1])
    decreases Rank(st), TopSize(st), 0, |st.structures[|st.parents| - 1]| - j
  {
    var t := |st.parents| - 1;
    var structure := st.structures[t];
    if j == |structure| {
    } else if !structure[j].kind.GroupSlot? {
      TryGroupsPlaced(st, seg, j + 1);
    } else {
      GroupSmaller(structure, j);
      var pushed := Push(st, structure[j]);
      var (inner, found) := FindGroup(pushed, seg);
      if found.Placed? {
        FindGroupFresh(pushed, seg);
        PushContent(st, structure[j]);
        AttachFound(st, structure[j], inner, seg, j);
      } else {
        TryGroupsPlaced(st, seg, j + 1);
      }
    }
  }

  /** The group instance in which the segment was found joins the parent below it. */
  lemma AttachFound(st: SearchState, slot: Slot, inner: SearchState, seg: Segment, j: nat)
    requires st.Valid() && |st.parents| > 0 && slot.kind.GroupSlot?
    requires inner.Valid() && Extends(Push(st, slot), inner) && SegmentAtTop(inner, seg)
    requires Content(inner) == Content(st) + [seg]
    ensures var t := |st.parents| - 1;
      var r := Attach(inner, t, j);
      && Content(r) == Content(st) + [seg] && Extends(st, r) && SegmentAtTop(r, seg)
      && r.parents[t] == st.parents[t]
  {
    var t := |st.parents| - 1;
    var pushed := Push(st, slot);
    AttachContent(inner, t, j);
    var r := Attach(inner, t, j);
    var last := |inner.parents| - 1;
    assert last >= t + 1 && inner.parents[last].GroupParent?;
    assert r.parents[last].children == inner.parents[last].children;
    assert r.indexes[last] == inner.indexes[last];
    assert TopChildren(r) == TopChildren(inner);
    forall p | 0 <= p <= t ensures r.parents[p] == st.parents[p] {
      assert pushed.parents[p] == st.parents[p];
    }
  }

  /** A search from a stack of attached parents keeps them attached, and adds
      the segment once when it finds it and nothing when it does not. */
  lemma {:induction false} FindGroupAttached(st: SearchState, seg: Segment)
    requires st.Valid() && AllAttached(st)
    ensures KeptOnce(st, FindGroup(st, seg), seg)
    decreases |st.parents|
  {
    if |st.parents| > 0 {
      var t := |st.parents| - 1;
      var structure := st.structures[t];
      match SlotIndex(structure, seg.name)
      case None =>
        TryGroupsPlaced(st, seg, 0);
        assert FindGroup(st, seg) == TryGroups(st, seg, 0);
        assert Content(st) + [] == Content(st);
      case Some(k) =>
        if k <= st.indexes[t] && structure[k].max == Bounded(1) {
          GoBackContent(st);
          FindGroupAttached(GoBack(st), seg);
          KeptOnceFrom(GoBack(st), st, FindGroup(GoBack(st), seg), seg);
          assert FindGroup(st, seg) == FindGroup(GoBack(st), seg);
        } else {
          PlaceContent(st, seg, k);
          assert FindGroup(st, seg) == (Place(st, seg, k), Placed(k));
        }
    }
  }

  /** When the search finds the segment, it is the last child of the innermost
      parent, at a slot of that parent's structure named after it. */
  lemma {:induction false} FindGroupAtTop(st: SearchState, seg: Segment)
    requires st.Valid()
    ensures var r := FindGroup(st, seg);
      r.1.Placed? ==> SegmentAtTop(r.0, seg)
    decreases |st.parents|
  {
    if |st.parents| > 0 {
      var t := |st.parents| - 1;
      var structure := st.structures[t];
      match SlotIndex(structure, seg.name)
      case None =>
        TryGroupsPlaced(st, seg, 0);
      case Some(k) =>
        if k <= st.indexes[t] && structure[k].max == Bounded(1) {
          FindGroupAtTop(GoBack(st), seg);
        } else {
          assert FindGroup(st, seg) == (Place(st, seg, k), Placed(k));
        }
    }
  }

  /** The inner loop of `create_groups`: the same. */
  lemma {:induction false} LevelsAttached(st: SearchState, seg: Segment, remaining: nat)
    requires st.Valid() && AllAttached(st)
    ensures KeptOnce(st, Levels(st, seg, remaining), seg)
    decreases remaining
  {
    if remaining == 0 {
      assert Content(st) + [] == Content(st);
    } else {
      LevelsStep(st, seg, remaining);
      FindGroupAttached(st, seg);
      var found := FindGroup(st, seg);
      if found.1.NotFound? {
        GoBackContent(found.0);
        LevelsAttached(GoBack(found.0), seg, remaining - 1);
        KeptOnceAfterGoBack(st, found, Levels(GoBack(found.0), seg, remaining - 1), seg);
      }
    }
  }

  /** A search result keeps every parent attached and adds the segment to the
      contents of `st` once when it was placed, and nothing otherwise. */
  predicate KeptOnce(st: SearchState, r: (SearchState, Found), seg: Segment) {
    r.1 != StackEmpty ==> AllAttached(r.0) && Content(r.0) == Content(st) + (if r.1.Placed? then [seg] else [])
  }

  lemma KeptOnceFrom(st: SearchState, st': SearchState, r: (SearchState, Found), seg: Segment)
    requires KeptOnce(st, r, seg) && Content(st) == Content(st')
    ensures KeptOnce(st', r, seg)
  {
  }

  /** A level that found nothing, followed by going back and the levels
      below, keeps the segments as those levels do. */
  lemma KeptOnceAfterGoBack(st: SearchState, found: (SearchState, Found), r: (SearchState, Found), seg: Segment)
    requires found.0.Valid() && found.1.NotFound? && |found.0.parents| > 0
    requires Attached(found.0.parents[|found.0.parents| - 1])
    requires KeptOnce(st, found, seg) && KeptOnce(GoBack(found.0), r, seg)
    ensures KeptOnce(st, r, seg)
  {
    GoBackContent(found.0);
    assert Content(st) + [] == Content(st);
  }

  /** One level of the loop: search, and go back when nothing was found. */
  lemma LevelsStep(st: SearchState, seg: Segment, remaining: nat)
    requires st.Valid() && remaining > 0
    ensures var found := FindGroup(st, seg);
      Levels(st, seg, remaining) == if found.1.NotFound? then Levels(GoBack(found.0), seg, remaining - 1) else found
  {
  }

  /** When the level loop finds the segment, it is the last child of the
      innermost parent, at a slot of that parent's structure named after it. */
  lemma {:induction false} LevelsPlacedAtTop(st: SearchState, seg: Segment, remaining: nat)
    requires st.Valid()
    ensures var r := Levels(st, seg, remaining);
      r.1.Placed? ==> SegmentAtTop(r.0, seg)
    decreases remaining
  {
    if remaining > 0 {
      LevelsStep(st, seg, remaining);
      FindGroupAtTop(st, seg);
      var found := FindGroup(st, seg);
      if found.1.NotFound? {
        LevelsPlacedAtTop(GoBack(found.0), seg, remaining - 1);
      }
    }
  }

  /** One segment of `create_groups`: it is added exactly once. */
  lemma PlaceOneContent(st: SearchState, seg: Segment)
    requires st.Valid() && AllAttached(st)
    ensures var r := PlaceOne(st, seg);
      r.Ok? ==> AllAttached(r.value) && Content(r.value) == Content(st) + [seg]
  {
    LevelsAttached(st, seg, |st.structures|);
    var (next, found) := Levels(st, seg, |st.structures|);
    if found.NotFound? {
      assert |next.parents| == 0;
      var last := next.(message := next.message + [SegmentElement(seg)]);
      FlattenConcat(next.message, [SegmentElement(seg)]);
      FlattenSingle(SegmentElement(seg));
      assert Content(next) == Flatten(next.message) == Content(st);
      assert Content(last) == Flatten(next.message) + [seg];
    }
  }

  /** All segments are added, once each, in order. */
  lemma {:induction false} AssignContent(st: SearchState, segs: seq<Segment>)
    requires st.Valid() && AllAttached(st)
    ensures var r := Assign(st, segs);
      r.Ok? ==> AllAttached(r.value) && Content(r.value) == Content(st) + segs
    decreases |segs|
  {
    if |segs| > 0 {
      PlaceOneContent(st, segs[0]);
      var r := PlaceOne(st, segs[0]);
      if r.Ok? {
        AssignContent(r.value, segs[1..]);
        assert segs == [segs[0]] + segs[1..];
      }
    }
  }

  /** Closing the open groups into their parents keeps every segment. */
  lemma {:induction false} CloseContent(st: SearchState)
    requires st.Valid() && AllAttached(st)
    ensures Flatten(Close(st)) == Content(st)
    decreases |st.parents|
  {
    if |st.parents| > 0 {
      GoBackContent(st);
      CloseContent(GoBack(st));
    }
  }

  /** `create_groups` loses, duplicates and reorders no segment: the
      segments of the grouped message, in document order, are the input. */
  lemma CreateGroupsKeepsSegments(structure: seq<Slot>, segs: seq<Segment>)
    ensures var r := CreateGroups(structure, segs);
      r.Ok? ==> Flatten(r.value) == segs
  {
    var st := Initial(structure);
    AssignContent(st, segs);
    var r := Assign(st, segs);
    if r.Ok? {
      CloseContent(r.value);
    }
  }

  /** A segment found at no level leaves the stack empty, and from then on
      every segment is added to the message directly, in order. */
  lemma {:induction false} ExhaustedStack(st: SearchState, segs: seq<Segment>)
    requires st.Valid() && |st.parents| == 0
    ensures Assign(st, segs) == Ok(st.(message := st.message + Unstructured(segs)))
    decreases |segs|
  {
    if |segs| > 0 {
      var next := st.(message := st.message + [SegmentElement(segs[0])]);
      assert PlaceOne(st, segs[0]) == Ok(next);
      assert Assign(st, segs) == Assign(next, segs[1..]);
      ExhaustedStack(next, segs[1..]);
      assert Unstructured(segs) == [SegmentElement(segs[0])] + Unstructured(segs[1..]);
      assert next.message + Unstructured(segs[1..]) == st.message + Unstructured(segs);
    } else {
      assert st.message + Unstructured(segs) == st.message;
    }
  }

  /** A segment whose slot is repeatable is placed in the innermost parent
      listing it, however many of it that parent already holds: only a
      maximum of one opens a new group instance. */
  lemma RepeatableStaysInParent(st: SearchState, seg: Segment, k: nat)
    requires st.Valid() && |st.parents| > 0
    requires SlotIndex(st.structures[|st.parents| - 1], seg.name) == Some(k)
    requires st.structures[|st.parents| - 1][k].max != Bounded(1)
    ensures FindGroup(st, seg) == (Place(st, seg, k), Placed(k))
  {
  }

  /** A second segment of a non-repeatable slot of the message itself pops
      the message off the stack, and the search then reads the empty stack. */
  lemma RepeatedRootSegmentFails(msh: Segment)
    requires msh.name == "MSH"
    ensures CreateGroups([Slot("MSH", Bounded(1), SegmentSlot)], [msh, msh]) == Err(EmptySearchStack)
  {
    var structure := [Slot("MSH", Bounded(1), SegmentSlot)];
    var st0 := Initial(structure);
    assert SlotIndex(structure, "MSH") == Some(0);
    var st1 := Place(st0, msh, 0);
    assert FindGroup(st0, msh) == (st1, Placed(0));
    assert PlaceOne(st0, msh) == Ok(st1);
    assert FindGroup(GoBack(st1), msh).1 == StackEmpty;
    assert FindGroup(st1, msh).1 == StackEmpty;
    assert PlaceOne(st1, msh) == Err(EmptySearchStack);
    assert [msh, msh][1..] == [msh];
    assert Assign(st1, [msh]) == Err(EmptySearchStack);
  }

  /** A second instance of a non-repeatable slot goes back a level only when
      its slot is at or before the parent's current index: under
      `[A, B*, C]`, the segments `A C B C` stay in the message, because the
      repeatable B moves the index back before C's slot. */
  lemma TwoOfNonRepeatable(a: Segment, c: Segment, b: Segment, c2: Segment)
    requires a.name == "A" && b.name == "B" && c.name == "C" && c2.name == "C"
    ensures CreateGroups([Slot("A", Bounded(1), SegmentSlot), Slot("B", Unbounded, SegmentSlot), Slot("C", Bounded(1), SegmentSlot)],
      [a, c, b, c2]) == Ok([SegmentElement(a), SegmentElement(c), SegmentElement(b), SegmentElement(c2)])
  {
    var structure := [Slot("A", Bounded(1), SegmentSlot), Slot("B", Unbounded, SegmentSlot), Slot("C", Bounded(1), SegmentSlot)];
    assert SlotIndex(structure, "A") == Some(0);
    assert SlotIndex(structure, "B") == Some(1);
    assert SlotIndex(structure, "C") == Some(2);
    var st0 := Initial(structure);
    var st1 := SearchState([MessageParent], [0], [structure], [SegmentElement(a)]);
    assert Place(st0, a, 0).indexes == [-1][0 := 0] == [0];
    assert Place(st0, a, 0).message == [] + [SegmentElement(a)] == [SegmentElement(a)];
    assert Place(st0, a, 0) == st1;
    assert FindGroup(st0, a) == (st1, Placed(0));
    assert PlaceOne(st0, a) == Ok(st1);
    var st2 := SearchState([MessageParent], [2], [structure], [SegmentElement(a), SegmentElement(c)]);
    assert Place(st1, c, 2).indexes == [0][0 := 2] == [2];
    assert Place(st1, c, 2).message == [SegmentElement(a)] + [SegmentElement(c)];
    assert Place(st1, c, 2) == st2;
    assert FindGroup(st1, c) == (st2, Placed(2));
    assert PlaceOne(st1, c) == Ok(st2);
    var st3 := SearchState([MessageParent], [1], [structure], [SegmentElement(a), SegmentElement(c), SegmentElement(b)]);
    assert Place(st2, b, 1).indexes == [2][0 := 1] == [1];
    assert Place(st2, b, 1).message == st2.message + [SegmentElement(b)];
    assert Place(st2, b, 1) == st3;
    assert FindGroup(st2, b) == (st3, Placed(1));
    assert PlaceOne(st2, b) == Ok(st3);
    var all := [SegmentElement(a), SegmentElement(c), SegmentElement(b), SegmentElement(c2)];
    var st4 := SearchState([MessageParent], [2], [structure], all);
    assert Place(st3, c2, 2).indexes == [1][0 := 2] == [2];
    assert Place(st3, c2, 2).message == st3.message + [SegmentElement(c2)];
    assert Place(st3, c2, 2) == st4;
    assert FindGroup(st3, c2) == (st4, Placed(2));
    assert PlaceOne(st3, c2) == Ok(st4);
    assert Assign(st0, [a, c, b, c2]) == Ok(st4) by {
      assert [a, c, b, c2][1..] == [c, b, c2];
      assert [c, b, c2][1..] == [b, c2];
      assert [b, c2][1..] == [c2];
      assert Assign(st4, []) == Ok(st4);
      assert Assign(st3, [c2]) == Ok(st4);
      assert Assign(st2, [b, c2]) == Ok(st4);
      assert Assign(st1, [c, b, c2]) == Ok(st4);
    }
    var empty := GoBack(st4);
    assert empty.parents == [] && empty.message == all;
    assert Close(st4) == Close(empty) == all;
  }

  /** The structure of the worked example below: `[MSH, G[OBR, OBX*]]`. */
  const OrderGroup: seq<Slot> := [Slot("OBR", Bounded(1), SegmentSlot), Slot("OBX", Unbounded, SegmentSlot)]
  const OrderStructure: seq<Slot> := [Slot("MSH", Bounded(1), SegmentSlot), Slot("G", Unbounded, GroupSlot(OrderGroup))]

  /** At the message level, an OBR opens a new G instance holding it. */
  lemma OpenOrderGroup(idx: int, message: seq<Element>, obr: Segment)
    requires obr.name == "OBR"
    ensures FindGroup(SearchState([MessageParent], [idx], [OrderStructure], message), obr) ==
      (SearchState([MessageParent, GroupParent("G", [SegmentElement(obr)], true)], [1, 0],
         [OrderStructure, OrderGroup], message), Placed(1))
  {
    var st := SearchState([MessageParent], [idx], [OrderStructure], message);
    assert SlotIndex(OrderStructure, "OBR") == None;
    assert SlotIndex(OrderGroup, "OBR") == Some(0);
    var pushed := Push(st, OrderStructure[1]);
    assert pushed == SearchState([MessageParent, GroupParent("G", [], false)], [idx, -1],
      [OrderStructure, OrderGroup], message);
    var placed := Place(pushed, obr, 0);
    assert placed.parents == [MessageParent, GroupParent("G", [] + [SegmentElement(obr)], false)];
    assert [] + [SegmentElement(obr)] == [SegmentElement(obr)];
    assert placed.indexes == [idx, -1][1 := 0] == [idx, 0];
    assert placed.structures == pushed.structures && placed.message == pushed.message;
    assert FindGroup(pushed, obr) == (placed, Placed(0));
    var attached := Attach(placed, 0, 1);
    assert attached.indexes == [idx, 0][0 := 1] == [1, 0];
    assert attached.parents == [MessageParent, GroupParent("G", [SegmentElement(obr)], true)];
    assert attached == SearchState([MessageParent, GroupParent("G", [SegmentElement(obr)], true)], [1, 0],
      [OrderStructure, OrderGroup], message);
    assert TryGroups(st, obr, 1) == (attached, Placed(1));
    assert TryGroups(st, obr, 0) == (attached, Placed(1));
    assert FindGroup(st, obr) == TryGroups(st, obr, 0);
  }

  /** Inside G, a second OBR closes the instance into the message and opens another. */
  lemma ReopenOrderGroup(message: seq<Element>, children: seq<Element>, obr: Segment)
    requires obr.name == "OBR"
    ensures var st := SearchState([MessageParent, GroupParent("G", children, true)], [1, 1],
        [OrderStructure, OrderGroup], message);
      FindGroup(st, obr) ==
        (SearchState([MessageParent, GroupParent("G", [SegmentElement(obr)], true)], [1, 0],
           [OrderStructure, OrderGroup], message + [GroupElement("G", children)]), Placed(1))
  {
    var st := SearchState([MessageParent, GroupParent("G", children, true)], [1, 1],
      [OrderStructure, OrderGroup], message);
    assert SlotIndex(OrderGroup, "OBR") == Some(0);
    var back := SearchState([MessageParent], [1], [OrderStructure], message + [GroupElement("G", children)]);
    assert GoBack(st) == back;
    OpenOrderGroup(1, message + [GroupElement("G", children)], obr);
  }

  /** A repeated first segment of a group closes the group instance and opens
      another one: `MSH OBR OBX OBR` under `[MSH, G[OBR, OBX*]]` gives
      `[MSH, G[OBR, OBX], G[OBR]]`. */
  lemma RepeatedGroupExample(msh: Segment, obr1: Segment, obx: Segment, obr2: Segment)
    requires msh.name == "MSH" && obr1.name == "OBR" && obx.name == "OBX" && obr2.name == "OBR"
    ensures CreateGroups(OrderStructure, [msh, obr1, obx, obr2]) == Ok([
        SegmentElement(msh),
        GroupElement("G", [SegmentElement(obr1), SegmentElement(obx)]),
        GroupElement("G", [SegmentElement(obr2)])])
  {
    var st0 := Initial(OrderStructure);
    assert SlotIndex(OrderStructure, "MSH") == Some(0);
    assert SlotIndex(OrderGroup, "OBX") == Some(1);
    // MSH: found at the message level.
    var st1 := SearchState([MessageParent], [0], [OrderStructure], [SegmentElement(msh)]);
    assert Place(st0, msh, 0) == st1;
    assert FindGroup(st0, msh) == (st1, Placed(0));
    assert PlaceOne(st0, msh) == Ok(st1);
    // OBR: not at the message level; a new G instance takes it.
    var st2 := SearchState([MessageParent, GroupParent("G", [SegmentElement(obr1)], true)], [1, 0],
      [OrderStructure, OrderGroup], [SegmentElement(msh)]);
    OpenOrderGroup(0, [SegmentElement(msh)], obr1);
    assert PlaceOne(st1, obr1) == Ok(st2);
    // OBX: repeatable, stays in G.
    var g1 := [SegmentElement(obr1), SegmentElement(obx)];
    var st3 := SearchState([MessageParent, GroupParent("G", g1, true)], [1, 1],
      [OrderStructure, OrderGroup], [SegmentElement(msh)]);
    assert Place(st2, obx, 1).parents == [MessageParent, GroupParent("G", [SegmentElement(obr1)] + [SegmentElement(obx)], true)];
    assert [SegmentElement(obr1)] + [SegmentElement(obx)] == g1;
    assert Place(st2, obx, 1).indexes == [1, 0][1 := 1] == [1, 1];
    assert Place(st2, obx, 1) == st3;
    assert FindGroup(st2, obx) == (st3, Placed(1));
    assert PlaceOne(st2, obx) == Ok(st3);
    // OBR again: G is closed into the message and a second instance opens.
    var closed := [SegmentElement(msh), GroupElement("G", g1)];
    var st4 := SearchState([MessageParent, GroupParent("G", [SegmentElement(obr2)], true)], [1, 0],
      [OrderStructure, OrderGroup], closed);
    ReopenOrderGroup([SegmentElement(msh)], g1, obr2);
    assert [SegmentElement(msh)] + [GroupElement("G", g1)] == closed;
    assert PlaceOne(st3, obr2) == Ok(st4);
    assert Assign(st0, [msh, obr1, obx, obr2]) == Ok(st4) by {
      assert [msh, obr1, obx, obr2][1..] == [obr1, obx, obr2];
      assert [obr1, obx, obr2][1..] == [obx, obr2];
      assert [obx, obr2][1..] == [obr2];
      assert Assign(st4, []) == Ok(st4);
      assert Assign(st3, [obr2]) == Ok(st4);
      assert Assign(st2, [obx, obr2]) == Ok(st4);
      assert Assign(st1, [obr1, obx, obr2]) == Ok(st4);
    }
    var last := SearchState([MessageParent], [1], [OrderStructure], closed + [GroupElement("G", [SegmentElement(obr2)])]);
    assert GoBack(st4) == last;
    var empty := GoBack(last);
    assert empty.parents == [] && empty.message == last.message;
    assert Close(empty) == last.message;
    assert Close(last) == Close(empty);
    assert Close(st4) == Close(last);
    assert last.message == [SegmentElement(msh), GroupElement("G", g1), GroupElement("G", [SegmentElement(obr2)])];
    assert CreateGroups(OrderStructure, [msh, obr1, obx, obr2]) == Ok(Close(st4));
  }
}
