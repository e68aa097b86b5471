/** The group search of `create_groups`, `_find_group` and `_go_back` as
    functions on a value: the stack of open parents with their current slot
    index and structure (`search_data`), plus the message's own children.

    A group instance on the stack becomes a child of the parent below it when a
    segment is found in it (`group.parent = ...`). Here that child is appended to
    the parent when the group's frame is popped; since nothing is added to the
    parent while the group is open above it, the order of the children is the
    same. An instance that never received a segment is dropped on pop, as the
    unattached Python object is. */
module GroupSpec {
  import opened Results
  import opened Reference
  import opened Elements

  /** A parent on the search stack: the message, or a group instance. */
  datatype Parent =
    | MessageParent
    | GroupParent(name: string, children: seq<Element>, attached: bool)

  /** Whether the parent is (or will be, once popped) part of the message tree. */
  predicate Attached(p: Parent) {
    p.MessageParent? || p.attached
  }

  /** `search_data`, together with the children of the message. */
  datatype SearchState = SearchState(
    parents: seq<Parent>, indexes: seq<int>, structures: seq<seq<Slot>>, message: seq<Element>)
  {
    /** The three stacks grow and shrink together; the message sits at the
        bottom and every other parent is a group. */
    predicate Valid() {
      |parents| == |indexes| == |structures| &&
      forall p :: 0 <= p < |parents| ==> (parents[p].MessageParent? <==> p == 0)
    }
  }

  /** The result of `_find_group`: the slot index the segment was found at
      (`search_index > -1`), `-1`, or the `IndexError` raised when the search
      pops the last parent and then reads `indexes[-1]`. */
  datatype Found = Placed(index: nat) | NotFound | StackEmpty

  /** The search data `create_groups` starts from. */
  function Initial(structure: seq<Slot>): (st: SearchState)
    ensures st.Valid() && |st.parents| == 1
  {
    SearchState([MessageParent], [-1], [structure], [])
  }

  /** `structure_by_name.keys().index(name)`, or `None` for the `ValueError`. */
  function SlotIndexFrom(structure: seq<Slot>, name: string, i: nat): (r: Option<nat>)
    requires i <= |structure|
    ensures r.Some? ==> (i <= r.value < |structure| && structure[r.value].name == name &&
      forall q :: i <= q < r.value ==> structure[q].name != name)
    ensures r.None? ==> forall q :: i <= q < |structure| ==> structure[q].name != name
    decreases |structure| - i
  {
    if i == |structure| then None
    else if structure[i].name == name then Some(i)
    else SlotIndexFrom(structure, name, i + 1)
  }

  function SlotIndex(structure: seq<Slot>, name: string): Option<nat> {
    SlotIndexFrom(structure, name, 0)
  }

  /** Appends a child to the innermost parent (`parent.add(...)`). */
  function AddToTop(st: SearchState, e: Element): (r: SearchState)
    requires st.Valid() && |st.parents| > 0
    ensures r.Valid() && |r.parents| == |st.parents|
  {
    var t := |st.parents| - 1;
    match st.parents[t]
    case MessageParent => st.(message := st.message + [e])
    case GroupParent(n, ch, a) => st.(parents := st.parents[t := GroupParent(n, ch + [e], a)])
  }

  /** The segment is added to the innermost parent, which records its slot index. */
  function Place(st: SearchState, seg: Segment, k: nat): (r: SearchState)
    requires st.Valid() && |st.parents| > 0
    ensures r.Valid() && |r.parents| == |st.parents|
    ensures r.indexes[|st.parents| - 1] == k && r.indexes[..|st.parents| - 1] == st.indexes[..|st.parents| - 1]
    ensures r.structures == st.structures && r.parents[..|st.parents| - 1] == st.parents[..|st.parents| - 1]
  {
    var added := AddToTop(st, SegmentElement(seg));
    added.(indexes := added.indexes[|st.parents| - 1 := k])
  }

  /** `_go_back`: the three stacks lose their last entry. */
  function GoBack(st: SearchState): (r: SearchState)
    requires st.Valid() && |st.parents| > 0
    ensures r.Valid() && |r.parents| == |st.parents| - 1
  {
    var t := |st.parents| - 1;
    var popped := SearchState(st.parents[..t], st.indexes[..t], st.structures[..t], st.message);
    match st.parents[t]
    case GroupParent(n, ch, true) => AddToTop(popped, GroupElement(n, ch))
    case _ => popped
  }

  /** A new, empty instance of a group slot goes on the stack with index -1. */
  function Push(st: SearchState, slot: Slot): (r: SearchState)
    requires st.Valid() && |st.parents| > 0 && slot.kind.GroupSlot?
    ensures r.Valid() && |r.parents| == |st.parents| + 1
  {
    SearchState(st.parents + [GroupParent(slot.name, [], false)], st.indexes + [-1],
      st.structures + [slot.kind.slots], st.message)
  }

  /** The group at `p + 1` becomes a child of the parent at `p`, whose index
      moves to the group's slot `j`. */
  function Attach(st: SearchState, p: nat, j: nat): (r: SearchState)
    requires st.Valid() && p + 1 < |st.parents|
    ensures r.Valid() && |r.parents| == |st.parents|
  {
    SearchState(st.parents[p + 1 := st.parents[p + 1].(attached := true)], st.indexes[p := j],
      st.structures, st.message)
  }

  /** The innermost parent has found nothing yet. */
  predicate Fresh(st: SearchState) {
    |st.indexes| > 0 && st.indexes[|st.indexes| - 1] == -1
  }

  /** Termination of the search: a pop happens only from a parent that has
      already found a segment, and a push descends into a smaller structure. */
  function Rank(st: SearchState): nat {
    if |st.indexes| > 0 && st.indexes[|st.indexes| - 1] >= 0 then |st.indexes| else 0
  }

  function TopSize(st: SearchState): nat {
    if |st.structures| > 0 then Size(st.structures[|st.structures| - 1]) else 0
  }

  /** `_find_group`. */
  function FindGroup(st: SearchState, seg: Segment): (r: (SearchState, Found))
    requires st.Valid()
    ensures r.0.Valid()
    ensures r.1.NotFound? ==> 1 <= |r.0.parents| <= |st.parents|
    ensures Fresh(st) ==> r.1 != StackEmpty && (r.1.NotFound? ==> r.0 == st)
    ensures Fresh(st) && r.1.Placed? ==> |r.0.parents| >= |st.parents|
    decreases Rank(st), TopSize(st), 1, 0
  {
    if |st.parents| == 0 then (st, StackEmpty)
    else
      var t := |st.parents| - 1;
      var structure := st.structures[t];
      match SlotIndex(structure, seg.name)
      case None => TryGroups(st, seg, 0)
      case Some(k) =>
        if k <= st.indexes[t] && structure[k].max == Bounded(1) then
          FindGroup(GoBack(st), seg)
        else
          (Place(st, seg, k), Placed(k))
  }

  /** The loop of `_find_group` over the group slots of the innermost
      structure, from slot `j` on, in structure order. */
  function TryGroups(st: SearchState, seg: Segment, j: nat): (r: (SearchState, Found))
    requires st.Valid() && |st.parents| > 0 && j <= |st.structures[|st.parents| - 1]|
    ensures r.0.Valid()
    ensures r.1 != StackEmpty
    ensures r.1.NotFound? ==> r.0 == st
    ensures r.1.Placed? ==> |r.0.parents| > |st.parents|
    decreases Rank(st), TopSize(st), 0, |st.structures[|st.parents| - 1]| - j
  {
    var t := |st.parents| - 1;
    var structure := st.structures[t];
    if j == |structure| then (st, NotFound)
    else if !structure[j].kind.GroupSlot? then TryGroups(st, seg, j + 1)
    else
      GroupSmaller(structure, j);
      var pushed := Push(st, structure[j]);
      var (inner, found) := FindGroup(pushed, seg);
      match found
      case Placed(_) => (Attach(inner, t, j), Placed(j))
      case NotFound =>
        assert GoBack(inner) == st;
        TryGroups(GoBack(inner), seg, j + 1)
  }

  /** The inner loop of `create_groups`: up to `remaining` levels, going back
      one level after each search that finds nothing. */
  function Levels(st: SearchState, seg: Segment, remaining: nat): (r: (SearchState, Found))
    requires st.Valid()
    ensures r.0.Valid()
    ensures r.1.NotFound? ==> |r.0.parents| + remaining <= |st.parents|
    decreases remaining
  {
    if remaining == 0 then (st, NotFound)
    else
      var (next, found) := FindGroup(st, seg);
      if found.NotFound? then Levels(GoBack(next), seg, remaining - 1) else (next, found)
  }

  /** One iteration of `create_groups`: a segment found nowhere is added to the message. */
  function PlaceOne(st: SearchState, seg: Segment): (r: Result<SearchState>)
    requires st.Valid()
    ensures r.Ok? ==> r.value.Valid()
    ensures r.Err? ==> r.error == EmptySearchStack
  {
    var (next, found) := Levels(st, seg, |st.structures|);
    match found
    case StackEmpty => Err(EmptySearchStack)
    case NotFound => Ok(next.(message := next.message + [SegmentElement(seg)]))
    case Placed(_) => Ok(next)
  }

  function Assign(st: SearchState, segs: seq<Segment>): (r: Result<SearchState>)
    requires st.Valid()
    ensures r.Ok? ==> r.value.Valid()
    ensures r.Err? ==> r.error == EmptySearchStack
    decreases |segs|
  {
    if |segs| == 0 then Ok(st)
    else
      var next :- PlaceOne(st, segs[0]);
      Assign(next, segs[1..])
  }

  /** The message's children once every open group has joined its parent. */
  function Close(st: SearchState): seq<Element>
    requires st.Valid()
    decreases |st.parents|
  {
    if |st.parents| == 0 then st.message else Close(GoBack(st))
  }

  /** `create_groups` on a message with the given structure. The only way
      it fails is the search reading an empty stack. */
  function CreateGroups(structure: seq<Slot>, segs: seq<Segment>): (r: Result<seq<Element>>)
    ensures r.Err? ==> r.error == EmptySearchStack
  {
    var st :- Assign(Initial(structure), segs);
    Ok(Close(st))
  }
}
