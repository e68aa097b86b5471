/** What the decoder consumes from the HL7 reference tables of one version.
    `hl7apy.core` (element classes, `ElementFinder.get_structure`,
    `is_base_datatype`) is not part of this model; its answers are given here
    as the fields of a `Reference` value. */
module Reference {
  import opened Results

  /** The validation level, queried through "is strict" and "is quiet". */
  datatype Policy = Strict | Quiet | Tolerant

  /** The element kinds whose constructors the decoder calls with a name. */
  datatype ElementKind = FieldKind | ComponentKind | SubComponentKind

  /** The outcome of constructing a named element: the datatype the reference
      assigns it, or the `InvalidName` the constructor raises. */
  datatype Resolution = Resolved(dataType: Option<string>) | UnknownName

  /** The upper cardinality of a structure slot. */
  datatype Bound = Bounded(n: nat) | Unbounded

  /** One entry of a message or group structure, in `structure_by_name` key
      order. A group slot carries the structure of the group it names, so a
      structure is a finite tree. */
  datatype Slot = Slot(name: string, max: Bound, kind: SlotKind)
  datatype SlotKind = SegmentSlot | GroupSlot(slots: seq<Slot>)

  datatype Reference = Reference(
    /** Constructs a named field, component or sub-component. */
    element: (ElementKind, string, Policy) -> Resolution,
    /** `is_base_datatype` for a datatype name. */
    isBase: string -> bool,
    /** Constructs a segment: its `allow_infinite_children` flag, or `None` when
        the constructor raises `InvalidName`. */
    segment: (string, Policy) -> Option<bool>,
    /** The structure of a message structure id, or `None` when `Message(name=...)`
        raises `InvalidName`. */
    message: string -> Option<seq<Slot>>
  )

  /** `is_base_datatype(datatype)`; no base datatype is called `None`. */
  predicate IsBase(ref: Reference, dataType: Option<string>) {
    dataType.Some? && ref.isBase(dataType.value)
  }

  /** The number of slots in a structure, counting nested ones. */
  function Size(slots: seq<Slot>): nat
    decreases slots, 1
  {
    if |slots| == 0 then 0 else SlotSize(slots[0]) + Size(slots[1..])
  }

  function SlotSize(slot: Slot): nat
    decreases slot, 0
  {
    1 + match slot.kind
        case SegmentSlot => 0
        case GroupSlot(inner) => Size(inner)
  }

  /** A group's own structure is strictly smaller than any structure holding it,
      which bounds the depth of the group search. */
  lemma {:induction false} GroupSmaller(slots: seq<Slot>, j: nat)
    requires j < |slots| && slots[j].kind.GroupSlot?
    ensures Size(slots[j].kind.slots) < Size(slots)
    decreases slots
  {
    if j > 0 {
      GroupSmaller(slots[1..], j - 1);
    }
  }
}
