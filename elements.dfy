/** The element tree the decoder builds. In `hl7apy.core` these are classes;
    the decoder only constructs them and attaches children, so here they are
    values: a name (absent for unnamed elements), a datatype (absent when
    unknown) and the ordered children. */
module Elements {
  import opened Results

  datatype SubComponent = SubComponent(name: Option<string>, dataType: Option<string>, value: string)

  datatype Component = Component(name: Option<string>, dataType: Option<string>, children: seq<SubComponent>)

  datatype Field = Field(name: Option<string>, dataType: Option<string>, children: seq<Component>)

  datatype Segment = Segment(name: string, children: seq<Field>)

  /** A child of a message or of a group. */
  datatype Element =
    | SegmentElement(segment: Segment)
    | GroupElement(name: string, children: seq<Element>)

  /** The segments below a list of elements, in document order. */
  function Flatten(elements: seq<Element>): seq<Segment>
    decreases elements, 1
  {
    if |elements| == 0 then [] else FlattenOne(elements[0]) + Flatten(elements[1..])
  }

  function FlattenOne(element: Element): seq<Segment>
    decreases element, 0
  {
    match element
    case SegmentElement(s) => [s]
    case GroupElement(_, children) => Flatten(children)
  }

  /** Appending children appends their segments. */
  lemma {:induction false} FlattenConcat(a: seq<Element>, b: seq<Element>)
    ensures Flatten(a + b) == Flatten(a) + Flatten(b)
    decreases |a|
  {
    if |a| > 0 {
      assert (a + b)[0] == a[0];
      assert (a + b)[1..] == a[1..] + b;
      FlattenConcat(a[1..], b);
    } else {
      assert a + b == b;
    }
  }

  /** The elements of a list of segments attached one by one, without grouping. */
  function Unstructured(segments: seq<Segment>): (r: seq<Element>)
    ensures |r| == |segments|
    ensures forall i :: 0 <= i < |r| ==> r[i] == SegmentElement(segments[i])
  {
    if |segments| == 0 then [] else [SegmentElement(segments[0])] + Unstructured(segments[1..])
  }

  /** Ungrouped segments flatten back to themselves. */
  lemma {:induction false} FlattenUnstructured(segments: seq<Segment>)
    ensures Flatten(Unstructured(segments)) == segments
    decreases |segments|
  {
    if |segments| > 0 {
      var u := Unstructured(segments);
      assert u[1..] == Unstructured(segments[1..]);
      FlattenUnstructured(segments[1..]);
    }
  }
}
