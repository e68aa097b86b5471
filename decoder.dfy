/** The four decomposition stages of the ER7 decoder: segments are split into
    fields (and repetitions), fields into components, components into
    sub-components. Each stage is a filter-and-map over the pieces of one
    split, written as a recursion over the piece index. */
module Decoder {
  import opened Text
  import opened Results
  import opened Reference
  import opened Elements
  import opened MessageInfo

  /** What every stage needs: the separators, the validation policy and the
      reference tables of the message's version. */
  datatype Context = Context(encoding: EncodingChars, policy: Policy, ref: Reference)

  /** The positions of the pieces whose text is not blank, in order. */
  function KeptFrom(pieces: seq<string>, i: nat): (r: seq<nat>)
    requires i <= |pieces|
    ensures forall j :: 0 <= j < |r| ==> i <= r[j] < |pieces|
    decreases |pieces| - i
  {
    if i == |pieces| then []
    else if !Blank(pieces[i]) then [i] + KeptFrom(pieces, i + 1)
    else KeptFrom(pieces, i + 1)
  }

  /** The kept positions are exactly the non-blank pieces, in increasing order. */
  lemma {:induction false} KeptExactly(pieces: seq<string>, i: nat)
    requires i <= |pieces|
    ensures var r := KeptFrom(pieces, i);
      && (forall j :: 0 <= j < |r| ==> !Blank(pieces[r[j]]))
      && (forall j, k :: 0 <= j < k < |r| ==> r[j] < r[k])
      && (forall p :: i <= p < |pieces| && !Blank(pieces[p]) ==> p in r)
    decreases |pieces| - i
  {
    if i < |pieces| {
      KeptExactly(pieces, i + 1);
      var r := KeptFrom(pieces, i);
      var rest := KeptFrom(pieces, i + 1);
      if !Blank(pieces[i]) {
        assert r == [i] + rest;
        forall p | i <= p < |pieces| && !Blank(pieces[p]) ensures p in r {
          if p > i { assert p in rest; }
        }
      } else {
        assert r == rest;
      }
    }
  }

  /** The positions `lo` to `hi - 1`, in order. */
  function Range(lo: nat, hi: nat): (r: seq<nat>)
    requires lo <= hi
    ensures |r| == hi - lo && forall k :: 0 <= k < |r| ==> r[k] == lo + k
    decreases hi - lo
  {
    if lo == hi then [] else [lo] + Range(lo + 1, hi)
  }

  /** The positions from `i` on that a stage keeps: every one when the stage
      keeps blank pieces too, otherwise the non-blank ones. */
  function KeptPositions(pieces: seq<string>, i: nat, keepAll: bool): (r: seq<nat>)
    requires i <= |pieces|
    ensures forall j :: 0 <= j < |r| ==> i <= r[j] < |pieces|
  {
    if keepAll then Range(i, |pieces|) else KeptFrom(pieces, i)
  }

  /** Each kept piece together with its position, which gives its name. */
  function Sources(pieces: seq<string>, kept: seq<nat>): (r: seq<(string, nat)>)
    requires forall j :: 0 <= j < |kept| ==> kept[j] < |pieces|
    ensures |r| == |kept| && forall j :: 0 <= j < |r| ==> r[j] == (pieces[kept[j]], kept[j])
  {
    if |kept| == 0 then [] else [(pieces[kept[0]], kept[0])] + Sources(pieces, kept[1..])
  }

  /** Collecting over the sources of kept positions, stated position by position. */
  lemma CollectSources<T>(pieces: seq<string>, kept: seq<nat>, at: ((string, nat)) -> Result<T>)
    requires forall j :: 0 <= j < |kept| ==> kept[j] < |pieces|
    ensures var r := Collect(Sources(pieces, kept), at);
      && (r.Ok? <==> forall j :: 0 <= j < |kept| ==> at((pieces[kept[j]], kept[j])).Ok?)
      && (r.Ok? ==> |r.value| == |kept| && forall j :: 0 <= j < |kept| ==> r.value[j] == at((pieces[kept[j]], kept[j])).value)
  {
    CollectEach(Sources(pieces, kept), at);
  }

  /** `datatype` cleared to unknown when the quiet policy finds more than one
      child under a base datatype. */
  function QuietDatatype(dataType: Option<string>, children: nat, ctx: Context): Option<string> {
    if ctx.policy == Quiet && IsBase(ctx.ref, dataType) && children > 1 then None else dataType
  }

  /** Collecting over every position, stated position by position. */
  lemma CollectEvery<T>(pieces: seq<string>, at: ((string, nat)) -> Result<T>)
    ensures var r := Collect(Sources(pieces, KeptPositions(pieces, 0, true)), at);
      && (r.Ok? <==> forall i :: 0 <= i < |pieces| ==> at((pieces[i], i)).Ok?)
      && (r.Ok? ==> |r.value| == |pieces| && forall i :: 0 <= i < |pieces| ==> r.value[i] == at((pieces[i], i)).value)
  {
    var kept := KeptPositions(pieces, 0, true);
    CollectSources(pieces, kept, at);
    assert |kept| == |pieces|;
    var r := Collect(Sources(pieces, kept), at);
    if forall i :: 0 <= i < |pieces| ==> at((pieces[i], i)).Ok? {
      forall j | 0 <= j < |kept|
        ensures at((pieces[kept[j]], kept[j])).Ok?
      {
        assert kept[j] == j;
      }
    }
    forall i | 0 <= i < |pieces|
      ensures r.Ok? ==> at((pieces[i], i)).Ok? && r.value[i] == at((pieces[i], i)).value
    {
      assert kept[i] == i;
    }
  }

  // ---------------------------------------------------------------------------
  // Sub-components

  /** `parse_subcomponent`: a sub-component holding the raw text. */
  function ParseSubcomponent(text: string, name: Option<string>, dataType: Option<string>, ctx: Context): (r: Result<SubComponent>)
    ensures r.Ok? ==> r.value.value == text && r.value.name == name
    ensures r.Ok? && dataType.Some? ==> r.value.dataType == dataType
    ensures r.Ok? && name.None? ==> r.value.dataType == dataType
    ensures r.Ok? && name.Some? && dataType.None? ==>
      ctx.ref.element(SubComponentKind, name.value, ctx.policy).Resolved? &&
      r.value.dataType == ctx.ref.element(SubComponentKind, name.value, ctx.policy).dataType
    ensures r.Err? <==> name.Some? && ctx.ref.element(SubComponentKind, name.value, ctx.policy).UnknownName?
    ensures r.Err? ==> r.error == InvalidName(name.value)
  {
    match name
    case None => Ok(SubComponent(None, dataType, text))
    case Some(n) =>
      match ctx.ref.element(SubComponentKind, n, ctx.policy)
      case UnknownName => Err(InvalidName(n))
      case Resolved(d) => Ok(SubComponent(name, if dataType.Some? then dataType else d, text))
  }

  /** Sub-components of a base or unknown datatype are unnamed. */
  predicate UnnamedSubcomponents(componentType: Option<string>, ctx: Context) {
    IsBase(ctx.ref, componentType) || componentType.None?
  }

  function SubcomponentName(componentType: Option<string>, i: nat, ctx: Context): Option<string> {
    if UnnamedSubcomponents(componentType, ctx) then None else Some(Positional(componentType.value, i))
  }

  function SubcomponentType(componentType: Option<string>, ctx: Context): Option<string> {
    if UnnamedSubcomponents(componentType, ctx) then
      (if componentType.Some? then componentType else Some("ST"))
    else None
  }

  /** Decodes one kept sub-component piece at its position. */
  function SubcomponentAt(componentType: Option<string>, ctx: Context): ((string, nat)) -> Result<SubComponent> {
    (s: (string, nat)) => ParseSubcomponent(s.0, SubcomponentName(componentType, s.1, ctx), SubcomponentType(componentType, ctx), ctx)
  }

  /** The loop of `parse_subcomponents`: the kept pieces (all of them under
      a base or unknown datatype, the non-blank ones otherwise) each decoded
      at its own position, in order; it fails exactly when one of them fails. */
  function SubcomponentsOf(pieces: seq<string>, componentType: Option<string>, ctx: Context): (r: Result<seq<SubComponent>>)
    ensures var kept := KeptPositions(pieces, 0, UnnamedSubcomponents(componentType, ctx));
      && (r.Ok? <==> forall j :: 0 <= j < |kept| ==>
            ParseSubcomponent(pieces[kept[j]], SubcomponentName(componentType, kept[j], ctx), SubcomponentType(componentType, ctx), ctx).Ok?)
      && (r.Ok? ==> |r.value| == |kept| && forall j :: 0 <= j < |kept| ==>
            r.value[j] == ParseSubcomponent(pieces[kept[j]], SubcomponentName(componentType, kept[j], ctx), SubcomponentType(componentType, ctx), ctx).value)
  {
    var kept := KeptPositions(pieces, 0, UnnamedSubcomponents(componentType, ctx));
    var at := SubcomponentAt(componentType, ctx);
    CollectSources(pieces, kept, at);
    assert forall j :: 0 <= j < |kept| ==> (at((pieces[kept[j]], kept[j])) ==
      ParseSubcomponent(pieces[kept[j]], SubcomponentName(componentType, kept[j], ctx), SubcomponentType(componentType, ctx), ctx));
    Collect(Sources(pieces, kept), at)
  }

  /** `parse_subcomponents`: the sub-components of the pieces between
      sub-component separators. */
  function ParseSubcomponents(text: string, componentType: Option<string>, ctx: Context): Result<seq<SubComponent>> {
    SubcomponentsOf(Split(text, ctx.encoding.subcomponent), componentType, ctx)
  }

  function SubValues(subs: seq<SubComponent>): (r: seq<string>)
    ensures |r| == |subs| && forall k :: 0 <= k < |r| ==> r[k] == subs[k].value
  {
    if |subs| == 0 then [] else [subs[0].value] + SubValues(subs[1..])
  }

  // ---------------------------------------------------------------------------
  // Components

  /** The prefix of a non-base field's component names: `VARIES` for an
      unknown or `varies` field, the field's own datatype otherwise. */
  function ComponentPrefix(fieldType: Option<string>): string {
    if fieldType.None? || fieldType == Some("varies") then "VARIES" else fieldType.value
  }

  function ComponentName(fieldType: Option<string>, i: nat, ctx: Context): Option<string> {
    if IsBase(ctx.ref, fieldType) then None else Some(Positional(ComponentPrefix(fieldType), i))
  }

  function ComponentType(fieldType: Option<string>, ctx: Context): Option<string> {
    if IsBase(ctx.ref, fieldType) then fieldType else None
  }

  /** Which components `parse_components` keeps: the non-blank ones, the
      unnamed ones and the `VARIES_` ones. Here and in the other stages the
      test `piece.strip()` is written `!Blank(piece)`; `StripEmptyIff` shows
      the two agree. */
  predicate KeepComponent(piece: string, name: Option<string>) {
    !Blank(piece) || name.None? || StartsWith(name.value, "VARIES_")
  }

  /** The fields whose components are all kept, blank ones included: those of
      a base datatype (unnamed components) and those whose component names
      start with `VARIES_`. */
  predicate KeepsAllComponents(fieldType: Option<string>, ctx: Context) {
    IsBase(ctx.ref, fieldType) || StartsWith(ComponentPrefix(fieldType) + "_", "VARIES_")
  }

  /** The keep rule depends on the position only through the piece. */
  lemma KeepComponentAt(piece: string, fieldType: Option<string>, i: nat, ctx: Context)
    ensures KeepComponent(piece, ComponentName(fieldType, i, ctx)) <==> KeepsAllComponents(fieldType, ctx) || !Blank(piece)
  {
    if !IsBase(ctx.ref, fieldType) {
      PositionalVaries(ComponentPrefix(fieldType), i);
    }
  }

  /** The name and datatype `parse_component` ends up with. A known name keeps
      the given datatype, or takes the reference's when none is given. A name
      the reference does not know is an error under the strict policy;
      otherwise the component is built again with the datatype in the name
      position, which must then be known itself. */
  function ComponentHead(name: Option<string>, dataType: Option<string>, ctx: Context): (r: Result<(Option<string>, Option<string>)>)
    ensures name.None? ==> r == Ok((None, dataType))
    ensures name.Some? && ctx.ref.element(ComponentKind, name.value, ctx.policy).Resolved? ==>
      r.Ok? && r.value.0 == name &&
      r.value.1 == (if dataType.Some? then dataType else ctx.ref.element(ComponentKind, name.value, ctx.policy).dataType)
    ensures name.Some? && ctx.ref.element(ComponentKind, name.value, ctx.policy).UnknownName? && ctx.policy == Strict ==>
      r == Err(InvalidName(name.value))
    ensures name.Some? && ctx.ref.element(ComponentKind, name.value, ctx.policy).UnknownName? && ctx.policy != Strict ==>
      && (r.Ok? <==> dataType.None? || ctx.ref.element(ComponentKind, dataType.value, ctx.policy).Resolved?)
      && (r.Ok? ==> (r.value.0 == dataType &&
            r.value.1 == if dataType.None? then None else ctx.ref.element(ComponentKind, dataType.value, ctx.policy).dataType))
      && (r.Err? ==> r.error == InvalidName(dataType.value))
  {
    match name
    case None => Ok((None, dataType))
    case Some(n) =>
      match ctx.ref.element(ComponentKind, n, ctx.policy)
      case Resolved(d) => Ok((name, if dataType.Some? then dataType else d))
      case UnknownName =>
        if ctx.policy == Strict then Err(InvalidName(n))
        else
          match dataType
          case None => Ok((None, None))
          case Some(t) =>
            match ctx.ref.element(ComponentKind, t, ctx.policy)
            case Resolved(d) => Ok((dataType, d))
            case UnknownName => Err(InvalidName(t))
  }

  /** `parse_component`: the component gets the name and datatype
      `ComponentHead` settles on and, as children, the sub-components of its
      whole text under that datatype; it fails exactly when one of the two
      steps does. */
  function ParseComponent(text: string, name: Option<string>, dataType: Option<string>, ctx: Context): (r: Result<Component>)
    ensures var head := ComponentHead(name, dataType, ctx);
      && (r.Ok? <==> head.Ok? && ParseSubcomponents(text, head.value.1, ctx).Ok?)
      && (head.Err? ==> r == Err(head.error))
      && (r.Ok? ==> r.value.name == head.value.0 && r.value.children == ParseSubcomponents(text, head.value.1, ctx).value)
    ensures r.Ok? && ctx.policy == Quiet && |r.value.children| > 1 ==> !IsBase(ctx.ref, r.value.dataType)
    ensures r.Ok? && !(ctx.policy == Quiet && |r.value.children| > 1) ==> r.value.dataType == ComponentHead(name, dataType, ctx).value.1
  {
    var head :- ComponentHead(name, dataType, ctx);
    var children :- ParseSubcomponents(text, head.1, ctx);
    Ok(Component(head.0, QuietDatatype(head.1, |children|, ctx), children))
  }

  /** Decodes one kept component piece at its position. */
  function ComponentAt(fieldType: Option<string>, ctx: Context): ((string, nat)) -> Result<Component> {
    (s: (string, nat)) => ParseComponent(s.0, ComponentName(fieldType, s.1, ctx), ComponentType(fieldType, ctx), ctx)
  }

  /** The loop of `parse_components`: the kept pieces (all of them under a
      base datatype or `VARIES_` names, the non-blank ones otherwise) each
      decoded at its own position, in order; it fails exactly when one of
      them fails. */
  function ComponentsOf(pieces: seq<string>, fieldType: Option<string>, ctx: Context): (r: Result<seq<Component>>)
    ensures var kept := KeptPositions(pieces, 0, KeepsAllComponents(fieldType, ctx));
      && (r.Ok? <==> forall j :: 0 <= j < |kept| ==>
            ParseComponent(pieces[kept[j]], ComponentName(fieldType, kept[j], ctx), ComponentType(fieldType, ctx), ctx).Ok?)
      && (r.Ok? ==> |r.value| == |kept| && forall j :: 0 <= j < |kept| ==>
            r.value[j] == ParseComponent(pieces[kept[j]], ComponentName(fieldType, kept[j], ctx), ComponentType(fieldType, ctx), ctx).value)
  {
    var kept := KeptPositions(pieces, 0, KeepsAllComponents(fieldType, ctx));
    var at := ComponentAt(fieldType, ctx);
    CollectSources(pieces, kept, at);
    assert forall j :: 0 <= j < |kept| ==> (at((pieces[kept[j]], kept[j])) ==
      ParseComponent(pieces[kept[j]], ComponentName(fieldType, kept[j], ctx), ComponentType(fieldType, ctx), ctx));
    Collect(Sources(pieces, kept), at)
  }

  /** `parse_components`: the components of the pieces between component
      separators. */
  function ParseComponents(text: string, fieldType: Option<string>, ctx: Context): Result<seq<Component>> {
    ComponentsOf(Split(text, ctx.encoding.component), fieldType, ctx)
  }

  // ---------------------------------------------------------------------------
  // Fields

  /** The name and datatype of a field. An unknown name gives a `varies` field
      when the segment accepts unbounded trailing fields, and an unnamed field
      otherwise, whatever the policy. */
  function FieldHead(name: Option<string>, ctx: Context, forceVaries: bool): (Option<string>, Option<string>) {
    match name
    case None => (None, None)
    case Some(n) =>
      match ctx.ref.element(FieldKind, n, ctx.policy)
      case Resolved(d) => (name, d)
      case UnknownName => if forceVaries then (name, Some("varies")) else (None, None)
  }

  /** The single ST component with one ST sub-component that MSH.1 and MSH.2 hold. */
  function RawValue(text: string): seq<Component> {
    [Component(None, Some("ST"), [SubComponent(None, Some("ST"), text)])]
  }

  predicate IsMshHeaderField(name: Option<string>) {
    name == Some("MSH_1") || name == Some("MSH_2")
  }

  /** `parse_field`: MSH.1 and MSH.2 hold their raw text; any other field
      gets the name and datatype `FieldHead` settles on and, as children, the
      components of its text under that datatype, failing exactly when they
      fail. */
  function ParseField(text: string, name: Option<string>, ctx: Context, forceVaries: bool): (r: Result<Field>)
    ensures IsMshHeaderField(name) ==> r.Ok? && r.value.children == RawValue(text)
    ensures r.Ok? ==> r.value.name == FieldHead(name, ctx, forceVaries).0
    ensures !IsMshHeaderField(name) ==>
      var components := ParseComponents(text, FieldHead(name, ctx, forceVaries).1, ctx);
      && (r.Ok? <==> components.Ok?)
      && (r.Err? ==> r.error == components.error)
      && (r.Ok? ==> r.value.children == components.value)
    ensures r.Ok? && ctx.policy == Quiet && |r.value.children| > 1 ==> !IsBase(ctx.ref, r.value.dataType)
    ensures r.Ok? && !(ctx.policy == Quiet && |r.value.children| > 1) ==> r.value.dataType == FieldHead(name, ctx, forceVaries).1
  {
    var head := FieldHead(name, ctx, forceVaries);
    if IsMshHeaderField(name) then
      Ok(Field(head.0, head.1, RawValue(text)))
    else
      var children :- ParseComponents(text, head.1, ctx);
      Ok(Field(head.0, QuietDatatype(head.1, |children|, ctx), children))
  }

  /** Decodes one repetition of a field named `name`. */
  function RepetitionAt(name: Option<string>, ctx: Context, forceVaries: bool): string -> Result<Field> {
    (rep: string) => ParseField(rep, name, ctx, forceVaries)
  }

  /** The inner loop of `parse_fields`: one field per repetition of the
      piece, each decoded under the same name; it fails exactly when one of
      them fails. */
  function Repetitions(piece: string, name: Option<string>, ctx: Context, forceVaries: bool): (r: Result<seq<Field>>)
    ensures r == Collect(Split(piece, ctx.encoding.repetition), RepetitionAt(name, ctx, forceVaries))
    ensures var reps := Split(piece, ctx.encoding.repetition);
      && (r.Ok? <==> forall k :: 0 <= k < |reps| ==> ParseField(reps[k], name, ctx, forceVaries).Ok?)
      && (r.Ok? ==> |r.value| == |reps| && forall k :: 0 <= k < |reps| ==> r.value[k] == ParseField(reps[k], name, ctx, forceVaries).value)
    ensures r.Ok? ==> forall k :: 0 <= k < |r.value| ==> r.value[k].name == FieldHead(name, ctx, forceVaries).0
  {
    var reps := Split(piece, ctx.encoding.repetition);
    CollectEach(reps, RepetitionAt(name, ctx, forceVaries));
    assert forall k :: 0 <= k < |reps| ==> RepetitionAt(name, ctx, forceVaries)(reps[k]) == ParseField(reps[k], name, ctx, forceVaries);
    Collect(reps, RepetitionAt(name, ctx, forceVaries))
  }

  function FieldName(prefix: Option<string>, i: nat): Option<string> {
    if prefix.Some? then Some(Positional(prefix.value, i)) else None
  }

  /** One pass of `parse_fields`'s loop: the fields that the piece at a
      position with name `name` contributes. A non-blank or unnamed piece
      gives one field per repetition, except MSH.2, which gives one field
      holding the whole piece; a blank named piece gives nothing, except
      MSH.1, which gives the field separator. */
  function PieceFields(piece: string, name: Option<string>, ctx: Context, forceVaries: bool): (r: Result<seq<Field>>)
    ensures (!Blank(piece) || name.None?) && name != Some("MSH_2") ==> r == Repetitions(piece, name, ctx, forceVaries)
    ensures !Blank(piece) && name == Some("MSH_2") ==>
      r.Ok? && |r.value| == 1 && r.value[0] == ParseField(piece, name, ctx, false).value && r.value[0].children == RawValue(piece)
    ensures Blank(piece) && name == Some("MSH_1") ==>
      r.Ok? && |r.value| == 1 && r.value[0] == ParseField([ctx.encoding.field], name, ctx, false).value &&
      r.value[0].children == RawValue([ctx.encoding.field])
    ensures Blank(piece) && name.Some? && name != Some("MSH_1") ==> r == Ok([])
    ensures r.Ok? ==> (|r.value| == 0 <==> Blank(piece) && name.Some? && name != Some("MSH_1"))
  {
    if !Blank(piece) || name.None? then
      if name == Some("MSH_2") then
        Ok([ParseField(piece, name, ctx, false).value])
      else
        Repetitions(piece, name, ctx, forceVaries)
    else if name == Some("MSH_1") then
      Ok([ParseField([ctx.encoding.field], name, ctx, false).value])
    else
      Ok([])
  }

  /** The fields the piece at a position contributes. */
  function FieldsAt(prefix: Option<string>, ctx: Context, forceVaries: bool): ((string, nat)) -> Result<seq<Field>> {
    (s: (string, nat)) => PieceFields(s.0, FieldName(prefix, s.1), ctx, forceVaries)
  }

  /** The loop of `parse_fields`: each piece contributes its fields at its
      own position, in order; it fails exactly when one of them fails. */
  function FieldsOf(pieces: seq<string>, prefix: Option<string>, ctx: Context, forceVaries: bool): (r: Result<seq<Field>>)
    ensures && (r.Ok? <==> forall i :: 0 <= i < |pieces| ==> PieceFields(pieces[i], FieldName(prefix, i), ctx, forceVaries).Ok?)
      && (r.Ok? ==> exists parts: seq<seq<Field>> ::
            && r.value == Concat(parts)
            && |parts| == |pieces|
            && forall i :: 0 <= i < |pieces| ==> parts[i] == PieceFields(pieces[i], FieldName(prefix, i), ctx, forceVaries).value)
  {
    var at := FieldsAt(prefix, ctx, forceVaries);
    var parts := Collect(Sources(pieces, KeptPositions(pieces, 0, true)), at);
    CollectEvery(pieces, at);
    assert forall i :: 0 <= i < |pieces| ==> (at((pieces[i], i)) == PieceFields(pieces[i], FieldName(prefix, i), ctx, forceVaries));
    Concatenated(parts)
  }

  /** `parse_fields`: the fields of the pieces between field separators, once
      trailing carriage returns are removed. */
  function ParseFields(text: string, prefix: Option<string>, ctx: Context, forceVaries: bool): Result<seq<Field>> {
    FieldsOf(Split(StripCR(text), ctx.encoding.field), prefix, ctx, forceVaries)
  }

  // ---------------------------------------------------------------------------
  // Segments

  /** The field text of a segment: after the name and the field separator,
      except for MSH, whose field separator is itself MSH.1. */
  function SegmentBody(text: string): string {
    if Take(text, 3) != "MSH" then Drop(text, 4) else Drop(text, 3)
  }

  /** `parse_segment`: the segment takes its name from the first three
      characters, which the reference must know; its children are the fields
      of the rest of the text under that prefix, with the segment's
      unbounded-trailing-fields flag; it fails exactly when they fail. */
  function ParseSegment(text: string, ctx: Context): (r: Result<Segment>)
    ensures ctx.ref.segment(Take(text, 3), ctx.policy).None? ==> r == Err(InvalidName(Take(text, 3)))
    ensures ctx.ref.segment(Take(text, 3), ctx.policy).Some? ==>
      var fields := ParseFields(SegmentBody(text), Some(Take(text, 3)), ctx, ctx.ref.segment(Take(text, 3), ctx.policy).value);
      && (r.Ok? <==> fields.Ok?)
      && (r.Err? ==> r.error == fields.error)
      && (r.Ok? ==> r.value == Segment(Take(text, 3), fields.value))
  {
    var name := Take(text, 3);
    match ctx.ref.segment(name, ctx.policy)
    case None => Err(InvalidName(name))
    case Some(infinite) =>
      var fields :- ParseFields(SegmentBody(text), Some(name), ctx, infinite);
      Ok(Segment(name, fields))
  }

  /** A piece between segment separators holds a segment when it is not empty. */
  predicate Filled(piece: string) {
    |piece| > 0
  }

  /** The positions of the non-empty pieces, in order. */
  function FilledFrom(pieces: seq<string>, i: nat): (r: seq<nat>)
    requires i <= |pieces|
    ensures forall j :: 0 <= j < |r| ==> i <= r[j] < |pieces|
    decreases |pieces| - i
  {
    if i == |pieces| then []
    else if Filled(pieces[i]) then [i] + FilledFrom(pieces, i + 1)
    else FilledFrom(pieces, i + 1)
  }

  /** The filled positions are exactly the non-empty pieces, in increasing order. */
  lemma {:induction false} FilledExactly(pieces: seq<string>, i: nat)
    requires i <= |pieces|
    ensures var r := FilledFrom(pieces, i);
      && (forall j :: 0 <= j < |r| ==> Filled(pieces[r[j]]))
      && (forall j, k :: 0 <= j < k < |r| ==> r[j] < r[k])
      && (forall p :: i <= p < |pieces| && Filled(pieces[p]) ==> p in r)
    decreases |pieces| - i
  {
    if i < |pieces| {
      FilledExactly(pieces, i + 1);
      var r := FilledFrom(pieces, i);
      var rest := FilledFrom(pieces, i + 1);
      if Filled(pieces[i]) {
        assert r == [i] + rest;
        forall p | i <= p < |pieces| && Filled(pieces[p]) ensures p in r {
          if p > i { assert p in rest; }
        }
      } else {
        assert r == rest;
        forall j | 0 <= j < |r| ensures Filled(pieces[r[j]]) {
          assert r[j] == rest[j];
          assert 0 <= j < |rest|;
          assert Filled(pieces[rest[j]]);
        }
      }
    }
  }

  /** Decodes one segment piece from its stripped text. */
  function SegmentAt(ctx: Context): ((string, nat)) -> Result<Segment> {
    (s: (string, nat)) => ParseSegment(Strip(s.0), ctx)
  }

  /** Collecting segments over the filled positions, stated position by position. */
  lemma SegmentsCollect(pieces: seq<string>, ctx: Context)
    ensures var filled := FilledFrom(pieces, 0);
      var r := Collect(Sources(pieces, filled), SegmentAt(ctx));
      && (r.Ok? <==> forall j :: 0 <= j < |filled| ==> ParseSegment(Strip(pieces[filled[j]]), ctx).Ok?)
      && (r.Ok? ==> |r.value| == |filled| && forall j :: 0 <= j < |filled| ==>
            r.value[j] == ParseSegment(Strip(pieces[filled[j]]), ctx).value)
  {
    var filled := FilledFrom(pieces, 0);
    var at := SegmentAt(ctx);
    var r := Collect(Sources(pieces, filled), at);
    CollectSources(pieces, filled, at);
    if r.Ok? {
      forall j | 0 <= j < |filled| ensures ParseSegment(Strip(pieces[filled[j]]), ctx).Ok? {
        assert at((pieces[filled[j]], filled[j])).Ok?;
      }
    } else {
      var j :| 0 <= j < |filled| && !at((pieces[filled[j]], filled[j])).Ok?;
      assert !ParseSegment(Strip(pieces[filled[j]]), ctx).Ok?;
    }
  }

  /** The comprehension of `parse_segments`: one segment per non-empty
      piece, in order, each decoded from the piece's stripped text; it fails
      exactly when one of them fails. */
  function SegmentsOf(pieces: seq<string>, ctx: Context): (r: Result<seq<Segment>>)
    ensures var filled := FilledFrom(pieces, 0);
      && (r.Ok? <==> forall j :: 0 <= j < |filled| ==> ParseSegment(Strip(pieces[filled[j]]), ctx).Ok?)
      && (r.Ok? ==> |r.value| == |filled| && forall j :: 0 <= j < |filled| ==>
            r.value[j] == ParseSegment(Strip(pieces[filled[j]]), ctx).value)
  {
    SegmentsCollect(pieces, ctx);
    Collect(Sources(pieces, FilledFrom(pieces, 0)), SegmentAt(ctx))
  }

  /** `parse_segments`: the segments of the pieces between segment separators. */
  function ParseSegments(text: string, ctx: Context): Result<seq<Segment>> {
    SegmentsOf(Split(text, SegmentSeparator), ctx)
  }
}
