/** What the decomposition stages promise: which pieces become children,
    under which names, and that nothing is lost where nothing is dropped. */
module DecoderProperties {
  import opened Text
  import opened Results
  import opened Reference
  import opened Elements
  import opened MessageInfo
  import opened Decoder

  // ---------------------------------------------------------------------------
  // Sub-components

  /** Under a base or unknown datatype every piece becomes an unnamed
      sub-component holding that piece, with the given datatype or `ST`. */
  lemma UnnamedSubcomponentsKeepAll(pieces: seq<string>, ct: Option<string>, ctx: Context)
    requires UnnamedSubcomponents(ct, ctx)
    ensures var r := SubcomponentsOf(pieces, ct, ctx);
      && r.Ok?
      && SubValues(r.value) == pieces
      && forall k :: 0 <= k < |r.value| ==>
           r.value[k].name.None? && r.value[k].dataType == (if ct.Some? then ct else Some("ST"))
  {
    var kept := KeptPositions(pieces, 0, true);
    var r := SubcomponentsOf(pieces, ct, ctx);
    forall j | 0 <= j < |kept|
      ensures kept[j] == j && ParseSubcomponent(pieces[kept[j]], SubcomponentName(ct, kept[j], ctx), SubcomponentType(ct, ctx), ctx).Ok?
    {
    }
    assert r.Ok?;
    forall k | 0 <= k < |r.value| ensures SubValues(r.value)[k] == pieces[k] {
      assert kept[k] == k;
    }
  }

  /** Under a base or unknown datatype decoding never fails, keeps one
      unnamed sub-component per piece (blank ones included) with the given
      datatype or `ST`, and the values joined by the sub-component separator
      give the text back. */
  lemma UnnamedSubcomponentsLossless(text: string, ct: Option<string>, ctx: Context)
    requires UnnamedSubcomponents(ct, ctx)
    ensures var r := ParseSubcomponents(text, ct, ctx);
      && r.Ok?
      && |r.value| == |Split(text, ctx.encoding.subcomponent)|
      && Join(SubValues(r.value), ctx.encoding.subcomponent) == text
      && forall k :: 0 <= k < |r.value| ==>
           r.value[k].name.None? && r.value[k].dataType == (if ct.Some? then ct else Some("ST"))
  {
    UnnamedSubcomponentsKeepAll(Split(text, ctx.encoding.subcomponent), ct, ctx);
    JoinSplit(text, ctx.encoding.subcomponent);
  }

  /** Whether every kept position has a name under `prefix` that the reference knows. */
  predicate NamesResolve(prefix: string, kept: seq<nat>, kind: ElementKind, ctx: Context) {
    forall j :: 0 <= j < |kept| ==> ctx.ref.element(kind, Positional(prefix, kept[j]), ctx.policy).Resolved?
  }

  /** Under a composite datatype `DT` the sub-components are exactly the
      non-blank pieces, in order, each named `DT_{position+1}` after its own
      position, holding that piece and typed as the reference says; decoding
      fails exactly when one of those names is unknown to the reference. */
  lemma NamedSubcomponentsPositions(pieces: seq<string>, ct: Option<string>, ctx: Context)
    requires !UnnamedSubcomponents(ct, ctx)
    ensures var kept := KeptFrom(pieces, 0);
      var r := SubcomponentsOf(pieces, ct, ctx);
      && (r.Ok? <==> NamesResolve(ct.value, kept, SubComponentKind, ctx))
      && (r.Ok? ==> |r.value| == |kept| && forall j :: 0 <= j < |kept| ==>
            && r.value[j].value == pieces[kept[j]]
            && r.value[j].name == Some(Positional(ct.value, kept[j]))
            && r.value[j].dataType == ctx.ref.element(SubComponentKind, Positional(ct.value, kept[j]), ctx.policy).dataType)
  {
    var kept := KeptFrom(pieces, 0);
    assert KeptPositions(pieces, 0, UnnamedSubcomponents(ct, ctx)) == kept;
    var r := SubcomponentsOf(pieces, ct, ctx);
    if NamesResolve(ct.value, kept, SubComponentKind, ctx) {
      forall j | 0 <= j < |kept|
        ensures ParseSubcomponent(pieces[kept[j]], SubcomponentName(ct, kept[j], ctx), SubcomponentType(ct, ctx), ctx).Ok?
      {
        assert ctx.ref.element(SubComponentKind, Positional(ct.value, kept[j]), ctx.policy).Resolved?;
      }
    }
    if r.Ok? {
      forall j | 0 <= j < |kept|
        ensures ctx.ref.element(SubComponentKind, Positional(ct.value, kept[j]), ctx.policy).Resolved?
      {
        assert ParseSubcomponent(pieces[kept[j]], SubcomponentName(ct, kept[j], ctx), SubcomponentType(ct, ctx), ctx).Ok?;
      }
    }
  }

  // ---------------------------------------------------------------------------
  // Components

  /** The ER7 text of a component whose sub-components are all present. */
  function ComponentText(c: Component, ctx: Context): string {
    Join(SubValues(c.children), ctx.encoding.subcomponent)
  }

  function ComponentTexts(cs: seq<Component>, ctx: Context): (r: seq<string>)
    ensures |r| == |cs| && forall k :: 0 <= k < |r| ==> r[k] == ComponentText(cs[k], ctx)
  {
    if |cs| == 0 then [] else [ComponentText(cs[0], ctx)] + ComponentTexts(cs[1..], ctx)
  }

  /** Under a base field datatype every piece becomes an unnamed component
      whose text is the piece. */
  lemma BaseComponentsKeepAll(pieces: seq<string>, ft: Option<string>, ctx: Context)
    requires IsBase(ctx.ref, ft)
    ensures var r := ComponentsOf(pieces, ft, ctx);
      && r.Ok?
      && ComponentTexts(r.value, ctx) == pieces
      && forall k :: 0 <= k < |r.value| ==> r.value[k].name.None?
  {
    var kept := KeptPositions(pieces, 0, true);
    assert KeepsAllComponents(ft, ctx);
    forall j | 0 <= j < |kept|
      ensures kept[j] == j
      ensures var c := ParseComponent(pieces[j], ComponentName(ft, j, ctx), ComponentType(ft, ctx), ctx);
        c.Ok? && c.value.name.None? && ComponentText(c.value, ctx) == pieces[j]
    {
      assert ComponentName(ft, j, ctx) == None && ComponentType(ft, ctx) == ft;
      UnnamedSubcomponentsLossless(pieces[j], ft, ctx);
    }
    var r := ComponentsOf(pieces, ft, ctx);
    assert r.Ok?;
    forall k | 0 <= k < |r.value| ensures ComponentTexts(r.value, ctx)[k] == pieces[k] && r.value[k].name.None? {
      assert kept[k] == k;
    }
  }

  /** A field of a base datatype decodes without loss: every component is
      kept and unnamed, and the components' sub-component values, joined
      level by level, give the text back. */
  lemma BaseFieldLossless(text: string, ft: Option<string>, ctx: Context)
    requires IsBase(ctx.ref, ft)
    ensures var r := ParseComponents(text, ft, ctx);
      && r.Ok?
      && Join(ComponentTexts(r.value, ctx), ctx.encoding.component) == text
      && forall k :: 0 <= k < |r.value| ==> r.value[k].name.None?
  {
    BaseComponentsKeepAll(Split(text, ctx.encoding.component), ft, ctx);
    JoinSplit(text, ctx.encoding.component);
  }

  /** A component that settles on a base or unknown datatype decodes without
      loss: its sub-component values joined back give its text. */
  lemma ComponentLossless(text: string, name: Option<string>, dataType: Option<string>, ctx: Context)
    requires ComponentHead(name, dataType, ctx).Ok? && UnnamedSubcomponents(ComponentHead(name, dataType, ctx).value.1, ctx)
    ensures var r := ParseComponent(text, name, dataType, ctx);
      r.Ok? && ComponentText(r.value, ctx) == text
  {
    UnnamedSubcomponentsLossless(text, ComponentHead(name, dataType, ctx).value.1, ctx);
  }

  /** A field other than MSH.1 and MSH.2 that settles on a base datatype
      decodes without loss: its components' texts joined back give its text. */
  lemma FieldLossless(text: string, name: Option<string>, ctx: Context, forceVaries: bool)
    requires !IsMshHeaderField(name) && IsBase(ctx.ref, FieldHead(name, ctx, forceVaries).1)
    ensures var r := ParseField(text, name, ctx, forceVaries);
      r.Ok? && Join(ComponentTexts(r.value.children, ctx), ctx.encoding.component) == text
  {
    BaseFieldLossless(text, FieldHead(name, ctx, forceVaries).1, ctx);
  }

  /** A field with no datatype or the `varies` datatype keeps every
      component, blank or not: component `k` is decoded from the `k`-th piece
      under the name `VARIES_{k+1}` and no datatype, and decoding fails
      exactly when one of those pieces fails. */
  lemma VariesFieldKeepsAll(pieces: seq<string>, ft: Option<string>, ctx: Context)
    requires !IsBase(ctx.ref, ft) && (ft.None? || ft == Some("varies"))
    ensures var r := ComponentsOf(pieces, ft, ctx);
      && (r.Ok? <==> forall k :: 0 <= k < |pieces| ==>
            ParseComponent(pieces[k], Some(Positional("VARIES", k)), None, ctx).Ok?)
      && (r.Ok? ==> |r.value| == |pieces| && forall k :: 0 <= k < |pieces| ==>
            ParseComponent(pieces[k], Some(Positional("VARIES", k)), None, ctx) == Ok(r.value[k]))
  {
    assert ComponentPrefix(ft) == "VARIES";
    assert KeepsAllComponents(ft, ctx) by {
      assert "VARIES" + "_" == "VARIES_";
    }
    var kept := KeptPositions(pieces, 0, true);
    forall k | 0 <= k < |pieces|
      ensures kept[k] == k
      ensures ComponentName(ft, kept[k], ctx) == Some(Positional("VARIES", k)) && ComponentType(ft, ctx) == None
    {
    }
  }

  /** A field of a composite datatype `DT` keeps its non-blank components
      only, in order: the `j`-th component is decoded from the `j`-th
      non-blank piece under the name `DT_{position+1}` of that piece's own
      position and no datatype, so a blank piece leaves a gap in the names,
      not in the list. Decoding fails exactly when one of those pieces
      fails, and at the strict level every component keeps its positional
      name. */
  lemma CompositeComponentsPositions(pieces: seq<string>, ft: Option<string>, ctx: Context)
    requires !IsBase(ctx.ref, ft) && ft.Some? && ft != Some("varies") && !StartsWith(ft.value + "_", "VARIES_")
    ensures var kept := KeptFrom(pieces, 0);
      var r := ComponentsOf(pieces, ft, ctx);
      && (r.Ok? <==> forall j :: 0 <= j < |kept| ==>
            ParseComponent(pieces[kept[j]], Some(Positional(ft.value, kept[j])), None, ctx).Ok?)
      && (r.Ok? ==> |r.value| == |kept| && forall j :: 0 <= j < |kept| ==>
            ParseComponent(pieces[kept[j]], Some(Positional(ft.value, kept[j])), None, ctx) == Ok(r.value[j]))
      && (r.Ok? && ctx.policy == Strict ==> forall j :: 0 <= j < |kept| ==>
            r.value[j].name == Some(Positional(ft.value, kept[j])))
  {
    var kept := KeptFrom(pieces, 0);
    assert KeptPositions(pieces, 0, KeepsAllComponents(ft, ctx)) == kept;
    var r := ComponentsOf(pieces, ft, ctx);
    if r.Ok? && ctx.policy == Strict {
      forall j | 0 <= j < |kept| ensures r.value[j].name == Some(Positional(ft.value, kept[j])) {
        var name := Some(Positional(ft.value, kept[j]));
        assert ParseComponent(pieces[kept[j]], name, None, ctx) == Ok(r.value[j]);
        assert ctx.ref.element(ComponentKind, name.value, ctx.policy).Resolved?;
      }
    }
  }

  // ---------------------------------------------------------------------------
  // Fields

  /** Without a name prefix no piece is dropped, blank or not: the `i`-th
      piece contributes exactly the fields of its repetitions, decoded
      unnamed, and decoding fails exactly when one piece's repetitions fail. */
  lemma UnprefixedFieldsKeepAll(pieces: seq<string>, ctx: Context, forceVaries: bool)
    ensures var r := FieldsOf(pieces, None, ctx, forceVaries);
      && (r.Ok? <==> forall i :: 0 <= i < |pieces| ==> Repetitions(pieces[i], None, ctx, forceVaries).Ok?)
      && (r.Ok? ==> exists parts: seq<seq<Field>> ::
            && r.value == Concat(parts)
            && |parts| == |pieces|
            && forall i :: 0 <= i < |pieces| ==> Repetitions(pieces[i], None, ctx, forceVaries) == Ok(parts[i]))
  {
    assert forall i :: 0 <= i < |pieces| ==> PieceFields(pieces[i], FieldName(None, i), ctx, forceVaries) == Repetitions(pieces[i], None, ctx, forceVaries);
  }

  /** With a segment prefix `P` the piece at position `i` is the field
      `P_{i+1}`: a non-blank piece other than MSH.2 contributes the fields of
      its repetitions under that name, a blank piece contributes nothing
      except MSH.1, and decoding fails exactly when one such piece's
      repetitions fail. */
  lemma PrefixedFieldsPositions(pieces: seq<string>, prefix: string, ctx: Context, forceVaries: bool)
    ensures var r := FieldsOf(pieces, Some(prefix), ctx, forceVaries);
      && (r.Ok? <==> forall i :: 0 <= i < |pieces| && !Blank(pieces[i]) && Positional(prefix, i) != "MSH_2" ==>
            Repetitions(pieces[i], Some(Positional(prefix, i)), ctx, forceVaries).Ok?)
      && (r.Ok? ==> exists parts: seq<seq<Field>> ::
            && r.value == Concat(parts)
            && |parts| == |pieces|
            && forall i :: 0 <= i < |pieces| ==>
                 && (|parts[i]| == 0 <==> Blank(pieces[i]) && Positional(prefix, i) != "MSH_1")
                 && (!Blank(pieces[i]) && Positional(prefix, i) != "MSH_2" ==>
                       Repetitions(pieces[i], Some(Positional(prefix, i)), ctx, forceVaries) == Ok(parts[i])))
  {
    var r := FieldsOf(pieces, Some(prefix), ctx, forceVaries);
    forall i | 0 <= i < |pieces| ensures PrefixedPiece(pieces[i], prefix, i, ctx, forceVaries) {
      PrefixedPieceHolds(pieces[i], prefix, i, ctx, forceVaries);
    }
    if r.Ok? {
      var parts: seq<seq<Field>> :| && r.value == Concat(parts) && |parts| == |pieces|
        && forall i :: 0 <= i < |pieces| ==> parts[i] == PieceFields(pieces[i], FieldName(Some(prefix), i), ctx, forceVaries).value;
      forall i | 0 <= i < |pieces|
        ensures && (|parts[i]| == 0 <==> Blank(pieces[i]) && Positional(prefix, i) != "MSH_1")
                && (!Blank(pieces[i]) && Positional(prefix, i) != "MSH_2" ==>
                      Repetitions(pieces[i], Some(Positional(prefix, i)), ctx, forceVaries) == Ok(parts[i]))
      {
        assert PrefixedPiece(pieces[i], prefix, i, ctx, forceVaries);
        assert PieceFields(pieces[i], FieldName(Some(prefix), i), ctx, forceVaries) == Ok(parts[i]);
      }
    } else {
      var i :| 0 <= i < |pieces| && !PieceFields(pieces[i], FieldName(Some(prefix), i), ctx, forceVaries).Ok?;
      assert PrefixedPiece(pieces[i], prefix, i, ctx, forceVaries);
    }
  }

  /** What the piece at position `i` under prefix `P` contributes, in terms of
      its repetitions. */
  predicate PrefixedPiece(piece: string, prefix: string, i: nat, ctx: Context, forceVaries: bool) {
    var name := Positional(prefix, i);
    var r := PieceFields(piece, FieldName(Some(prefix), i), ctx, forceVaries);
    && (r.Ok? <==> (!Blank(piece) && name != "MSH_2" ==> Repetitions(piece, Some(name), ctx, forceVaries).Ok?))
    && (r.Ok? ==> (|r.value| == 0 <==> Blank(piece) && name != "MSH_1"))
    && (!Blank(piece) && name != "MSH_2" ==> r == Repetitions(piece, Some(name), ctx, forceVaries))
  }

  lemma PrefixedPieceHolds(piece: string, prefix: string, i: nat, ctx: Context, forceVaries: bool)
    ensures PrefixedPiece(piece, prefix, i, ctx, forceVaries)
  {
    assert FieldName(Some(prefix), i) == Some(Positional(prefix, i));
  }

  /** Stripping carriage returns keeps a prefix that starts and ends with other characters. */
  lemma StripCRKeepsPrefix(s: string, n: nat)
    requires 0 < n <= |s| && s[0] != '\r' && s[n - 1] != '\r'
    ensures |StripCR(s)| >= n && StripCR(s)[..n] == s[..n]
  {
    assert LStripBy(s, IsCarriageReturn) == s;
    var r := RStripBy(s, IsCarriageReturn);
    RStripByShape(s, IsCarriageReturn);
    assert !IsCarriageReturn(s[n - 1]);
    assert |r| >= n;
  }

  /** The fields of an MSH segment body `|^~\&|...`: MSH.1 is synthesized from
      the field separator, since its split piece is empty, and MSH.2 is the
      encoding characters kept whole in one ST component and sub-component. */
  lemma MshHeaderFields(seps: string, more: string, ctx: Context, forceVaries: bool)
    requires ctx.encoding.field != '\r' && ctx.encoding.field !in seps && !Blank(seps)
    ensures var f := ctx.encoding.field;
      var r := ParseFields([f] + seps + [f] + more, Some("MSH"), ctx, forceVaries);
      r.Ok? ==> (|r.value| >= 2
        && r.value[0].children == RawValue([f]) && r.value[0].name == FieldHead(Some("MSH_1"), ctx, false).0
        && r.value[1].children == RawValue(seps) && r.value[1].name == FieldHead(Some("MSH_2"), ctx, false).0)
  {
    var f := ctx.encoding.field;
    var text := [f] + seps + [f] + more;
    MshPieces(seps, more, f);
    MshHeaderFieldsOf(Split(StripCR(text), f), seps, ctx, forceVaries);
  }

  /** The body of an MSH segment splits into an empty piece, then the
      encoding characters. */
  lemma MshPieces(seps: string, more: string, f: char)
    requires f != '\r' && f !in seps && !Blank(seps)
    ensures var pieces := Split(StripCR([f] + seps + [f] + more), f);
      |pieces| >= 2 && pieces[0] == "" && pieces[1] == seps
  {
    var text := [f] + seps + [f] + more;
    var n := |seps| + 2;
    StripCRKeepsPrefix(text, n);
    var stripped := StripCR(text);
    var tail := stripped[n..];
    assert stripped == [f] + seps + [f] + tail by {
      assert stripped == stripped[..n] + tail;
      assert text[..n] == [f] + seps + [f];
    }
    SplitAfterPiece(seps, tail, f);
    SplitAfterPiece("", seps + [f] + tail, f);
    assert stripped == "" + [f] + (seps + [f] + tail);
  }

  /** The first two field pieces of an MSH body, an empty one and the
      encoding characters, become MSH.1 and MSH.2. */
  lemma MshHeaderFieldsOf(pieces: seq<string>, seps: string, ctx: Context, forceVaries: bool)
    requires |pieces| >= 2 && pieces[0] == "" && pieces[1] == seps && !Blank(seps)
    ensures var r := FieldsOf(pieces, Some("MSH"), ctx, forceVaries);
      r.Ok? ==> (|r.value| >= 2
        && r.value[0].children == RawValue([ctx.encoding.field]) && r.value[0].name == FieldHead(Some("MSH_1"), ctx, false).0
        && r.value[1].children == RawValue(seps) && r.value[1].name == FieldHead(Some("MSH_2"), ctx, false).0)
  {
    assert Digit(1) == '1' && Digit(2) == '2';
    assert Positional("MSH", 0) == "MSH" + "_" + "1" == "MSH_1";
    assert Positional("MSH", 1) == "MSH" + "_" + "2" == "MSH_2";
    assert FieldName(Some("MSH"), 0) == Some("MSH_1") && FieldName(Some("MSH"), 1) == Some("MSH_2");
    var r := FieldsOf(pieces, Some("MSH"), ctx, forceVaries);
    if r.Ok? {
      var parts: seq<seq<Field>> :| && r.value == Concat(parts) && |parts| == |pieces|
        && forall i :: 0 <= i < |pieces| ==> parts[i] == PieceFields(pieces[i], FieldName(Some("MSH"), i), ctx, forceVaries).value;
      assert Blank("");
      assert parts[0] == PieceFields("", Some("MSH_1"), ctx, forceVaries).value;
      assert parts[1] == PieceFields(seps, Some("MSH_2"), ctx, forceVaries).value;
      ConcatTwo(parts);
      assert r.value[0] == parts[0][0] && r.value[1] == parts[1][0];
    }
  }

  // ---------------------------------------------------------------------------
  // Segments

  /** One segment per non-empty carriage-return-delimited piece, in input
      order, each named by the first three characters of its stripped text;
      a piece whose name the reference does not know fails the decode with
      that name. */
  lemma SegmentsOnePerPiece(pieces: seq<string>, ctx: Context)
    ensures var filled := FilledFrom(pieces, 0);
      var r := SegmentsOf(pieces, ctx);
      && (r.Ok? ==> |r.value| == |filled| && forall j :: 0 <= j < |filled| ==>
            r.value[j].name == Take(Strip(pieces[filled[j]]), 3))
      && ((exists j :: 0 <= j < |filled| && ctx.ref.segment(Take(Strip(pieces[filled[j]]), 3), ctx.policy).None?) ==> r.Err?)
  {
    var filled := FilledFrom(pieces, 0);
    var r := SegmentsOf(pieces, ctx);
    if r.Ok? {
      forall j | 0 <= j < |filled| ensures r.value[j].name == Take(Strip(pieces[filled[j]]), 3) {
        assert ParseSegment(Strip(pieces[filled[j]]), ctx).Ok?;
      }
    }
  }

  /** The field text of a segment starts after its name and field separator,
      or right after `MSH`, so that MSH's separator becomes MSH.1. */
  lemma SegmentBodyOffsets(name: string, sep: char, body: string)
    requires |name| == 3
    ensures SegmentBody(name + [sep] + body) == if name == "MSH" then [sep] + body else body
  {
    var t := name + [sep] + body;
    assert Take(t, 3) == name;
    if name == "MSH" {
      assert t[3..] == [sep] + body;
    } else {
      assert t[4..] == body;
    }
  }
}
