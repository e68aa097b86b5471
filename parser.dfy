/** `parse_message`: the entry point of the ER7 decoder. It reads the message
    header, decodes every segment, and, for a message whose structure the
    reference knows, assigns the segments to their groups. */
module Parser {
  import opened Text
  import opened Results
  import opened Reference
  import opened Elements
  import opened MessageInfo
  import opened Decoder
  import opened DecoderProperties
  import GroupSpec
  import GroupSearch

  /** The decoded message: its structure id (absent for an unnamed message),
      version, separators and children. */
  datatype Message = Message(name: Option<string>, version: string, encoding: EncodingChars, children: seq<Element>)

  /** `m.version`: the version MSH.12 names, or the default one. */
  function MessageVersion(info: Info, defaultVersion: string): string {
    info.version.GetOr(defaultVersion)
  }

  /** `Message(name=message_structure, ...)`: the structure id and its slots
      when the reference knows it; otherwise the message is unnamed. */
  function KnownStructure(info: Info, ref: Reference): Option<(string, seq<Slot>)> {
    match info.structure
    case None => None
    case Some(id) =>
      match ref.message(id)
      case None => None
      case Some(slots) => Some((id, slots))
  }

  /** The segments `parse_message` decodes before any grouping, read with the
      separators of the header and the reference of the message's version. */
  function DecodedSegments(message: string, policy: Policy, references: string -> Reference, defaultVersion: string): Result<seq<Segment>> {
    var text := LStrip(message);
    var info :- GetMessageInfo(text);
    var ctx := Context(info.encoding, policy, references(MessageVersion(info, defaultVersion)));
    ParseSegments(text, ctx)
  }

  /** `parse_message`. */
  method ParseMessage(message: string, policy: Policy, findGroups: bool, references: string -> Reference, defaultVersion: string)
    returns (r: Result<Message>)
    ensures DecodedSegments(message, policy, references, defaultVersion).Err? ==>
      r == Err(DecodedSegments(message, policy, references, defaultVersion).error)
    ensures r.Ok? ==> var info := GetMessageInfo(LStrip(message));
      && info.Ok?
      && r.value.encoding == info.value.encoding
      && r.value.version == MessageVersion(info.value, defaultVersion)
      && r.value.name == (match KnownStructure(info.value, references(r.value.version))
                          case None => None
                          case Some(s) => Some(s.0))
    ensures r.Ok? ==> var segs := DecodedSegments(message, policy, references, defaultVersion);
      segs.Ok? && Flatten(r.value.children) == segs.value
    ensures r.Ok? && (!findGroups || r.value.name.None?) ==>
      r.value.children == Unstructured(DecodedSegments(message, policy, references, defaultVersion).value)
    ensures r.Err? && DecodedSegments(message, policy, references, defaultVersion).Ok? ==>
      findGroups && r.error == EmptySearchStack
    ensures r.Ok? && findGroups ==> var info := GetMessageInfo(LStrip(message)).value;
      var structure := KnownStructure(info, references(MessageVersion(info, defaultVersion)));
      structure.Some? ==>
        GroupSpec.CreateGroups(structure.value.1, DecodedSegments(message, policy, references, defaultVersion).value) == Ok(r.value.children)
    ensures r.Ok? <==> var segs := DecodedSegments(message, policy, references, defaultVersion);
      && segs.Ok?
      && var info := GetMessageInfo(LStrip(message)).value;
         var structure := KnownStructure(info, references(MessageVersion(info, defaultVersion)));
         (findGroups && structure.Some? ==> GroupSpec.CreateGroups(structure.value.1, segs.value).Ok?)
  {
    var text := LStrip(message);
    var header := GetMessageInfo(text);
    if header.Err? {
      return Err(header.error);
    }
    var info := header.value;
    var version := MessageVersion(info, defaultVersion);
    var ref := references(version);
    var structure := KnownStructure(info, ref);
    var name := if structure.Some? then Some(structure.value.0) else None;
    var decoded := ParseSegments(text, Context(info.encoding, policy, ref));
    assert decoded == DecodedSegments(message, policy, references, defaultVersion);
    if decoded.Err? {
      return Err(decoded.error);
    }
    var children := decoded.value;
    var grouped: seq<Element>;
    if structure.Some? && findGroups {
      var grouping := GroupSearch.CreateGroups(structure.value.1, children);
      if grouping.Err? {
        return Err(grouping.error);
      }
      grouped := grouping.value;
    } else {
      grouped := Unstructured(children);
      FlattenUnstructured(children);
    }
    r := Ok(Message(name, version, info.encoding, grouped));
  }

  /** Stripping a segment that starts with `MSH` and a non-whitespace
      character keeps its name. */
  lemma StripKeepsMsh(piece: string)
    requires |piece| >= 4 && piece[..3] == "MSH" && !IsSpace(piece[3])
    ensures Take(Strip(piece), 3) == "MSH"
  {
    assert piece[0] == 'M';
    assert LStripBy(piece, IsSpace) == piece;
    RStripByShape(piece, IsSpace);
    var stripped := Strip(piece);
    assert |stripped| >= 4;
    assert stripped[..3] == piece[..3];
  }

  /** The first piece between segment separators of an accepted message
      starts like the message: `MSH` and a non-whitespace character. */
  lemma FirstPieceIsMessageStart(text: string)
    requires IsMessageStart(text)
    ensures IsMessageStart(Split(text, SegmentSeparator)[0])
  {
    assert SegmentSeparator !in text[..4];
    SplitFirstPrefix(text, SegmentSeparator, 4);
    var piece := Split(text, SegmentSeparator)[0];
    assert piece[..4] == text[..4];
    assert piece[..3] == text[..3] && piece[3] == text[3];
  }

  /** A decoded message starts with its MSH segment. */
  lemma FirstSegmentIsMsh(message: string, policy: Policy, references: string -> Reference, defaultVersion: string)
    requires DecodedSegments(message, policy, references, defaultVersion).Ok?
    ensures var segs := DecodedSegments(message, policy, references, defaultVersion).value;
      |segs| >= 1 && segs[0].name == "MSH"
  {
    var text := LStrip(message);
    var info := GetMessageInfo(text).value;
    var ctx := Context(info.encoding, policy, references(MessageVersion(info, defaultVersion)));
    var pieces := Split(text, SegmentSeparator);
    assert DecodedSegments(message, policy, references, defaultVersion) == SegmentsOf(pieces, ctx);
    FirstPieceIsMessageStart(text);
    StripKeepsMsh(pieces[0]);
    SegmentsOnePerPiece(pieces, ctx);
    assert FilledFrom(pieces, 0)[0] == 0;
  }
}
