# hl7apy ER7 decoder, modelled in Dafny

This project models the ER7 decoder of hl7apy (`hl7apy/parser.py`), the part
of the library that turns an HL7 v2 message written with separator characters
into a tree of elements:

- `get_message_info` reads the MSH header. It finds the field separator right
  after `MSH` and the four encoding characters in MSH.2. It rejects duplicate or
  missing separators, and it reads the message structure (MSH.9) and the
  version (MSH.12).
- `parse_segments` down to `parse_subcomponent` split the text on the segment,
  field, repetition, component and sub-component separators. They name every
  piece of a named element positionally (`PID_3`, `XPN_1`, `VARIES_2`); the
  decoder passes no name for the fields of an unprefixed `parse_fields` or for
  the children of a base datatype. A blank piece is dropped
  when it carries a composite name such as `PID_3` or `XPN_4`. It is kept when
  it is unnamed or named `VARIES_n`, and a blank MSH.1 is replaced by the field
  separator. Under a base datatype the components and sub-components are
  unnamed and every piece is kept, so the text is split without loss. The
  quiet validation level clears the datatype of a base-typed element that was
  given more than one child.
- `create_groups`, `_find_group` and `_go_back` assign the decoded segments to
  the group instances of the message structure. They keep a stack of open
  parents with their current slot index. A segment whose slot allows one
  instance sends the search one level up only when that slot is at or before
  the parent's current index. Going up retries the search one level higher:
  the segment may be placed there directly, open a new group instance there,
  or go further up; at the root it reads an empty stack.
- `parse_message` ties these together.

The HL7 reference, the tables that say which names exist and what their
datatypes and structures are, is an abstract parameter (`Reference.Reference`).
Name resolution, `is_base_datatype`, segment lookup and message structures
are functions the model never inspects.

Modules:

| file | module | what it holds |
|---|---|---|
| `text.dfy` | `Text` | `split`, `join`, `strip`, `lstrip`, `strip("\r")`, slicing, decimal `format` |
| `results.dfy` | `Results` | `Option`, `Result`, and the errors the decoder raises |
| `reference.dfy` | `Reference` | the reference: validation policy, name resolution, message structures as a finite slot tree |
| `elements.dfy` | `Elements` | sub-component, component, field, segment and group values; `Flatten` |
| `message_info.dfy` | `MessageInfo` | `get_message_info` |
| `decoder.dfy` | `Decoder` | `parse_segments` … `parse_subcomponent` as recursive functions |
| `decoder_properties.dfy` | `DecoderProperties` | what the decoder keeps, names and drops |
| `group_spec.dfy` | `GroupSpec` | the group search as functions on a value of the search data |
| `group_properties.dfy` | `GroupProperties` | what the group search preserves, and worked examples |
| `group_search.dfy` | `GroupSearch` | the search data as a class whose stacks are updated in place, with the search as methods proved against `GroupSpec` |
| `parser.dfy` | `Parser` | `parse_message` |

## Model

| member | source | states |
|---|---|---|
| MessageInfo.GetMessageInfo | hl7apy/parser.py:436-471 | fails with ParserError("Invalid message") exactly when the content does not start with `MSH` and a non-whitespace character; otherwise duplicates in MSH.2 are checked first and give "Found duplicate encoding chars", then fewer than four characters give "Missing required encoding chars" and more than four give "Found N encoding chars"; on success the field separator is the character after `MSH`, the component, repetition, escape and sub-component separators are MSH.2's four characters in that order, and the structure and version are those `StructureOf` and `VersionOf` read from MSH.9 and MSH.12 |
| MessageInfo.InfoSucceedsIff | hl7apy/parser.py:444-459 | the header is accepted if and only if the content starts with `MSH` and a non-whitespace character and MSH.2 has exactly four distinct characters |
| MessageInfo.DuplicatesIff | hl7apy/parser.py:451-452 | `len(seps) > len(set(seps))` holds exactly when the separators are not pairwise distinct |
| MessageInfo.CharSetBound | hl7apy/parser.py:451 | a string has at most as many distinct characters as its length, and exactly as many iff they are pairwise distinct |
| MessageInfo.SeparatorsDistinct | hl7apy/parser.py:447-469 | on success the field, component, repetition, escape and sub-component separators and the segment separator are pairwise distinct |
| MessageInfo.EncodeHeader | hl7apy/parser.py:444-469 | a header written as `MSH` plus five distinct separators is read back with exactly those separators |
| MessageInfo.StructureOf | hl7apy/parser.py:473-486 | there is no structure id exactly when the first segment has no MSH.9 or MSH.9 has fewer than two components |
| MessageInfo.VersionOf | hl7apy/parser.py:488-498 | there is no version exactly when the first segment has no MSH.12 |
| MessageInfo.StructureFromParts | hl7apy/parser.py:473-486 | MSH.9 written as components gives its third component, else the first two joined by `_`, else no structure |
| MessageInfo.VersionFromParts | hl7apy/parser.py:488-498 | MSH.12 written as components gives its first component as the version |
| Text.StripEmptyIff | hl7apy/parser.py:187 | `piece.strip()` is empty exactly when every character is whitespace, which is the test the decoder writes as `Blank` |
| Text.PositionalInjective | hl7apy/parser.py:186 | positional names `{prefix}_{index+1}` of different indexes differ |
| Text.JoinSplit | hl7apy/parser.py:183 | joining the pieces of a split with the same separator gives the text back |
| Text.SplitJoin | hl7apy/parser.py:479 | splitting a join of separator-free pieces gives the pieces back |
| Elements.FlattenUnstructured | hl7apy/parser.py:69-70 | a message whose children are the segments themselves lists exactly those segments |
| Decoder.KeptExactly | hl7apy/parser.py:187 | the kept positions are increasing, all non-blank, and include every non-blank piece |
| Decoder.ParseSubcomponent | hl7apy/parser.py:413-434 | keeps the text and the name; a given datatype wins, an unnamed sub-component keeps the given datatype, and a named one without a datatype takes the reference's; fails with InvalidName(name) exactly when a name is given that the reference does not know |
| Decoder.SubcomponentsOf | hl7apy/parser.py:400-411 | the pieces kept (all of them under a base or absent datatype, the non-blank ones otherwise) are decoded in order, each under the name `DT_{i+1}` of its own position `i` or unnamed; the decode fails exactly when one of them fails |
| Text.PositionalVaries | hl7apy/parser.py:304 | a positional name starts with `VARIES_` exactly when its prefix followed by `_` does, whatever the position |
| Decoder.KeepComponentAt | hl7apy/parser.py:293-305 | a piece passes the keep test exactly when the field is base-typed, or its component names start with `VARIES_`, or the piece is not blank |
| Decoder.ComponentHead | hl7apy/parser.py:348-353 | no name keeps the given datatype; a known name keeps it and the given datatype, or takes the reference's when none is given; an unknown name is InvalidName at the strict level and otherwise falls back to the datatype as the name, which is InvalidName in turn when the reference does not know it |
| Decoder.ParseComponent | hl7apy/parser.py:348-359 | succeeds exactly when the name and datatype settle and the sub-components decode; its name is the settled one and its children are exactly the sub-components of its whole text under the settled datatype; at the quiet level a component with more than one sub-component never keeps a base datatype, otherwise the datatype is the settled one |
| Decoder.ComponentsOf | hl7apy/parser.py:292-307 | the pieces kept by the keep test are decoded in order, each under the name and datatype of its own position; the decode fails exactly when one of them fails |
| Decoder.ParseField | hl7apy/parser.py:239-259 | MSH.1 and MSH.2 always decode to their raw text as a single `ST` sub-component; any other field fails exactly when its components fail, with the same error, and otherwise holds exactly those components; the name is the reference's or the varies fallback's; at the quiet level a field with several components never keeps a base datatype |
| Decoder.Repetitions | hl7apy/parser.py:191-192 | one field per repetition, in order, each decoded from its repetition under the same name; fails exactly when one repetition fails |
| Decoder.PieceFields | hl7apy/parser.py:186-194 | a non-blank or unnamed piece gives its repetitions, except MSH.2 which gives one raw field; a blank named piece gives nothing, except MSH.1 which gives the field separator; the piece gives no field exactly when it is blank, named and not MSH.1 |
| Decoder.FieldsOf | hl7apy/parser.py:183-195 | the fields of `parse_fields` are the fields of each piece at its own position, concatenated in order; the decode fails exactly when one piece fails |
| Decoder.ParseSegment | hl7apy/parser.py:131-138 | a segment whose first three characters the reference does not know is InvalidName of them; otherwise it is named by them, fails exactly when its fields fail, and holds exactly the fields of the rest of the text (after the separator, or from it for MSH) |
| Decoder.FilledExactly | hl7apy/parser.py:101 | the filled positions are increasing, all non-empty, and include every non-empty piece |
| Decoder.SegmentsOf | hl7apy/parser.py:99-101 | one segment per non-empty piece, in order, each decoded from the stripped piece; the decode fails exactly when one of them fails |
| DecoderProperties.UnnamedSubcomponentsKeepAll | hl7apy/parser.py:400-411 | for a base or absent component datatype decoding never fails and every piece, blank or not, becomes in order an unnamed sub-component holding that piece, with the given datatype or `ST` |
| DecoderProperties.UnnamedSubcomponentsLossless | hl7apy/parser.py:400-411 | for a base or absent datatype decoding never fails, keeps one sub-component per piece (blank ones included) with datatype `ST` when none is given, and the values joined back give the text |
| DecoderProperties.NamedSubcomponentsPositions | hl7apy/parser.py:402-411 | for a composite component datatype `DT` the sub-components are exactly the non-blank pieces, in order, each holding its piece, named `DT_{p+1}` after its own position `p` and typed as the reference says; decoding succeeds iff every such name resolves |
| DecoderProperties.BaseComponentsKeepAll | hl7apy/parser.py:292-307 | for a base field datatype every piece becomes an unnamed component whose text is the piece |
| DecoderProperties.BaseFieldLossless | hl7apy/parser.py:292-307 | for a base field datatype decoding never fails, all components are unnamed, and their texts joined back give the field text |
| DecoderProperties.ComponentLossless | hl7apy/parser.py:348-359 | a component that settles on a base or absent datatype always decodes, and its sub-component values joined back give its text |
| DecoderProperties.FieldLossless | hl7apy/parser.py:239-259 | a field other than MSH.1 and MSH.2 that settles on a base datatype always decodes, and its component texts joined back give its text |
| DecoderProperties.VariesFieldKeepsAll | hl7apy/parser.py:298-307 | for an absent or `varies` field datatype component `k` is decoded from the `k`-th piece, blank or not, under the name `VARIES_{k+1}` and no datatype; the decode fails exactly when one piece fails |
| DecoderProperties.CompositeComponentsPositions | hl7apy/parser.py:301-307 | for a composite field datatype `DT` the `j`-th component is decoded from the `j`-th non-blank piece under `DT_{p+1}` of its own position `p`, so blank pieces leave gaps in the names; the decode fails exactly when one such piece fails; at the strict level each component keeps its positional name |
| DecoderProperties.UnprefixedFieldsKeepAll | hl7apy/parser.py:183-195 | without a prefix no piece is dropped, blank or not: each contributes exactly its unnamed repetitions, and the decode fails exactly when one piece's repetitions fail |
| DecoderProperties.PrefixedFieldsPositions | hl7apy/parser.py:183-195 | with a prefix `P` the piece at position `i` is `P_{i+1}`: it contributes nothing exactly when it is blank and not MSH.1, a non-blank piece other than MSH.2 contributes its repetitions under that name, and the decode fails exactly when one such piece's repetitions fail |
| DecoderProperties.StripCRKeepsPrefix | hl7apy/parser.py:180 | `strip("\r")` keeps a prefix that starts and ends with other characters |
| DecoderProperties.MshHeaderFields | hl7apy/parser.py:185-194 | the MSH body decodes to MSH.1 holding the field separator and MSH.2 holding the encoding characters, both raw |
| DecoderProperties.SegmentsOnePerPiece | hl7apy/parser.py:99-101 | a successful decode has one segment per non-empty piece between carriage returns, in order, each named by the first three characters of its stripped piece; a piece whose name the reference does not know makes the decode fail |
| DecoderProperties.SegmentBodyOffsets | hl7apy/parser.py:134-135 | the fields start after the name and separator, except for MSH where the separator itself becomes MSH.1 |
| GroupSpec.Initial | hl7apy/parser.py:516 | the initial search data has one parent, the message, and valid stacks |
| GroupSpec.SlotIndexFrom | hl7apy/parser.py:553 | the index found is the first slot with the segment's name; no index means no slot has that name |
| GroupSpec.AddToTop | hl7apy/parser.py:582 | adding a child keeps the stacks valid and of the same height |
| GroupSpec.GoBack | hl7apy/parser.py:531-535 | going back lowers the three stacks by one and keeps them valid |
| GroupSpec.Push | hl7apy/parser.py:559-563 | opening a group raises the three stacks by one and keeps them valid |
| GroupSpec.Attach | hl7apy/parser.py:566-570 | attaching keeps the stacks valid and of the same height |
| GroupSpec.FindGroup | hl7apy/parser.py:537-583 | the search keeps the stacks valid; from a parent that has found nothing yet it never reads an empty stack and a failed search changes nothing; a search that finds nothing leaves at least one parent |
| GroupSpec.TryGroups | hl7apy/parser.py:556-573 | trying the group slots never reads an empty stack; when no group takes the segment the state is as before; when one does, the stack has grown |
| GroupSpec.Place | hl7apy/parser.py:580-582 | placing a segment sets the innermost parent's index to the segment's slot and leaves the structures, the parents below and their indexes unchanged |
| GroupSpec.Levels | hl7apy/parser.py:519-526 | when no level finds the segment, at least as many parents have been popped as levels were tried, so after one try per open parent none is left |
| GroupSpec.PlaceOne | hl7apy/parser.py:518-529 | placing one segment can fail only by reading an empty stack |
| GroupSpec.Assign | hl7apy/parser.py:518-529 | placing the segments can fail only by reading an empty stack |
| GroupSpec.CreateGroups | hl7apy/parser.py:502-529 | the group assignment can fail only by reading an empty stack |
| GroupProperties.AddToTopContent | hl7apy/parser.py:582 | adding a child adds exactly its segments to the segments the search data holds, in order |
| GroupProperties.PlaceContent | hl7apy/parser.py:580-582 | placing a segment appends it to the segments the search data holds |
| GroupProperties.GoBackContent | hl7apy/parser.py:531-535 | going back from an attached or empty group loses no segment |
| GroupProperties.PushContent | hl7apy/parser.py:559-563 | opening a group adds no segment |
| GroupProperties.AttachContent | hl7apy/parser.py:566-570 | attaching a group adds no segment |
| GroupProperties.FindGroupFresh | hl7apy/parser.py:558-571 | a search from a new group that succeeds adds the segment once, keeps every parent below, and leaves the segment in the innermost parent |
| GroupProperties.TryGroupsPlaced | hl7apy/parser.py:556-573 | when a group slot takes the segment, the segment is added once, the current parent is unchanged and the new instance is attached to it |
| GroupProperties.AttachFound | hl7apy/parser.py:564-571 | attaching the instance that found the segment keeps the segment once and every parent below as it was |
| GroupProperties.FindGroupAttached | hl7apy/parser.py:537-583 | from attached parents the search keeps them attached and adds the segment once when found, nothing when not |
| GroupProperties.LevelsAttached | hl7apy/parser.py:518-526 | the same for the level loop |
| GroupProperties.PlaceOneContent | hl7apy/parser.py:518-529 | each segment, found or added to the message, is added exactly once |
| GroupProperties.AssignContent | hl7apy/parser.py:518-529 | after all segments the search data holds the earlier segments followed by these, in order |
| GroupProperties.CloseContent | hl7apy/parser.py:531-535 | closing every open group keeps exactly the segments held |
| GroupProperties.CreateGroupsKeepsSegments | hl7apy/parser.py:502-529 | a successful assignment contains exactly the decoded segments, in their order |
| GroupProperties.ExhaustedStack | hl7apy/parser.py:518-529 | once every parent has been popped, the remaining segments are added to the message one by one |
| GroupProperties.RepeatableStaysInParent | hl7apy/parser.py:575-582 | a segment whose slot may repeat is added to the current parent at its slot index |
| GroupProperties.RepeatedRootSegmentFails | hl7apy/parser.py:575-579 | two MSH segments for a structure with a single MSH slot make the search read an empty stack |
| GroupProperties.TwoOfNonRepeatable | hl7apy/parser.py:575-582 | under `[A, B*, C]` the segments `A C B C` all stay in the message: a second C goes back a level only when its slot is at or before the current index |
| GroupProperties.OpenOrderGroup | hl7apy/parser.py:552-571 | an OBR segment not in the root structure opens a new instance of the group slot that holds it and attaches it |
| GroupProperties.ReopenOrderGroup | hl7apy/parser.py:575-579 | a second OBR in an open order group closes that instance and opens another |
| GroupProperties.RepeatedGroupExample | hl7apy/parser.py:502-583 | MSH, OBR, OBX, OBR becomes MSH followed by two group instances, [OBR, OBX] and [OBR] |
| GroupSearch.SearchData.constructor | hl7apy/parser.py:516 | the search data starts as the initial state |
| GroupSearch.SearchData.Add | hl7apy/parser.py:582 | the innermost parent gains the child and nothing else changes |
| GroupSearch.SearchData.GoBack | hl7apy/parser.py:531-535 | pops the three stacks, and an attached group joins its parent |
| GroupSearch.SearchData.Push | hl7apy/parser.py:559-563 | pushes the group's structure, a new empty instance and index -1 |
| GroupSearch.SearchData.Attach | hl7apy/parser.py:566-570 | marks the group attached and moves the parent's index to the group's slot |
| GroupSearch.SearchData.FindGroup | hl7apy/parser.py:537-583 | the recursive search with its loop over group slots leaves the state and returns the result that `GroupSpec.FindGroup` gives |
| GroupSearch.SearchData.TryGroupSlots | hl7apy/parser.py:554-572 | the loop over the group slots leaves the state and returns the result that `GroupSpec.TryGroups` gives: each group slot in turn gets a new instance, attached at its slot index when the segment is found there and dropped otherwise |
| GroupSearch.PlaceSegment | hl7apy/parser.py:518-529 | one iteration of the outer loop advances the assignment of the remaining segments |
| GroupSearch.SearchLevels | hl7apy/parser.py:519-526 | the level loop leaves the state and result that `GroupSpec.Levels` gives |
| GroupSearch.CreateGroups | hl7apy/parser.py:502-529 | the loops compute `GroupSpec.CreateGroups`, and on success the message's children contain exactly the segments given, in order |
| Parser.ParseMessage | hl7apy/parser.py:34-73 | header and decoding errors pass through unchanged; on success the separators and version are the header's, the name is the structure only when the reference knows it, the children contain exactly the decoded segments, they are those segments themselves when grouping is off or the structure is unknown, and with grouping on and a known structure they are what `GroupSpec.CreateGroups` makes of the decoded segments; the result is `Ok` exactly when the segments decode and, with grouping on and a known structure, `GroupSpec.CreateGroups` succeeds on them, so the only other failure is the group search reading an empty stack |
| Parser.StripKeepsMsh | hl7apy/parser.py:101 | stripping the first segment keeps its `MSH` name |
| Parser.FirstPieceIsMessageStart | hl7apy/parser.py:101 | the first piece between carriage returns of an accepted message starts with `MSH` and a non-whitespace character |
| Parser.FirstSegmentIsMsh | hl7apy/parser.py:58-65 | the decoded segments of an accepted message start with MSH |

## Left out

- The element classes of `hl7apy.core` (`Message`, `Group`, `Segment`, `Field`, `Component`, `SubComponent`) are not part of this model. They become plain values, and the reference is an abstract function. The model assumes an element constructor given no name never raises and keeps the datatype it is given, and that `is_base_datatype(None)` is false. Such an element has no name in the model; how `hl7apy.core` names it when given none (by its datatype, as in `<Component ST (None) of type ST>`) is not captured.
- `Message` construction checks its version, and `m.validate()` runs at the strict level (lines 62-64, 71-72). These are left out. A message structure the reference does not know gives an unnamed message.
- The `reference` parameter of `parse_message` is never read by its body, so the model has no such parameter.
- `_get_version`, `_get_encoding_chars` and the `check_*` helpers (lines 585-595) are left out. The model always passes the separators and version that `parse_message` found.
- The `__main__` doctest block (lines 598-601) is left out.
- Escape sequences are not interpreted, here or in the source. The escape character is only read from MSH.2.
- The regular expression `^MSH(\S)` is written as a direct test on the first four characters. `\S` and `strip()` use a fixed set of whitespace characters, not the full Unicode set.
- The exception classes become the `ParseError` variants. The `IndexError` raised when `_find_group` reads an empty stack becomes `EmptySearchStack`.
- The message structure, which the source reads from a Python dict in key order, is an ordered sequence of slots with unique names. Group slots carry their own slots, so the structure is a finite tree.
- `group.parent = ...` links a group to its parent at once. The model appends the group when its frame is popped, and drops an instance that never received a segment. The resulting child order is the same, because a parent gains no children while a group is open above it. Object identity (`parents.index(group)`) and aliasing are therefore not modelled.
- `ParseSubcomponent` and `ComponentHead` let a given datatype win over the one the reference gives a known name, as the element constructors do when called with both. The decoder itself never passes both: a named sub-component or component always comes with no datatype.
- `ParseSubcomponents`, `ParseComponents`, `ParseFields` and `ParseSegments` only split their text and hand the pieces to `SubcomponentsOf`, `ComponentsOf`, `FieldsOf` and `SegmentsOf`, which carry the contracts.
