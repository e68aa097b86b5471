/** `get_message_info`: the encoding characters, the message structure id and
    the version, read from the MSH segment at the start of an ER7 message
    (HL7 v2.5 chapter 2, section 2.5.4 "Message delimiters"). */
module MessageInfo {
  import opened Text
  import opened Results

  /** The separators of a message. The segment and group separators are
      always a carriage return. */
  datatype EncodingChars = EncodingChars(
    field: char, component: char, repetition: char, escape: char, subcomponent: char)

  const SegmentSeparator: char := '\r'
  const GroupSeparator: char := '\r'

  /** `N_SEPS`: the number of encoding characters MSH.2 must hold. */
  const EncodingCharCount: nat := 4

  datatype Info = Info(encoding: EncodingChars, structure: Option<string>, version: Option<string>)

  /** What the pattern `^MSH\S` accepts: `MSH` followed by a non-whitespace character. */
  predicate IsMessageStart(content: string) {
    |content| >= 4 && content[..3] == "MSH" && !IsSpace(content[3])
  }

  /** The fields of the first segment, split on the character after `MSH`.
      That character occurs in the first segment, so there are at least two. */
  function MshFields(content: string): (fields: seq<string>)
    requires IsMessageStart(content)
    ensures |fields| >= 2
  {
    var msh := Split(content, SegmentSeparator)[0];
    SplitFirstPrefix(content, SegmentSeparator, 4);
    assert msh[3] == msh[..4][3] == content[..4][3];
    SplitHasTwo(msh, content[3]);
    Split(msh, content[3])
  }

  function CharSet(s: string): set<char> {
    set i | 0 <= i < |s| :: s[i]
  }

  /** `len(seps) > len(set(seps))`. */
  predicate HasDuplicates(s: string) {
    |s| > |CharSet(s)|
  }

  /** No character occurs twice. */
  predicate Distinct(s: string) {
    forall i, j :: 0 <= i < j < |s| ==> s[i] != s[j]
  }

  /** MSH.9 gives the structure id: its third component when there is one,
      otherwise its first two components joined by `_`. */
  function StructureOf(fields: seq<string>, component: char): (r: Option<string>)
    ensures r.None? <==> |fields| <= 8 || |Split(Strip(fields[8]), component)| <= 1
  {
    if |fields| <= 8 then None
    else
      var messageType := Split(Strip(fields[8]), component);
      if |messageType| > 2 then Some(messageType[2])
      else if |messageType| > 1 then Some(messageType[0] + "_" + messageType[1])
      else None
  }

  /** MSH.12 gives the version: its first component. */
  function VersionOf(fields: seq<string>, component: char): (r: Option<string>)
    ensures r.None? <==> |fields| <= 11
  {
    if |fields| <= 11 then None else Some(Split(Strip(fields[11]), component)[0])
  }

  function GetMessageInfo(content: string): (r: Result<Info>)
    ensures r.Err? && r.error.ParserError? <==> !IsMessageStart(content)
    ensures r.Ok? ==> r.value.encoding.field == content[3]
    ensures r.Err? && r.error.InvalidEncodingChars? ==> |MshFields(content)[1]| != EncodingCharCount || HasDuplicates(MshFields(content)[1])
    ensures !IsMessageStart(content) ==> r == Err(ParserError("Invalid message"))
    ensures IsMessageStart(content) ==> var seps := MshFields(content)[1];
      && (HasDuplicates(seps) ==> r == Err(InvalidEncodingChars("Found duplicate encoding chars")))
      && (!HasDuplicates(seps) && |seps| < EncodingCharCount ==> r == Err(InvalidEncodingChars("Missing required encoding chars")))
      && (!HasDuplicates(seps) && |seps| > EncodingCharCount ==>
            r == Err(InvalidEncodingChars("Found " + NatToString(|seps|) + " encoding chars")))
    ensures r.Ok? ==> var fields := MshFields(content);
      && |fields[1]| == EncodingCharCount
      && r.value.encoding == EncodingChars(content[3], fields[1][0], fields[1][1], fields[1][2], fields[1][3])
      && r.value.structure == StructureOf(fields, fields[1][0])
      && r.value.version == VersionOf(fields, fields[1][0])
  {
    if !IsMessageStart(content) then Err(ParserError("Invalid message"))
    else
      var fieldSep := content[3];
      var fields := MshFields(content);
      var seps := fields[1];
      if HasDuplicates(seps) then Err(InvalidEncodingChars("Found duplicate encoding chars"))
      else if |seps| < EncodingCharCount then Err(InvalidEncodingChars("Missing required encoding chars"))
      else if |seps| > EncodingCharCount then
        Err(InvalidEncodingChars("Found " + NatToString(|seps|) + " encoding chars"))
      else
        var encoding := EncodingChars(fieldSep, seps[0], seps[1], seps[2], seps[3]);
        Ok(Info(encoding, StructureOf(fields, encoding.component), VersionOf(fields, encoding.component)))
  }

  /** A string never has more distinct characters than characters. */
  lemma {:induction false} CharSetBound(s: string)
    ensures |CharSet(s)| <= |s|
    ensures |CharSet(s)| == |s| <==> Distinct(s)
    decreases |s|
  {
    if |s| > 0 {
      CharSetBound(s[1..]);
      assert CharSet(s) == {s[0]} + CharSet(s[1..]) by {
        forall c | c in CharSet(s) ensures c in {s[0]} + CharSet(s[1..]) {
          var i :| 0 <= i < |s| && s[i] == c;
          if i > 0 { assert s[1..][i - 1] == c; }
        }
        forall c | c in CharSet(s[1..]) ensures c in CharSet(s) {
          var i :| 0 <= i < |s[1..]| && s[1..][i] == c;
          assert s[i + 1] == c;
        }
      }
      if s[0] in CharSet(s[1..]) {
        var i :| 0 <= i < |s[1..]| && s[1..][i] == s[0];
        assert s[0] == s[i + 1];
      } else {
        if Distinct(s[1..]) {
          forall i, j | 0 <= i < j < |s| ensures s[i] != s[j] {
            if i == 0 {
              assert s[j] == s[1..][j - 1];
            } else {
              assert s[i] == s[1..][i - 1] && s[j] == s[1..][j - 1];
            }
          }
        } else {
          var i, j :| 0 <= i < j < |s[1..]| && s[1..][i] == s[1..][j];
          assert s[i + 1] == s[j + 1];
        }
      }
    } else {
      assert CharSet(s) == {};
    }
  }

  /** The duplicate check of `get_message_info` rejects exactly the strings with a repeated character. */
  lemma DuplicatesIff(s: string)
    ensures HasDuplicates(s) <==> !Distinct(s)
  {
    CharSetBound(s);
  }

  /** `get_message_info` succeeds exactly when the text starts with `MSH` and a
      non-whitespace field separator and MSH.2 holds four distinct characters. */
  lemma InfoSucceedsIff(content: string)
    ensures GetMessageInfo(content).Ok? <==>
      IsMessageStart(content) && |MshFields(content)[1]| == EncodingCharCount && Distinct(MshFields(content)[1])
  {
    if IsMessageStart(content) {
      DuplicatesIff(MshFields(content)[1]);
    }
  }

  /** On success the five separators are pairwise distinct and none of them
      is the segment separator: MSH.2 is a piece of the first segment split on
      the field separator, and the first segment ends before any carriage return. */
  lemma {:induction false} SeparatorsDistinct(content: string)
    requires GetMessageInfo(content).Ok?
    ensures var e := GetMessageInfo(content).value.encoding;
      Distinct([e.field, e.component, e.repetition, e.escape, e.subcomponent, SegmentSeparator])
  {
    var e := GetMessageInfo(content).value.encoding;
    var msh := Split(content, SegmentSeparator)[0];
    var seps := MshFields(content)[1];
    DuplicatesIff(seps);
    assert seps == [e.component, e.repetition, e.escape, e.subcomponent];
    assert e.field !in seps;
    assert SegmentSeparator !in msh;
    SplitFirstPrefix(content, SegmentSeparator, 4);
    assert e.field != SegmentSeparator;
    assert SegmentSeparator !in seps by {
      JoinSplit(msh, e.field);
      PieceWithin(Split(msh, e.field), e.field, 1, SegmentSeparator);
    }
  }

  /** A character absent from a join is absent from each piece. */
  lemma {:induction false} PieceWithin(parts: seq<string>, sep: char, k: nat, c: char)
    requires k < |parts|
    requires c !in Join(parts, sep)
    ensures c !in parts[k]
    decreases |parts|
  {
    if |parts| > 1 {
      assert Join(parts, sep) == parts[0] + [sep] + Join(parts[1..], sep);
      if k > 0 {
        PieceWithin(parts[1..], sep, k - 1, c);
      }
    }
  }

  /** Splitting a text that starts with a separator-free piece and a separator. */
  lemma SplitAfterPiece(a: string, b: string, sep: char)
    requires sep !in a
    ensures Split(a + [sep] + b, sep) == [a] + Split(b, sep)
  {
    var pb := Split(b, sep);
    JoinSplit(b, sep);
    SplitJoin([a] + pb, sep);
    assert Join([a] + pb, sep) == a + [sep] + Join(pb, sep);
  }

  /** Writing a header and reading it back: a message that starts with `MSH`,
      a field separator that is not whitespace nor one of the letters of `MSH`,
      and four distinct encoding characters, followed by the end of the text, a
      field separator or a segment separator, gives back exactly those
      separators. */
  lemma EncodeHeader(f: char, c: char, r: char, e: char, s: char, rest: string)
    requires !IsSpace(f) && f !in "MSH"
    requires Distinct([f, c, r, e, s, SegmentSeparator])
    requires rest == "" || rest[0] == f || rest[0] == SegmentSeparator
    ensures var info := GetMessageInfo("MSH" + [f, c, r, e, s] + rest);
      info.Ok? && info.value.encoding == EncodingChars(f, c, r, e, s)
  {
    var seps := [c, r, e, s];
    var all := [f, c, r, e, s, SegmentSeparator];
    assert all[0] == f && all[5] == SegmentSeparator;
    assert forall i :: 0 <= i < 4 ==> seps[i] == all[i + 1];
    var head := "MSH" + [f] + seps;
    var content := head + rest;
    assert content == "MSH" + [f, c, r, e, s] + rest;
    assert IsMessageStart(content);
    assert SegmentSeparator !in head;
    var t := Split(rest, SegmentSeparator)[0];
    SplitFirstConcat(head, rest, SegmentSeparator);
    var msh := head + t;
    assert f !in seps;
    if t == "" {
      SplitNoSep(seps, f);
      SplitAfterPiece("MSH", seps, f);
      assert msh == "MSH" + [f] + seps;
    } else {
      assert rest[0] == f;
      var m := Split(rest[1..], SegmentSeparator)[0];
      assert t == [f] + m;
      SplitAfterPiece(seps, m, f);
      SplitAfterPiece("MSH", seps + [f] + m, f);
      assert msh == "MSH" + [f] + (seps + [f] + m);
    }
    assert MshFields(content)[1] == seps;
    DuplicatesIff(seps);
  }

  /** The first piece of a split, when the text starts with a separator-free part. */
  lemma {:induction false} SplitFirstConcat(a: string, b: string, sep: char)
    requires sep !in a
    ensures Split(a + b, sep)[0] == a + Split(b, sep)[0]
    decreases |a|
  {
    if |a| == 0 {
      assert a + b == b;
    } else {
      assert (a + b)[1..] == a[1..] + b;
      assert sep !in a[1..];
      SplitFirstConcat(a[1..], b, sep);
      assert a == [a[0]] + a[1..];
    }
  }

  /** MSH.9 written as components `parts` yields the third component as the
      structure id, else the first two joined by `_`, else none. */
  lemma StructureFromParts(fields: seq<string>, component: char, parts: seq<string>)
    requires |fields| > 8 && |parts| >= 1
    requires forall k :: 0 <= k < |parts| ==> component !in parts[k]
    requires Strip(fields[8]) == Join(parts, component)
    ensures StructureOf(fields, component) ==
      if |parts| > 2 then Some(parts[2])
      else if |parts| == 2 then Some(parts[0] + "_" + parts[1])
      else None
  {
    SplitJoin(parts, component);
  }

  /** MSH.12 written as components `parts` yields its first component as the version. */
  lemma VersionFromParts(fields: seq<string>, component: char, parts: seq<string>)
    requires |fields| > 11 && |parts| >= 1
    requires forall k :: 0 <= k < |parts| ==> component !in parts[k]
    requires Strip(fields[11]) == Join(parts, component)
    ensures VersionOf(fields, component) == Some(parts[0])
  {
    SplitJoin(parts, component);
  }
}
