/** The subjectAltName decoder (getClientCertInfo). The extension value
    (section 4.2.1.6 of RFC 5280) is a SEQUENCE of GeneralName choices; the
    decoder keeps the otherName choices (tag 0) in order and the last
    choice with tag 1 (rfc822Name, whatever its class) as the email, ignores every other choice, and
    stops at the first child it cannot read. */
module SubjectAltName {
  import opened Asn1
  import opened Oid

  /** `otherName ::= SEQUENCE { type-id OBJECT IDENTIFIER, value [0] EXPLICIT ANY }`
      as Go decodes it into the `otherName` struct: `value` is the [0] wrapper
      itself, unparsed, so `value.bytes` holds the inner element whole (its
      tag, its length and its content). */
  datatype OtherName = OtherName(typeId: seq<nat>, value: RawValue)

  /** The three results of the decoder: the otherName entries, the email and
      the error. On an error the entries and email read so far are returned
      beside it. */
  datatype SanInfo = SanInfo(otherNames: seq<OtherName>, email: seq<byte>, err: Option<Error>)

  /** Reads an otherName from the whole element of a tag-0 child, as
      `asn1.UnmarshalWithParams(v.FullBytes, &oName, "tag:0")` does: the
      element must be context-specific [0] and constructed; its content holds
      the fields. */
  function ParseOtherName(full: Slice): (r: Result<OtherName>)
    ensures r.Ok? ==> ValidOid(r.value.typeId)
    ensures r.Ok? ==> r.value.value.tagClass == ClassContextSpecific && r.value.value.tag == 0
    ensures |full.data| == 0 ==> r == Err(SequenceTruncated)
  {
    if |full.data| == 0 then Err(SequenceTruncated)
    else
      var hl :- ParseTagAndLength(full.data, 0);
      var h, off := hl.0, hl.1;
      if h.tagClass != ClassContextSpecific || h.tag != 0 || !h.compound then Err(TagMismatch)
      else if off + h.length > |full.data| then Err(DataTruncated)
      else ParseOtherNameFields(Window(full, off, off + h.length))
  }

  /** The fields of an otherName, in order: the OBJECT IDENTIFIER, then the
      [0] EXPLICIT value. Bytes after the value are ignored. */
  function ParseOtherNameFields(content: Slice): (r: Result<OtherName>)
    ensures r.Ok? ==> ValidOid(r.value.typeId)
    ensures r.Ok? ==> r.value.value.tagClass == ClassContextSpecific && r.value.value.tag == 0
    ensures |content.data| == 0 ==> r == Err(SequenceTruncated)
  {
    var t :- ParseOidField(content.data, 0);
    var v :- ParseExplicitRawValue(content, t.1);
    Ok(OtherName(t.0, v.0))
  }

  /** The decoding loop from the state (`data`, `names`, `email`) on: each
      child is read off the front of `data`; a tag-0 child adds an otherName,
      a tag-1 child replaces the email, any other tag changes nothing; the
      first child that fails ends the loop with its error. */
  function DecodeChildren(data: Slice, names: seq<OtherName>, email: seq<byte>): (r: SanInfo)
    decreases |data.data|, 1
  {
    if |data.data| == 0 then SanInfo(names, email, None) else DecodeChild(data, names, email)
  }

  /** One turn of the loop: reads the child at the front of `data`, then
      goes on with the bytes after it. */
  function DecodeChild(data: Slice, names: seq<OtherName>, email: seq<byte>): (r: SanInfo)
    requires |data.data| > 0
    decreases |data.data|, 0
  {
    match ParseRawValue(data)
    case Err(e) => SanInfo(names, email, Some(e))
    case Ok((v, rest)) =>
      if v.tag == 0 then
        match ParseOtherName(v.fullBytes)
        case Err(e) => SanInfo(names, email, Some(e))
        case Ok(o) => DecodeChildren(rest, names + [o], email)
      else if v.tag == 1 then DecodeChildren(rest, names, v.bytes.data)
      else DecodeChildren(rest, names, email)
  }

  /** The extension value is read as a universal SEQUENCE. */
  predicate IsSequence(extValue: Slice)
  {
    var p := ParseRawValue(extValue);
    p.Ok? && p.value.0.tagClass == ClassUniversal && p.value.0.tag == TagSequence
  }

  /** What the decoder returns for an extension value. A value that is not a
      universal SEQUENCE, or cannot be read at all, gives no entries, no email
      and no error. */
  function ClientCertInfo(extValue: Slice): (r: SanInfo)
  {
    if IsSequence(extValue) then DecodeChildren(ParseRawValue(extValue).value.0.bytes, [], [])
    else SanInfo([], [], None)
  }

  /** getClientCertInfo: decodes the value of a subjectAltName extension. */
  method GetClientCertInfo(extValue: Slice) returns (otherNames: seq<OtherName>, email: seq<byte>, err: Option<Error>)
    ensures SanInfo(otherNames, email, err) == ClientCertInfo(extValue)
    ensures !IsSequence(extValue) ==> otherNames == [] && email == [] && err == None
  {
    otherNames, email, err := [], [], None;
    var altName := ParseRawValue(extValue);
    if altName.Ok? && altName.value.0.tagClass == ClassUniversal && altName.value.0.tag == TagSequence {
      var data := altName.value.0.bytes;
      while |data.data| > 0
        invariant DecodeChildren(data, otherNames, email) == ClientCertInfo(extValue)
        invariant err == None
        decreases |data.data|
      {
        var child := ParseRawValue(data);
        if child.Err? {
          err := Some(child.error);
          return;
        }
        var v := child.value.0;
        data := child.value.1;
        if v.tag == 0 {
          var oName := ParseOtherName(v.fullBytes);
          if oName.Err? {
            err := Some(oName.error);
            return;
          }
          otherNames := otherNames + [oName.value];
        } else if v.tag == 1 {
          email := v.bytes.data;
        }
      }
    }
  }

  /** The loop only appends: the entries it starts with stay, in order, at
      the front of the result, whatever the input. */
  lemma {:induction false} DecodeChildrenKeepsEntries(data: Slice, names: seq<OtherName>, email: seq<byte>)
    ensures names <= DecodeChildren(data, names, email).otherNames
    decreases |data.data|
  {
    if |data.data| > 0 {
      match ParseRawValue(data)
      case Err(_) =>
      case Ok((v, rest)) =>
        if v.tag == 0 {
          match ParseOtherName(v.fullBytes)
          case Err(_) =>
          case Ok(o) =>
            DecodeChildrenKeepsEntries(rest, names + [o], email);
        } else if v.tag == 1 {
          DecodeChildrenKeepsEntries(rest, names, v.bytes.data);
        } else {
          DecodeChildrenKeepsEntries(rest, names, email);
        }
    }
  }

  // ---------------------------------------------------------------------
  // Encoding GeneralNames, to state what the decoder reads back
  // ---------------------------------------------------------------------

  /** The GeneralName choices as they are written into the extension. */
  datatype GeneralName =
    | OtherNameChoice(typeId: seq<nat>, inner: seq<byte>)  // `inner`: the element inside [0] EXPLICIT
    | Rfc822Name(mailbox: seq<byte>)
    | OtherChoice(tagClass: nat, compound: bool, tag: nat, content: seq<byte>)

  /** The content of an otherName element: the OBJECT IDENTIFIER, then the
      inner element inside its [0] EXPLICIT wrapper. */
  function OtherNameContent(typeId: seq<nat>, inner: seq<byte>): (c: seq<byte>)
    requires ValidOid(typeId) && |EncodeObjectIdentifier(typeId)| + |inner| <= MaxInt32 - 12
    ensures |c| <= MaxInt32
  {
    EncodeOidElement(typeId) + EncodeTlv(ClassContextSpecific, true, 0, inner)
  }

  /** The choices the encoder below can write: an otherName needs an inner
      element and room for its two headers within the length limit; other
      choices use tags from 1 on (an element with tag 1 of another class or
      form than rfc822Name's is read as one all the same). */
  predicate ValidGeneralName(g: GeneralName)
  {
    match g
    case OtherNameChoice(typeId, inner) =>
      ValidOid(typeId) && 0 < |inner| && |EncodeObjectIdentifier(typeId)| + |inner| <= MaxInt32 - 12
    case Rfc822Name(mailbox) => |mailbox| <= MaxInt32
    case OtherChoice(tagClass, _, tag, content) =>
      tagClass < 4 && 1 <= tag <= MaxInt32 && |content| <= MaxInt32
  }

  predicate ValidGeneralNames(gs: seq<GeneralName>)
  {
    forall i :: 0 <= i < |gs| ==> ValidGeneralName(gs[i])
  }

  /** One GeneralName as a child of the extension's SEQUENCE: otherName as
      [0] constructed, rfc822Name as [1] primitive. */
  function EncodeGeneralName(g: GeneralName): seq<byte>
    requires ValidGeneralName(g)
  {
    match g
    case OtherNameChoice(typeId, inner) =>
      EncodeTlv(ClassContextSpecific, true, 0, OtherNameContent(typeId, inner))
    case Rfc822Name(mailbox) => EncodeTlv(ClassContextSpecific, false, 1, mailbox)
    case OtherChoice(tagClass, compound, tag, content) => EncodeTlv(tagClass, compound, tag, content)
  }

  function EncodeGeneralNames(gs: seq<GeneralName>): seq<byte>
    requires ValidGeneralNames(gs)
  {
    if gs == [] then [] else EncodeGeneralName(gs[0]) + EncodeGeneralNames(gs[1..])
  }

  /** The value of a subjectAltName extension holding `gs`. */
  function EncodeSubjectAltName(gs: seq<GeneralName>): seq<byte>
    requires ValidGeneralNames(gs) && |EncodeGeneralNames(gs)| <= MaxInt32
  {
    EncodeTlv(ClassUniversal, true, TagSequence, EncodeGeneralNames(gs))
  }

  /** The entry the decoder makes of an otherName whose element is followed,
      in the backing array, by `following`. */
  function DecodedOtherName(typeId: seq<nat>, inner: seq<byte>, following: seq<byte>): OtherName
    requires |inner| <= MaxInt32
  {
    var wrapper := EncodeTlv(ClassContextSpecific, true, 0, inner);
    OtherName(typeId, RawValue(ClassContextSpecific, 0, true, Slice(inner, following), Slice(wrapper, following)))
  }

  /** The entries one choice decodes to: one for an otherName, none for
      the others. */
  function NameOf(g: GeneralName, following: seq<byte>): seq<OtherName>
    requires ValidGeneralName(g)
  {
    match g
    case OtherNameChoice(typeId, inner) => [DecodedOtherName(typeId, inner, following)]
    case _ => []
  }

  /** The email after one choice: the content of an element with tag 1,
      whatever its class. */
  function EmailOf(g: GeneralName, email: seq<byte>): seq<byte>
  {
    match g
    case Rfc822Name(mailbox) => mailbox
    case OtherChoice(_, _, tag, content) => if tag == 1 then content else email
    case OtherNameChoice(_, _) => email
  }

  /** The entries the otherName choices of `gs` decode to, in order, when
      the encoding of `gs` is followed by `following`. */
  function ExpectedNames(gs: seq<GeneralName>, following: seq<byte>): seq<OtherName>
    requires ValidGeneralNames(gs)
  {
    if gs == [] then []
    else NameOf(gs[0], EncodeGeneralNames(gs[1..]) + following) + ExpectedNames(gs[1..], following)
  }

  /** The mailbox of the last choice of `gs` with tag 1, or `email` if there
      is none. */
  function LastEmail(gs: seq<GeneralName>, email: seq<byte>): seq<byte>
  {
    if gs == [] then email else LastEmail(gs[1..], EmailOf(gs[0], email))
  }

  /** The OBJECT IDENTIFIER field of an encoded otherName reads back as its
      arcs. */
  lemma OtherNameOidRead(typeId: seq<nat>, inner: seq<byte>)
    requires ValidGeneralName(OtherNameChoice(typeId, inner))
    ensures ParseOidField(OtherNameContent(typeId, inner), 0) == Ok((typeId, |EncodeOidElement(typeId)|))
  {
    ParseOidFieldFront(typeId, EncodeTlv(ClassContextSpecific, true, 0, inner));
  }

  /** The wrapper field of an encoded otherName reads back as the wrapper,
      whose content is the inner element. */
  lemma OtherNameValueRead(typeId: seq<nat>, inner: seq<byte>, following: seq<byte>)
    requires ValidGeneralName(OtherNameChoice(typeId, inner))
    ensures var s := Slice(OtherNameContent(typeId, inner), following);
            ParseExplicitRawValue(s, |EncodeOidElement(typeId)|)
            == Ok((DecodedOtherName(typeId, inner, following).value, |s.data|))
  {
    ParseExplicitRawValueAfter(EncodeOidElement(typeId), inner, following);
  }

  /** The otherName fields are read as the OBJECT IDENTIFIER field and the
      wrapper field after it. */
  lemma ParseOtherNameFieldsAt(content: Slice, typeId: seq<nat>, off: nat, value: RawValue, end: nat)
    requires ParseOidField(content.data, 0) == Ok((typeId, off))
    requires ParseExplicitRawValue(content, off) == Ok((value, end))
    ensures ParseOtherNameFields(content) == Ok(OtherName(typeId, value))
  {
  }

  /** The fields of an encoded otherName read back as its OBJECT IDENTIFIER
      and its [0] wrapper. */
  lemma ParseOtherNameFieldsRoundTrip(typeId: seq<nat>, inner: seq<byte>, following: seq<byte>)
    requires ValidGeneralName(OtherNameChoice(typeId, inner))
    ensures ParseOtherNameFields(Slice(OtherNameContent(typeId, inner), following))
            == Ok(DecodedOtherName(typeId, inner, following))
  {
    var content := OtherNameContent(typeId, inner);
    var s := Slice(content, following);
    var off := |EncodeOidElement(typeId)|;
    var value := DecodedOtherName(typeId, inner, following).value;
    OtherNameOidRead(typeId, inner);
    OtherNameValueRead(typeId, inner, following);
    ParseOtherNameFieldsAt(s, typeId, off, value, |content|);
  }

  /** A context-specific, constructed [0] element that fills `full` is read
      by reading its content as the otherName fields. */
  lemma ParseOtherNameUnwrap(full: Slice, off: nat, len: nat, content: Slice)
    requires ParseTagAndLength(full.data, 0) == Ok((Header(ClassContextSpecific, 0, true, len), off))
    requires off + len == |full.data| && Window(full, off, off + len) == content
    ensures ParseOtherName(full) == ParseOtherNameFields(content)
  {
    assert |full.data| != 0;
    assert ParseOtherName(full) == ParseOtherNameFields(Window(full, off, off + len));
  }

  /** A [0] wrapper around any content is read by reading that content as
      the otherName fields. */
  lemma OtherNameUnwrapped(content: seq<byte>, following: seq<byte>)
    requires |content| <= MaxInt32
    ensures ParseOtherName(Slice(EncodeTlv(ClassContextSpecific, true, 0, content), following))
            == ParseOtherNameFields(Slice(content, following))
  {
    ParseTlvWhole(ClassContextSpecific, true, 0, content, following);
    ParseOtherNameUnwrap(Slice(EncodeTlv(ClassContextSpecific, true, 0, content), following),
                         |EncodeHeader(ClassContextSpecific, true, 0, |content|)|, |content|, Slice(content, following));
  }

  /** An encoded otherName reads back as its OBJECT IDENTIFIER and its inner
      element. */
  lemma ParseOtherNameRoundTrip(typeId: seq<nat>, inner: seq<byte>, following: seq<byte>)
    requires ValidGeneralName(OtherNameChoice(typeId, inner))
    ensures ParseOtherName(Slice(EncodeGeneralName(OtherNameChoice(typeId, inner)), following))
            == Ok(DecodedOtherName(typeId, inner, following))
  {
    OtherNameUnwrapped(OtherNameContent(typeId, inner), following);
    ParseOtherNameFieldsRoundTrip(typeId, inner, following);
  }

  /** The loop reading an otherName child. */
  lemma DecodeChildrenOtherName(data: Slice, v: RawValue, rest: Slice, o: OtherName,
                                names: seq<OtherName>, email: seq<byte>)
    requires |data.data| > 0 && ParseRawValue(data) == Ok((v, rest))
    requires v.tag == 0 && ParseOtherName(v.fullBytes) == Ok(o)
    ensures DecodeChildren(data, names, email) == DecodeChildren(rest, names + [o], email)
  {
  }

  /** The loop reading a child with a tag other than 0. */
  lemma DecodeChildrenOther(data: Slice, v: RawValue, rest: Slice, names: seq<OtherName>, email: seq<byte>)
    requires |data.data| > 0 && ParseRawValue(data) == Ok((v, rest)) && v.tag != 0
    ensures DecodeChildren(data, names, email)
            == DecodeChildren(rest, names, if v.tag == 1 then v.bytes.data else email)
  {
  }

  /** One encoded choice followed by `rest`: the loop adds its entries and
      email and goes on with `rest`. */
  lemma DecodeChildrenStep(g: GeneralName, rest: seq<byte>, spare: seq<byte>,
                           names: seq<OtherName>, email: seq<byte>)
    requires ValidGeneralName(g)
    ensures DecodeChildren(Slice(EncodeGeneralName(g) + rest, spare), names, email)
            == DecodeChildren(Slice(rest, spare), names + NameOf(g, rest + spare), EmailOf(g, email))
  {
    var data := Slice(EncodeGeneralName(g) + rest, spare);
    match g
    case OtherNameChoice(typeId, inner) =>
      var content := OtherNameContent(typeId, inner);
      ParseRawValueRoundTrip(ClassContextSpecific, true, 0, content, rest, spare);
      ParseOtherNameRoundTrip(typeId, inner, rest + spare);
      var v := ParseRawValue(data).value.0;
      DecodeChildrenOtherName(data, v, Slice(rest, spare), DecodedOtherName(typeId, inner, rest + spare), names, email);
    case Rfc822Name(mailbox) =>
      ParseRawValueRoundTrip(ClassContextSpecific, false, 1, mailbox, rest, spare);
      DecodeChildrenOther(data, ParseRawValue(data).value.0, Slice(rest, spare), names, email);
      assert names + [] == names;
    case OtherChoice(tagClass, compound, tag, content) =>
      ParseRawValueRoundTrip(tagClass, compound, tag, content, rest, spare);
      DecodeChildrenOther(data, ParseRawValue(data).value.0, Slice(rest, spare), names, email);
      assert names + [] == names;
  }

  lemma EncodeGeneralNamesCons(gs: seq<GeneralName>, tail: seq<byte>)
    requires ValidGeneralNames(gs) && gs != []
    ensures EncodeGeneralNames(gs) + tail == EncodeGeneralName(gs[0]) + (EncodeGeneralNames(gs[1..]) + tail)
  {
  }

  lemma ExpectedNamesCons(gs: seq<GeneralName>, tail: seq<byte>, spare: seq<byte>, names: seq<OtherName>)
    requires ValidGeneralNames(gs) && gs != []
    ensures var rest := EncodeGeneralNames(gs[1..]) + tail;
            names + NameOf(gs[0], rest + spare) + ExpectedNames(gs[1..], tail + spare)
            == names + ExpectedNames(gs, tail + spare)
  {
    var rest := EncodeGeneralNames(gs[1..]) + tail;
    AppendAssociative(EncodeGeneralNames(gs[1..]), tail, spare);
    AppendAssociative(names, NameOf(gs[0], rest + spare), ExpectedNames(gs[1..], tail + spare));
  }

  lemma AppendAssociative<T>(a: seq<T>, b: seq<T>, c: seq<T>)
    ensures a + b + c == a + (b + c)
  {
  }

  /** Decoding the encoding of `gs` followed by anything: the otherName
      choices of `gs` are appended in order, the email becomes that of the
      last choice with tag 1, every other choice changes nothing, and the loop
      goes on with what follows. */
  lemma {:induction false} DecodeChildrenConcat(gs: seq<GeneralName>, tail: seq<byte>, spare: seq<byte>,
                                                names: seq<OtherName>, email: seq<byte>)
    requires ValidGeneralNames(gs)
    ensures DecodeChildren(Slice(EncodeGeneralNames(gs) + tail, spare), names, email)
            == DecodeChildren(Slice(tail, spare), names + ExpectedNames(gs, tail + spare), LastEmail(gs, email))
    decreases gs
  {
    if gs == [] {
      assert EncodeGeneralNames(gs) + tail == tail;
      assert names + ExpectedNames(gs, tail + spare) == names;
    } else {
      var g := gs[0];
      var rest := EncodeGeneralNames(gs[1..]) + tail;
      var names', email' := names + NameOf(g, rest + spare), EmailOf(g, email);
      calc {
        DecodeChildren(Slice(EncodeGeneralNames(gs) + tail, spare), names, email);
      == { EncodeGeneralNamesCons(gs, tail); }
        DecodeChildren(Slice(EncodeGeneralName(g) + rest, spare), names, email);
      == { DecodeChildrenStep(g, rest, spare, names, email); }
        DecodeChildren(Slice(rest, spare), names', email');
      == { DecodeChildrenConcat(gs[1..], tail, spare, names', email'); }
        DecodeChildren(Slice(tail, spare), names' + ExpectedNames(gs[1..], tail + spare), LastEmail(gs[1..], email'));
      == { ExpectedNamesCons(gs, tail, spare, names); }
        DecodeChildren(Slice(tail, spare), names + ExpectedNames(gs, tail + spare), LastEmail(gs, email));
      }
    }
  }

  /** Round trip: the decoder reads back from a subjectAltName extension
      exactly its otherName choices, in order, and the mailbox of its last
      choice with tag 1, without error. */
  lemma ClientCertInfoRoundTrip(gs: seq<GeneralName>, spare: seq<byte>)
    requires ValidGeneralNames(gs) && |EncodeGeneralNames(gs)| <= MaxInt32
    ensures ClientCertInfo(Slice(EncodeSubjectAltName(gs), spare))
            == SanInfo(ExpectedNames(gs, spare), LastEmail(gs, []), None)
  {
    var children := EncodeGeneralNames(gs);
    ParseRawValueRoundTrip(ClassUniversal, true, TagSequence, children, [], spare);
    assert EncodeSubjectAltName(gs) + [] == EncodeSubjectAltName(gs);
    assert [] + spare == spare;
    DecodeChildrenConcat(gs, [], spare, [], []);
    assert children + [] == children;
  }

  /** Fail fast: when the child after the well-formed choices `gs` cannot be
      read, the decoder stops there with that child's error, returning beside
      it only what it decoded before. */
  lemma FailFastOnUnreadableChild(gs: seq<GeneralName>, bad: seq<byte>, spare: seq<byte>)
    requires ValidGeneralNames(gs)
    requires |bad| > 0 && ParseRawValue(Slice(bad, spare)).Err?
    ensures DecodeChildren(Slice(EncodeGeneralNames(gs) + bad, spare), [], [])
            == SanInfo(ExpectedNames(gs, bad + spare), LastEmail(gs, []), Some(ParseRawValue(Slice(bad, spare)).error))
  {
    DecodeChildrenConcat(gs, bad, spare, [], []);
  }

  /** Fail fast: a tag-0 child after the well-formed choices `gs` that is
      not a well-formed otherName stops the decoder with the otherName's
      error, whatever follows it, returning beside it only what it decoded
      before. */
  lemma FailFastOnBadOtherName(gs: seq<GeneralName>, bad: seq<byte>, spare: seq<byte>)
    requires ValidGeneralNames(gs)
    requires ParseRawValue(Slice(bad, spare)).Ok?
    requires ParseRawValue(Slice(bad, spare)).value.0.tag == 0
    requires ParseOtherName(ParseRawValue(Slice(bad, spare)).value.0.fullBytes).Err?
    ensures DecodeChildren(Slice(EncodeGeneralNames(gs) + bad, spare), [], [])
            == SanInfo(ExpectedNames(gs, bad + spare), LastEmail(gs, []),
                       Some(ParseOtherName(ParseRawValue(Slice(bad, spare)).value.0.fullBytes).error))
  {
    DecodeChildrenConcat(gs, bad, spare, [], []);
  }
}
