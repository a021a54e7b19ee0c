/** extractCertData and isForCNPJ: the lines a request handler writes to the
    response for the subjectAltName extensions of a client certificate, laid
    out after the ICP-Brasil A1/A3 certificate policy (section 7.1.2.3). */
module CertData {
  import opened Asn1
  import opened Oid
  import opened SubjectAltName

  /** id-ce-subjectAltName, section 4.2.1.6 of RFC 5280. */
  const SubjectAltNameOid: seq<nat> := [2, 5, 29, 17]

  /** ICP-Brasil otherName of a legal-entity certificate: the data of the
      person responsible for it (birth date, CPF, NIS, RG, RG issuer). */
  const CnpjHolderOid: seq<nat> := [2, 16, 76, 1, 3, 4]

  /** ICP-Brasil otherName: the name of the person responsible. */
  const ResponsibleNameOid: seq<nat> := [2, 16, 76, 1, 3, 2]

  /** ICP-Brasil otherName: the CNPJ number of the legal entity. */
  const CnpjNumberOid: seq<nat> := [2, 16, 76, 1, 3, 3]

  /** A certificate extension (pkix.Extension). `value` keeps the bytes that
      follow it in the certificate's buffer as its spare capacity. */
  datatype Extension = Extension(id: seq<nat>, critical: bool, value: Slice)

  /** One `Fprintf(writer, text + "%s\n", arg)`: the text, the argument's
      bytes as they are, and a newline. */
  datatype Line = Line(text: string, arg: seq<byte>)

  /** How writing ended: normally, or with Go's run-time panic for a slice
      expression `s[lo:hi]` out of range for a slice of the given capacity. */
  datatype Outcome = Completed | SlicePanic(lo: nat, hi: nat, capacity: nat)

  /** The lines written, in order, and how writing ended. */
  datatype Rendering = Rendering(lines: seq<Line>, outcome: Outcome)

  /** A field printed from a byte range of an otherName's value. */
  datatype Field = Field(caption: string, lo: nat, hi: nat)

  /** The dotted text the switch compares an identifier with. */
  const CnpjHolderText := "2.16.76.1.3.4"
  const ResponsibleNameText := "2.16.76.1.3.2"
  const CnpjNumberText := "2.16.76.1.3.3"

  const HeaderText := "\nDados do certificado"
  const LegalEntityText := "Certificado para Pessoa Jurídica"
  const IndividualText := "Certificado para Pessoa Física"
  const EmailLabel := "Email do certificado: "
  const ResponsibleLabel := "Nome do responsável pelo certificado: "
  const CnpjLabel := "Número do Cadastro Nacional de Pessoa Jurídica (CNPJ): "

  /** The fields of a 2.16.76.1.3.4 value, in the order they are written. */
  const HolderFields: seq<Field> := [
    Field("Data de nascimento: ", 2, 10),
    Field("CPF: ", 10, 21),
    Field("Número de Identificação Social NIS (PIS, PASEP ou CI): ", 21, 32),
    Field("RG: ", 32, 47),
    Field("Órgão expedidor do RG e respectiva unidade da federação: ", 47, 53)
  ]

  // ---------------------------------------------------------------------
  // Specification of what is written
  // ---------------------------------------------------------------------

  /** Go's slice expression `s[lo:hi]`: it is in range when
      `lo <= hi <= cap(s)`, so it reads past the length of `s` into the bytes
      after it; out of range it panics (None). `s[lo:]` is `s[lo:len(s)]`. */
  function Reslice(s: Slice, lo: nat, hi: nat): (r: Option<seq<byte>>)
    ensures r.Some? <==> lo <= hi <= s.Cap()
    ensures r.Some? ==> |r.value| == hi - lo
    ensures r.Some? && hi <= |s.data| ==> r.value == s.data[lo..hi]
    ensures r.Some? && lo <= |s.data| < hi ==> r.value == s.data[lo..] + s.spare[..hi - |s.data|]
  {
    if lo <= hi <= s.Cap() then
      var all := s.data + s.spare;
      assert lo <= |s.data| < hi ==> all[lo..hi] == s.data[lo..] + s.spare[..hi - |s.data|];
      Some(all[lo..hi])
    else None
  }

  /** The lines for `fields` of the value `s`, in order, up to the first
      slice out of range. */
  function FieldLines(fields: seq<Field>, s: Slice): Rendering
  {
    if fields == [] then Rendering([], Completed)
    else
      var f := fields[0];
      match Reslice(s, f.lo, f.hi)
      case None => Rendering([], SlicePanic(f.lo, f.hi, s.Cap()))
      case Some(arg) =>
        var rest := FieldLines(fields[1..], s);
        Rendering([Line(f.caption, arg)] + rest.lines, rest.outcome)
  }

  /** The lines for one otherName, chosen on the dotted text of its
      OBJECT IDENTIFIER; other identifiers write nothing. */
  function EntryLines(o: OtherName): Rendering
  {
    var s := o.value.bytes;
    var id := OidString(o.typeId);
    if id == CnpjHolderText then FieldLines(HolderFields, s)
    else if id == ResponsibleNameText then FieldLines([Field(ResponsibleLabel, 2, |s.data|)], s)
    else if id == CnpjNumberText then FieldLines([Field(CnpjLabel, 2, |s.data|)], s)
    else Rendering([], Completed)
  }

  /** The lines for the entries in order, up to the first panic. */
  function EntriesLines(names: seq<OtherName>): Rendering
  {
    if names == [] then Rendering([], Completed)
    else
      var first := EntryLines(names[0]);
      if first.outcome != Completed then first
      else
        var rest := EntriesLines(names[1..]);
        Rendering(first.lines + rest.lines, rest.outcome)
  }

  /** A legal-entity certificate: some entry's identifier prints as
      2.16.76.1.3.4. */
  predicate ForCnpj(names: seq<OtherName>)
  {
    exists i :: 0 <= i < |names| && OidString(names[i].typeId) == CnpjHolderText
  }

  /** The three lines that open a block: the header, the kind of
      certificate and the email. */
  function HeadLines(names: seq<OtherName>, email: seq<byte>): seq<Line>
  {
    [Line(HeaderText, []), Line(if ForCnpj(names) then LegalEntityText else IndividualText, []), Line(EmailLabel, email)]
  }

  /** The block for one decoded subjectAltName: the head, the entries and a
      blank line. */
  function BlockLines(names: seq<OtherName>, email: seq<byte>): Rendering
  {
    var entries := EntriesLines(names);
    if entries.outcome != Completed then Rendering(HeadLines(names, email) + entries.lines, entries.outcome)
    else Rendering(HeadLines(names, email) + entries.lines + [Line("", [])], Completed)
  }

  /** What is written for the extensions from the first on: one block per
      subjectAltName extension; the first one that cannot be decoded ends the
      scan; a panic ends everything. */
  function CertData(extensions: seq<Extension>): Rendering
  {
    if extensions == [] then Rendering([], Completed)
    else if extensions[0].id != SubjectAltNameOid then CertData(extensions[1..])
    else
      var info := ClientCertInfo(extensions[0].value);
      if info.err.Some? then Rendering([], Completed)
      else
        var block := BlockLines(info.otherNames, info.email);
        if block.outcome != Completed then block
        else
          var rest := CertData(extensions[1..]);
          Rendering(block.lines + rest.lines, rest.outcome)
  }

  // ---------------------------------------------------------------------
  // The response body
  // ---------------------------------------------------------------------

  /** The UTF-8 encoding of a character (the encoding of Go source text). */
  function CharUtf8(c: char): (e: seq<byte>)
    ensures 1 <= |e| <= 4
    ensures (c as int < 0x80) <==> |e| == 1
  {
    var n := c as int;
    if n < 0x80 then [n]
    else if n < 0x800 then [0xC0 + n / 64, 0x80 + n % 64]
    else if n < 0x10000 then [0xE0 + n / 4096, 0x80 + (n / 64) % 64, 0x80 + n % 64]
    else [0xF0 + n / 0x40000, 0x80 + (n / 4096) % 64, 0x80 + (n / 64) % 64, 0x80 + n % 64]
  }

  function Utf8(s: string): seq<byte>
  {
    if s == [] then [] else CharUtf8(s[0]) + Utf8(s[1..])
  }

  /** The bytes of one formatted write: the text, the argument's bytes as
      they are (`%s` of a byte slice), and a newline. */
  function LineBytes(l: Line): seq<byte>
  {
    Utf8(l.text) + l.arg + [0x0A]
  }

  /** The bytes the writes put in the response body. */
  function Render(lines: seq<Line>): seq<byte>
  {
    if lines == [] then [] else LineBytes(lines[0]) + Render(lines[1..])
  }

  /** The body is the writes' bytes in order. */
  lemma {:induction false} RenderAppend(a: seq<Line>, b: seq<Line>)
    ensures Render(a + b) == Render(a) + Render(b)
    decreases |a|
  {
    if a == [] {
      assert a + b == b;
    } else {
      assert (a + b)[1..] == a[1..] + b;
      RenderAppend(a[1..], b);
      AppendAssociative(LineBytes(a[0]), Render(a[1..]), Render(b));
    }
  }

  /** The http.ResponseWriter the handler writes to, as the sequence of
      formatted writes made to it; its body is their bytes. */
  class ResponseWriter {
    var writes: seq<Line>

    constructor ()
      ensures writes == []
    {
      writes := [];
    }

    function Body(): seq<byte>
      reads this
    {
      Render(writes)
    }
  }

  /** `fmt.Fprintf(writer, text + "%s\n", arg)`: one write, which adds
      LineBytes(Line(text, arg)) to the body (Fprintf extends Body). */
  method Fprintf(writer: ResponseWriter, text: string, arg: seq<byte>)
    modifies writer
    ensures writer.writes == old(writer.writes) + [Line(text, arg)]
  {
    writer.writes := writer.writes + [Line(text, arg)];
  }

  lemma FprintfExtendsBody(before: seq<Line>, l: Line)
    ensures Render(before + [l]) == Render(before) + LineBytes(l)
  {
    RenderAppend(before, [l]);
    assert Render([l]) == LineBytes(l) + Render([]);
  }

  // ---------------------------------------------------------------------
  // The dotted text of the ICP-Brasil identifiers
  // ---------------------------------------------------------------------

  lemma IcpBrasilText2(last: nat)
    requires last < 10
    ensures OidString([3, last]) == "3." + [DigitChar(last)]
  {
    DecimalOneDigit(3);
    DecimalOneDigit(last);
  }

  lemma IcpBrasilText3(last: nat)
    requires last < 10
    ensures OidString([1, 3, last]) == "1.3." + [DigitChar(last)]
  {
    DecimalOneDigit(1);
    IcpBrasilText2(last);
    assert [1, 3, last][1..] == [3, last];
  }

  lemma IcpBrasilText4(last: nat)
    requires last < 10
    ensures OidString([76, 1, 3, last]) == "76.1.3." + [DigitChar(last)]
  {
    DecimalTwoDigits(76);
    IcpBrasilText3(last);
    assert [76, 1, 3, last][1..] == [1, 3, last];
  }

  lemma IcpBrasilText5(last: nat)
    requires last < 10
    ensures OidString([16, 76, 1, 3, last]) == "16.76.1.3." + [DigitChar(last)]
  {
    DecimalTwoDigits(16);
    IcpBrasilText4(last);
    assert [16, 76, 1, 3, last][1..] == [76, 1, 3, last];
  }

  /** The identifiers 2.16.76.1.3.d print as such. */
  lemma IcpBrasilText(last: nat)
    requires last < 10
    ensures OidString([2, 16, 76, 1, 3, last]) == "2.16.76.1.3." + [DigitChar(last)]
  {
    var d := [DigitChar(last)];
    DecimalOneDigit(2);
    IcpBrasilText5(last);
    assert [2, 16, 76, 1, 3, last][1..] == [16, 76, 1, 3, last];
    assert OidString([2, 16, 76, 1, 3, last]) == "2." + ("16.76.1.3." + d) by {
      assert [DigitChar(2)] + "." == "2.";
      AppendAssociative([DigitChar(2)], ".", "16.76.1.3." + d);
    }
    AppendAssociative("2.", "16.76.1.3.", d);
    assert "2." + "16.76.1.3." == "2.16.76.1.3.";
  }

  /** The switch's texts are those of the three identifiers. */
  lemma CnpjHolderOidText()
    ensures OidString(CnpjHolderOid) == CnpjHolderText
  {
    IcpBrasilText(4);
    assert [DigitChar(4)] == "4";
  }

  lemma ResponsibleNameOidText()
    ensures OidString(ResponsibleNameOid) == ResponsibleNameText
  {
    IcpBrasilText(2);
    assert [DigitChar(2)] == "2";
  }

  lemma CnpjNumberOidText()
    ensures OidString(CnpjNumberOid) == CnpjNumberText
  {
    IcpBrasilText(3);
    assert [DigitChar(3)] == "3";
  }

  /** Comparing the text is comparing the arcs, for each case of the switch. */
  lemma SwitchByArcs(id: seq<nat>)
    ensures OidString(id) == CnpjHolderText <==> id == CnpjHolderOid
    ensures OidString(id) == ResponsibleNameText <==> id == ResponsibleNameOid
    ensures OidString(id) == CnpjNumberText <==> id == CnpjNumberOid
  {
    CnpjHolderOidText();
    ResponsibleNameOidText();
    CnpjNumberOidText();
    if OidString(id) == CnpjHolderText {
      OidStringInjective(id, CnpjHolderOid);
    }
    if OidString(id) == ResponsibleNameText {
      OidStringInjective(id, ResponsibleNameOid);
    }
    if OidString(id) == CnpjNumberText {
      OidStringInjective(id, CnpjNumberOid);
    }
  }

  // ---------------------------------------------------------------------
  // The code
  // ---------------------------------------------------------------------

  /** isForCNPJ: searches the entries for one whose identifier prints as
      2.16.76.1.3.4. */
  method IsForCnpj(otherNames: seq<OtherName>) returns (b: bool)
    ensures b == ForCnpj(otherNames)
  {
    for i := 0 to |otherNames|
      invariant forall j :: 0 <= j < i ==> OidString(otherNames[j].typeId) != CnpjHolderText
    {
      if OidString(otherNames[i].typeId) == CnpjHolderText {
        return true;
      }
    }
    return false;
  }

  /** Writes the line of `fields[k]`, unless its slice is out of range: one
      step of FieldLines. */
  method WriteField(writer: ResponseWriter, fields: seq<Field>, k: nat, s: Slice) returns (outcome: Outcome)
    requires k < |fields|
    modifies writer
    ensures var r, rest := FieldLines(fields[k..], s), FieldLines(fields[k + 1..], s);
            && old(writer.writes) + r.lines
               == writer.writes + (if outcome == Completed then rest.lines else [])
            && r.outcome == (if outcome == Completed then rest.outcome else outcome)
  {
    var f := fields[k];
    assert fields[k..][1..] == fields[k + 1..];
    var arg := Reslice(s, f.lo, f.hi);
    if arg.None? {
      return SlicePanic(f.lo, f.hi, s.Cap());
    }
    Fprintf(writer, f.caption, arg.value);
    AppendAssociative(old(writer.writes), [Line(f.caption, arg.value)], FieldLines(fields[k + 1..], s).lines);
    return Completed;
  }

  /** The five fields of a 2.16.76.1.3.4 value (HolderFields), one statement
      each. */
  method WriteHolderFields(writer: ResponseWriter, fields: seq<Field>, s: Slice) returns (outcome: Outcome)
    requires |fields| == 5
    modifies writer
    ensures writer.writes == old(writer.writes) + FieldLines(fields, s).lines
    ensures outcome == FieldLines(fields, s).outcome
  {
    assert fields[0..] == fields;
    outcome := WriteField(writer, fields, 0, s);
    if outcome != Completed { return; }
    outcome := WriteField(writer, fields, 1, s);
    if outcome != Completed { return; }
    outcome := WriteField(writer, fields, 2, s);
    if outcome != Completed { return; }
    outcome := WriteField(writer, fields, 3, s);
    if outcome != Completed { return; }
    outcome := WriteField(writer, fields, 4, s);
    assert fields[5..] == [];
  }

  /** The one field of a 2.16.76.1.3.2 or 2.16.76.1.3.3 value: everything
      after its two header bytes. */
  method WriteTailField(writer: ResponseWriter, caption: string, s: Slice) returns (outcome: Outcome)
    modifies writer
    ensures var r := FieldLines([Field(caption, 2, |s.data|)], s);
            writer.writes == old(writer.writes) + r.lines && outcome == r.outcome
  {
    var fields := [Field(caption, 2, |s.data|)];
    assert fields[0..] == fields && fields[1..] == [];
    outcome := WriteField(writer, fields, 0, s);
  }

  /** The body of the switch on one entry's identifier. */
  method WriteEntry(writer: ResponseWriter, name: OtherName) returns (outcome: Outcome)
    modifies writer
    ensures writer.writes == old(writer.writes) + EntryLines(name).lines
    ensures outcome == EntryLines(name).outcome
  {
    var s := name.value.bytes;
    var id := OidString(name.typeId);
    if id == CnpjHolderText {
      outcome := WriteHolderFields(writer, HolderFields, s);
    } else if id == ResponsibleNameText {
      outcome := WriteTailField(writer, ResponsibleLabel, s);
    } else if id == CnpjNumberText {
      outcome := WriteTailField(writer, CnpjLabel, s);
    } else {
      outcome := Completed;
    }
  }

  /** The block written for a decoded subjectAltName. */
  method WriteBlock(writer: ResponseWriter, otherNames: seq<OtherName>, email: seq<byte>) returns (outcome: Outcome)
    modifies writer
    ensures writer.writes == old(writer.writes) + BlockLines(otherNames, email).lines
    ensures outcome == BlockLines(otherNames, email).outcome
  {
    Fprintf(writer, HeaderText, []);
    var cnpj := IsForCnpj(otherNames);
    if cnpj {
      Fprintf(writer, LegalEntityText, []);
    } else {
      Fprintf(writer, IndividualText, []);
    }
    Fprintf(writer, EmailLabel, email);
    var head := HeadLines(otherNames, email);
    assert writer.writes == old(writer.writes) + head;
    ghost var start := writer.writes;
    for j := 0 to |otherNames|
      invariant start + EntriesLines(otherNames).lines == writer.writes + EntriesLines(otherNames[j..]).lines
      invariant EntriesLines(otherNames).outcome == EntriesLines(otherNames[j..]).outcome
    {
      var first := EntryLines(otherNames[j]);
      assert otherNames[j..][1..] == otherNames[j + 1..];
      ghost var before := writer.writes;
      outcome := WriteEntry(writer, otherNames[j]);
      if outcome != Completed {
        AppendAssociative(old(writer.writes), head, EntriesLines(otherNames).lines);
        return;
      }
      AppendAssociative(before, first.lines, EntriesLines(otherNames[j + 1..]).lines);
    }
    assert otherNames[|otherNames|..] == [];
    ghost var entries := EntriesLines(otherNames).lines;
    assert writer.writes == start + entries;
    Fprintf(writer, "", []);
    AppendAssociative(old(writer.writes), head, entries);
    AppendAssociative(old(writer.writes), head + entries, [Line("", [])]);
    outcome := Completed;
  }

  /** extractCertData: writes one block for each subjectAltName extension of
      the certificate, in order, stopping at the first one that cannot be
      decoded. */
  method ExtractCertData(extensions: seq<Extension>, writer: ResponseWriter) returns (outcome: Outcome)
    modifies writer
    ensures writer.writes == old(writer.writes) + CertData(extensions).lines
    ensures outcome == CertData(extensions).outcome
  {
    var i := 0;
    while i < |extensions|
      invariant i <= |extensions|
      invariant old(writer.writes) + CertData(extensions).lines == writer.writes + CertData(extensions[i..]).lines
      invariant CertData(extensions).outcome == CertData(extensions[i..]).outcome
    {
      var ext := extensions[i];
      assert extensions[i..][1..] == extensions[i + 1..];
      if ext.id == SubjectAltNameOid {
        var otherNames, email, err := GetClientCertInfo(ext.value);
        if err.Some? {
          break;
        }
        var block := BlockLines(otherNames, email);
        ghost var before := writer.writes;
        outcome := WriteBlock(writer, otherNames, email);
        if outcome != Completed {
          return;
        }
        AppendAssociative(before, block.lines, CertData(extensions[i + 1..]).lines);
      }
      i := i + 1;
    }
    outcome := Completed;
  }

  // ---------------------------------------------------------------------
  // Properties
  // ---------------------------------------------------------------------

  /** isForCNPJ's text comparison finds exactly the certificates with a
      2.16.76.1.3.4 entry. */
  lemma ForCnpjByArcs(names: seq<OtherName>)
    ensures ForCnpj(names) <==> exists i :: 0 <= i < |names| && names[i].typeId == CnpjHolderOid
  {
    forall i | 0 <= i < |names|
      ensures OidString(names[i].typeId) == CnpjHolderText <==> names[i].typeId == CnpjHolderOid
    {
      SwitchByArcs(names[i].typeId);
    }
  }

  /** Writing fields stops at the first one whose slice is out of range: the
      lines are those of the fields before it, in order, each with the bytes
      of its range, which may lie past the value's length within its
      capacity. */
  lemma {:induction false} FieldLinesPrefix(fields: seq<Field>, s: Slice)
    ensures var r := FieldLines(fields, s);
            && |r.lines| <= |fields|
            && (forall i :: 0 <= i < |r.lines| ==>
                  && fields[i].lo <= fields[i].hi <= s.Cap()
                  && r.lines[i] == Line(fields[i].caption, (s.data + s.spare)[fields[i].lo..fields[i].hi]))
            && (r.outcome == Completed <==> |r.lines| == |fields|)
            && (r.outcome != Completed ==>
                  var f := fields[|r.lines|];
                  !(f.lo <= f.hi <= s.Cap()) && r.outcome == SlicePanic(f.lo, f.hi, s.Cap()))
    decreases |fields|
  {
    if fields != [] {
      var f := fields[0];
      FieldLinesPrefix(fields[1..], s);
      var arg := Reslice(s, f.lo, f.hi);
      if arg.Some? {
        var r, rest := FieldLines(fields, s), FieldLines(fields[1..], s);
        assert r.lines == [Line(f.caption, arg.value)] + rest.lines;
        forall i | 1 <= i < |r.lines|
          ensures r.lines[i] == rest.lines[i - 1] && fields[i] == fields[1..][i - 1]
        {
        }
      }
    }
  }

  /** A 2.16.76.1.3.4 value whose capacity reaches byte 53 gives all five
      lines, whose arguments are the ranges 2-10, 10-21, 21-32, 32-47 and 47-53
      and together the bytes 2 to 53. */
  lemma HolderFieldsRead(s: Slice)
    requires 53 <= s.Cap()
    ensures var r, all := FieldLines(HolderFields, s), s.data + s.spare;
            && r.outcome == Completed
            && |r.lines| == 5
            && (forall i :: 0 <= i < 5 ==> r.lines[i] == Line(HolderFields[i].caption, all[HolderFields[i].lo..HolderFields[i].hi]))
            && r.lines[0].arg + r.lines[1].arg + r.lines[2].arg + r.lines[3].arg + r.lines[4].arg == all[2..53]
  {
    var r, all := FieldLines(HolderFields, s), s.data + s.spare;
    FieldLinesPrefix(HolderFields, s);
    assert all[2..10] + all[10..21] == all[2..21];
    assert all[2..21] + all[21..32] == all[2..32];
    assert all[2..32] + all[32..47] == all[2..47];
    assert all[2..47] + all[47..53] == all[2..53];
  }

  /** A 2.16.76.1.3.4 value whose capacity is at least 32 but less than 47
      (the 40-byte value of a certificate whose buffer ends there, say): the
      birth date, CPF and NIS lines are written, then `[32:47]` panics. */
  lemma HolderFieldsShort(s: Slice)
    requires 32 <= s.Cap() < 47
    ensures var r, all := FieldLines(HolderFields, s), s.data + s.spare;
            && r.lines == [Line(HolderFields[0].caption, all[2..10]),
                           Line(HolderFields[1].caption, all[10..21]),
                           Line(HolderFields[2].caption, all[21..32])]
            && r.outcome == SlicePanic(32, 47, s.Cap())
  {
    var r := FieldLines(HolderFields, s);
    FieldLinesPrefix(HolderFields, s);
    assert !(HolderFields[3].hi <= s.Cap());
  }

  /** The one field after the first two bytes. */
  lemma TailFieldLines(caption: string, s: Slice)
    ensures FieldLines([Field(caption, 2, |s.data|)], s)
            == if |s.data| >= 2 then Rendering([Line(caption, s.data[2..])], Completed)
               else Rendering([], SlicePanic(2, |s.data|, s.Cap()))
  {
    var fields := [Field(caption, 2, |s.data|)];
    assert fields[1..] == [];
    if |s.data| >= 2 {
      assert Reslice(s, 2, |s.data|) == Some(s.data[2..]);
    }
  }

  /** The switch by arcs: the five holder fields for 2.16.76.1.3.4; for
      2.16.76.1.3.2 and 2.16.76.1.3.3 one line with everything after the
      value's first two bytes (the inner element's header, not parsed), or a
      panic when the value is shorter than two bytes; nothing for any other
      identifier. */
  lemma EntryLinesByArcs(o: OtherName)
    ensures var s, r := o.value.bytes, EntryLines(o);
            && (o.typeId == CnpjHolderOid ==> r == FieldLines(HolderFields, s))
            && (o.typeId == ResponsibleNameOid ==>
                  r == if |s.data| >= 2 then Rendering([Line(ResponsibleLabel, s.data[2..])], Completed)
                       else Rendering([], SlicePanic(2, |s.data|, s.Cap())))
            && (o.typeId == CnpjNumberOid ==>
                  r == if |s.data| >= 2 then Rendering([Line(CnpjLabel, s.data[2..])], Completed)
                       else Rendering([], SlicePanic(2, |s.data|, s.Cap())))
            && (o.typeId != CnpjHolderOid && o.typeId != ResponsibleNameOid && o.typeId != CnpjNumberOid ==>
                  r == Rendering([], Completed))
  {
    SwitchByArcs(o.typeId);
    var s := o.value.bytes;
    TailFieldLines(ResponsibleLabel, s);
    TailFieldLines(CnpjLabel, s);
  }

  /** The entries' lines compose: those of `a` and then, if `a` did not
      panic, those of `b`. */
  lemma {:induction false} EntriesLinesAppend(a: seq<OtherName>, b: seq<OtherName>)
    ensures var ra, rb := EntriesLines(a), EntriesLines(b);
            EntriesLines(a + b)
            == if ra.outcome != Completed then ra else Rendering(ra.lines + rb.lines, rb.outcome)
    decreases |a|
  {
    if a == [] {
      assert a + b == b;
    } else {
      assert (a + b)[0] == a[0] && (a + b)[1..] == a[1..] + b;
      EntriesLinesAppend(a[1..], b);
      var first := EntryLines(a[0]);
      if first.outcome == Completed {
        AppendAssociative(first.lines, EntriesLines(a[1..]).lines, EntriesLines(b).lines);
      }
    }
  }

  /** Entries with identifiers outside the switch write nothing. */
  lemma {:induction false} EntriesLinesUnknown(names: seq<OtherName>)
    requires forall i :: 0 <= i < |names| ==>
               names[i].typeId != CnpjHolderOid && names[i].typeId != ResponsibleNameOid && names[i].typeId != CnpjNumberOid
    ensures EntriesLines(names) == Rendering([], Completed)
    decreases |names|
  {
    if names != [] {
      EntryLinesByArcs(names[0]);
      EntriesLinesUnknown(names[1..]);
    }
  }

  /** Extensions other than subjectAltName write nothing. */
  lemma {:induction false} CertDataSkipsOthers(others: seq<Extension>, extensions: seq<Extension>)
    requires forall i :: 0 <= i < |others| ==> others[i].id != SubjectAltNameOid
    ensures CertData(others + extensions) == CertData(extensions)
    decreases |others|
  {
    if others == [] {
      assert others + extensions == extensions;
    } else {
      assert (others + extensions)[1..] == others[1..] + extensions;
      CertDataSkipsOthers(others[1..], extensions);
    }
  }

  /** The first subjectAltName extension that cannot be decoded ends the scan
      with nothing written for it, and nothing for the extensions after it. */
  lemma CertDataStopsAtUndecodable(others: seq<Extension>, san: Extension, rest: seq<Extension>)
    requires forall i :: 0 <= i < |others| ==> others[i].id != SubjectAltNameOid
    requires san.id == SubjectAltNameOid && ClientCertInfo(san.value).err.Some?
    ensures CertData(others + [san] + rest) == Rendering([], Completed)
  {
    AppendAssociative(others, [san], rest);
    CertDataSkipsOthers(others, [san] + rest);
  }

  /** A certificate whose one subjectAltName extension holds the choices `gs`
      gets one block: its otherName choices as entries, in order, and the
      mailbox of its last choice with tag 1 as the email; the extensions
      before and after it write nothing. */
  lemma CertDataOneSan(others: seq<Extension>, critical: bool, gs: seq<GeneralName>, spare: seq<byte>, after: seq<Extension>)
    requires forall i :: 0 <= i < |others| ==> others[i].id != SubjectAltNameOid
    requires forall i :: 0 <= i < |after| ==> after[i].id != SubjectAltNameOid
    requires ValidGeneralNames(gs) && |EncodeGeneralNames(gs)| <= MaxInt32
    ensures var san := Extension(SubjectAltNameOid, critical, Slice(EncodeSubjectAltName(gs), spare));
            CertData(others + [san] + after) == BlockLines(ExpectedNames(gs, spare), LastEmail(gs, []))
  {
    var san := Extension(SubjectAltNameOid, critical, Slice(EncodeSubjectAltName(gs), spare));
    AppendAssociative(others, [san], after);
    CertDataSkipsOthers(others, [san] + after);
    ClientCertInfoRoundTrip(gs, spare);
    CertDataSkipsOthers(after, []);
    assert after + [] == after;
    assert ([san] + after)[1..] == after;
    var block := BlockLines(ExpectedNames(gs, spare), LastEmail(gs, []));
    assert block.lines + [] == block.lines;
  }

  /** "12345678000199" */
  const ExampleCnpj: seq<byte> := [0x31, 0x32, 0x33, 0x34, 0x35, 0x36, 0x37, 0x38, 0x30, 0x30, 0x30, 0x31, 0x39, 0x39]

  /** An IA5String header claiming 12 bytes, then the 14 CNPJ digits. */
  const ExampleValue: seq<byte> := [0x16, 0x0C] + ExampleCnpj

  /** The head of a block with no 2.16.76.1.3.4 entry and no email. */
  const IndividualHead := [Line(HeaderText, []), Line(IndividualText, []), Line(EmailLabel, [])]

  /** The entry of a 2.16.76.1.3.3 otherName writes everything after the
      first two bytes of its inner element, whatever that element's header
      says its length is. */
  lemma CnpjNumberEntryLines(inner: seq<byte>, spare: seq<byte>)
    requires 0 < |inner| <= MaxInt32
    ensures var o := DecodedOtherName(CnpjNumberOid, inner, spare);
            && !ForCnpj([o])
            && EntriesLines([o])
               == if |inner| >= 2 then Rendering([Line(CnpjLabel, inner[2..])], Completed)
                  else Rendering([], SlicePanic(2, 1, 1 + |spare|))
  {
    var o := DecodedOtherName(CnpjNumberOid, inner, spare);
    EntryLinesByArcs(o);
    assert [o][1..] == [];
    ForCnpjByArcs([o]);
  }

  /** The block of a subjectAltName holding one 2.16.76.1.3.3 otherName and
      no email: an individual's, with the CNPJ line, or a panic when the
      inner element is a single byte. */
  lemma CnpjNumberBlock(inner: seq<byte>, spare: seq<byte>)
    requires 0 < |inner| <= MaxInt32
    ensures BlockLines([DecodedOtherName(CnpjNumberOid, inner, spare)], [])
            == if |inner| >= 2 then Rendering(IndividualHead + [Line(CnpjLabel, inner[2..]), Line("", [])], Completed)
               else Rendering(IndividualHead, SlicePanic(2, 1, 1 + |spare|))
  {
    CnpjNumberEntryLines(inner, spare);
    assert IndividualHead + [] == IndividualHead;
  }

  /** The 14 digits under a header claiming 12 are all written. */
  lemma CnpjNumberExample(spare: seq<byte>)
    ensures BlockLines([DecodedOtherName(CnpjNumberOid, ExampleValue, spare)], [])
            == Rendering(IndividualHead + [Line(CnpjLabel, ExampleCnpj), Line("", [])], Completed)
  {
    CnpjNumberBlock(ExampleValue, spare);
    assert ExampleValue[2..] == ExampleCnpj;
  }
}
