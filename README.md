# Certificate identity decoding, in Dafny

This project models the part of the two HTTPS servers
(`solicita-certificado-ao-cancelar` and `simples`) that reads the identity of
an ICP-Brasil client certificate and writes it to the HTTP response:

- `getClientCertInfo` decodes the value of the certificate's subjectAltName
  extension (section 4.2.1.6 of RFC 5280). It keeps the otherName choices in
  order. It keeps the content of the last choice with tag 1 as the email.
  It stops at the first child it cannot read.
- `isForCNPJ` says whether the certificate belongs to a legal entity, that
  is, whether some otherName has the identifier 2.16.76.1.3.4.
- `extractCertData` writes one block of lines per subjectAltName extension.
  The lines hold the fields that the ICP-Brasil A1/A3 certificate policy
  (section 7.1.2.3) packs into the otherName values 2.16.76.1.3.4,
  2.16.76.1.3.2 and 2.16.76.1.3.3.
- `subjectAltName` is the identifier 2.5.29.17 (`CertData.SubjectAltNameOid`).

`simples/simples.go` holds the same code, line for line: its lines 16 and
123-232 are the lines 16 and 177-286 of
`solicita-certificado-ao-cancelar/solicita-certificado-ao-cancelar.go`, minus 54
from line 123 on. The table below cites the second file.

## Layout

- `asn1.dfy` (`Asn1`) is the subset of Go's `encoding/asn1` that the decoder
  calls. It reads identifier and length octets (sections 8.1.2, 8.1.3 and
  10.1 of ITU-T X.690) with Go's limits:
  - a base-128 number has at most five octets, is at most 2^31 - 1 and has no
    leading 0x80 octet;
  - the long tag form is only for tags from 31 on;
  - the long length form is only for lengths from 128 on, with no leading
    zero octet, and it refuses lengths of 2^31 or more;
  - the indefinite length form is refused.

  Converse lemmas show that whatever these readers accept is the one minimal
  encoding of the value read, so no header has two accepted spellings.
  The limits are those of `encoding/asn1` in Go 1.17 and later releases:
  `parseBase128Int` refuses a sixth octet, a leading 0x80 octet and values
  above `math.MaxInt32`, and `parseTagAndLength` refuses a long-form length
  once the value read so far reaches `1<<23`.
  It also reads an element into a `RawValue` and reads an `explicit` field,
  which is returned still wrapped in its [0] header. Each reader has an
  encoder beside it and a lemma that reading what was written gives it back.
- `oid.dfy` (`Oid`) reads OBJECT IDENTIFIER content octets (section 8.19 of
  X.690) and prints the dotted text that `ObjectIdentifier.String` gives.
- `subject_alt_name.dfy` (`SubjectAltName`) holds the `otherName` struct,
  `getClientCertInfo` as a method with its loop, and the function the loop is
  proved against. It also holds an encoder of GeneralName choices and the
  round trip through the decoder.
- `cert_data.dfy` (`CertData`) holds `isForCNPJ` and `extractCertData` as
  methods. The `http.ResponseWriter` is a class whose `writes` field collects
  one `Line` per `Fprintf`. Its body holds, for each line, the UTF-8 text of
  the caption, then the argument's bytes as they are, then a newline.
  `CertData` is the function that gives the lines written for a list of
  extensions.

Go slices are modelled with their capacity, as Go 1.17 and later releases
share them: `crypto/x509` parses with `cryptobyte` and keeps each extension's
`Value` as a sub-slice of the certificate's buffer. A `Slice(data, spare)` is a
slice whose length is `|data|`; `spare` holds the bytes after it up to its
capacity. `encoding/asn1` returns sub-slices of its input, so `Value.Bytes` of
an otherName reaches to the end of the certificate's buffer. Go's `s[lo:hi]`
panics only when `hi` passes the capacity. So a 2.16.76.1.3.4 value shorter
than 53 bytes is not refused: its fields are read from the bytes that follow
it, and the handler panics only where a range passes the end of the buffer.
`Outcome.SlicePanic` records that panic, which ends the handler. The code is
modelled as it is. It does not report a short field and go on with the
others; `HolderFieldsShort` states what happens instead.

## Model

| member | source | states |
|---|---|---|
| Asn1.ParseTagAndLength | solicita-certificado-ao-cancelar/solicita-certificado-ao-cancelar.go:255 | the header is read inside the input: the offset after it is past its start and within the input, the class is below 4 and the length at most 2^31 - 1 (minimality: `Asn1.ParseTagAndLengthCanonical`) |
| Asn1.ParseLength | solicita-certificado-ao-cancelar/solicita-certificado-ao-cancelar.go:255 | the length octets lie inside the input and give a length of at most 2^31 - 1 (minimality: `Asn1.ParseLengthCanonical`) |
| Asn1.ParseBase128 | solicita-certificado-ao-cancelar/solicita-certificado-ao-cancelar.go:255 | a base-128 number lies inside the input and is at most 2^31 - 1 (minimality: `Asn1.ParseBase128Canonical`) |
| Asn1.IdentifierOctetBits | solicita-certificado-ao-cancelar/solicita-certificado-ao-cancelar.go:260 | the class, constructed bit and tag bits are Go's `b >> 6`, `b & 0x20` and `b & 0x1f`, and together they make up the octet |
| Asn1.ParseBase128RoundTrip | solicita-certificado-ao-cancelar/solicita-certificado-ao-cancelar.go:255 | the base-128 octets of any number up to 2^31 - 1 read back as that number, ending just after them |
| Asn1.ParseLengthRoundTrip | solicita-certificado-ao-cancelar/solicita-certificado-ao-cancelar.go:255 | the minimal length octets of any length up to 2^31 - 1, short or long form, read back as that length |
| Asn1.IdentifierRoundTrip | solicita-certificado-ao-cancelar/solicita-certificado-ao-cancelar.go:260 | encoded identifier octets read back as their class, constructed bit and tag number, with low and high tag forms |
| Asn1.ParseTagAndLengthRoundTrip | solicita-certificado-ao-cancelar/solicita-certificado-ao-cancelar.go:255 | an encoded header found anywhere in a buffer reads back as its class, tag, form and length, and the offset after it |
| Asn1.ParseBase128Canonical | solicita-certificado-ao-cancelar/solicita-certificado-ao-cancelar.go:255 | every base-128 number the reader accepts was written as the minimal encoding of its value, which ends where the reader stops: no leading 0x80 octet and no sixth octet get through |
| Asn1.ParseLengthCanonical | solicita-certificado-ao-cancelar/solicita-certificado-ao-cancelar.go:255 | every length the reader accepts was written in the minimal definite form of its value: short below 128, otherwise a count octet and base-256 digits with no leading zero |
| Asn1.ParseTagNumberCanonical | solicita-certificado-ao-cancelar/solicita-certificado-ao-cancelar.go:260 | identifier octets the reader accepts are the encoding of the class, form and tag read, so a tag below 31 never gets through in the high form |
| Asn1.ParseTagAndLengthCanonical | solicita-certificado-ao-cancelar/solicita-certificado-ao-cancelar.go:255 | identifier and length octets the reader accepts are the one encoding of the header read, ending where the reader stops; with the round trip, reading is the inverse of encoding on accepted input |
| Asn1.ParseRawValue | solicita-certificado-ao-cancelar/solicita-certificado-ao-cancelar.go:255 | the element read and what follows it make up the input; what follows is strictly shorter, so the loop ends; the element's content ends it and both keep the capacity to the end of the buffer |
| Asn1.ParseRawValueRoundTrip | solicita-certificado-ao-cancelar/solicita-certificado-ao-cancelar.go:248 | an encoded element followed by anything reads back as its class, form, tag and content, leaving exactly what followed |
| Asn1.ParseExplicitRawValue | solicita-certificado-ao-cancelar/solicita-certificado-ao-cancelar.go:243 | an `explicit` field read is a context-specific [0] element, inside the input |
| Asn1.ParseExplicitRawValueAfter | solicita-certificado-ao-cancelar/solicita-certificado-ao-cancelar.go:243 | an encoded [0] wrapper at the end of a SEQUENCE's content reads back unparsed: its content is the whole inner element, header included |
| Asn1.ParseTlvWhole | solicita-certificado-ao-cancelar/solicita-certificado-ao-cancelar.go:263 | an encoded element on its own reads back as its header, and the window after the header is its content |
| Oid.ParseArcs | solicita-certificado-ao-cancelar/solicita-certificado-ao-cancelar.go:242 | every arc read is at most 2^31 - 1, and there are no more arcs than octets |
| Oid.ParseObjectIdentifier | solicita-certificado-ao-cancelar/solicita-certificado-ao-cancelar.go:242 | an identifier read has at least two arcs, a first arc of at most 2 and a second below 40 unless the first is 2; empty content is refused |
| Oid.ParseOidField | solicita-certificado-ao-cancelar/solicita-certificado-ao-cancelar.go:242 | the OBJECT IDENTIFIER field lies inside the SEQUENCE's content; a SEQUENCE that ends before it is refused |
| Oid.ParseArcsRoundTrip | solicita-certificado-ao-cancelar/solicita-certificado-ao-cancelar.go:242 | the encoded arcs read back as those arcs |
| Oid.ParseObjectIdentifierRoundTrip | solicita-certificado-ao-cancelar/solicita-certificado-ao-cancelar.go:242 | the content octets of any valid identifier, with its first two arcs packed as 40 * first + second, read back as its arcs |
| Oid.ParseOidFieldRoundTrip | solicita-certificado-ao-cancelar/solicita-certificado-ao-cancelar.go:242 | an encoded OBJECT IDENTIFIER element found anywhere reads back as its arcs, and the offset after it |
| Oid.ParseOidFieldFront | solicita-certificado-ao-cancelar/solicita-certificado-ao-cancelar.go:242 | an encoded OBJECT IDENTIFIER element at the front of a SEQUENCE's content reads back, whatever follows it |
| Oid.DecimalInjective | solicita-certificado-ao-cancelar/solicita-certificado-ao-cancelar.go:209 | different numbers print as different decimal text |
| Oid.OidStringInjective | solicita-certificado-ao-cancelar/solicita-certificado-ao-cancelar.go:280 | identifiers with the same dotted text have the same arcs, so comparing `TypeID.String()` compares identifiers |
| SubjectAltName.ParseOtherName | solicita-certificado-ao-cancelar/solicita-certificado-ao-cancelar.go:263 | an otherName read has a valid identifier and a value that is the context-specific [0] wrapper; empty input is refused |
| SubjectAltName.ParseOtherNameFields | solicita-certificado-ao-cancelar/solicita-certificado-ao-cancelar.go:241-244 | the fields read have a valid identifier and a context-specific [0] value; empty content is refused |
| SubjectAltName.OtherNameUnwrapped | solicita-certificado-ao-cancelar/solicita-certificado-ao-cancelar.go:263 | `tag:0` reads a [0] constructed element around any content as that content's fields |
| SubjectAltName.OtherNameOidRead | solicita-certificado-ao-cancelar/solicita-certificado-ao-cancelar.go:242 | the TypeID field of an encoded otherName reads back as its identifier |
| SubjectAltName.OtherNameValueRead | solicita-certificado-ao-cancelar/solicita-certificado-ao-cancelar.go:243 | the Value field of an encoded otherName reads back as the [0] wrapper, whose Bytes are the inner element whole |
| SubjectAltName.ParseOtherNameFieldsRoundTrip | solicita-certificado-ao-cancelar/solicita-certificado-ao-cancelar.go:241-244 | the fields of an encoded otherName read back as its identifier and inner element |
| SubjectAltName.ParseOtherNameRoundTrip | solicita-certificado-ao-cancelar/solicita-certificado-ao-cancelar.go:263 | a whole encoded otherName reads back as its identifier and inner element |
| SubjectAltName.GetClientCertInfo | solicita-certificado-ao-cancelar/solicita-certificado-ao-cancelar.go:246-275 | the method's three results are those of the decoding loop run over the children; a value that is not a universal SEQUENCE, or cannot be read, gives no entries, no email and no error |
| SubjectAltName.DecodeChildrenKeepsEntries | solicita-certificado-ao-cancelar/solicita-certificado-ao-cancelar.go:267 | the loop only appends: the entries decoded so far stay, in order, at the front of the result |
| SubjectAltName.DecodeChildrenStep | solicita-certificado-ao-cancelar/solicita-certificado-ao-cancelar.go:253-271 | one encoded child: an otherName appends exactly one entry, a tag-1 child replaces the email, any other tag changes nothing, and the loop goes on with what follows |
| SubjectAltName.DecodeChildrenConcat | solicita-certificado-ao-cancelar/solicita-certificado-ao-cancelar.go:253-271 | decoding encoded choices followed by anything appends their otherNames in order and leaves the mailbox of the last tag-1 choice, whatever its class, then goes on with what follows |
| SubjectAltName.ClientCertInfoRoundTrip | solicita-certificado-ao-cancelar/solicita-certificado-ao-cancelar.go:246-275 | a subjectAltName holding any valid choices decodes to exactly its otherNames in order and its last mailbox, with no error |
| SubjectAltName.FailFastOnUnreadableChild | solicita-certificado-ao-cancelar/solicita-certificado-ao-cancelar.go:255-258 | the first child that cannot be read ends the loop with its error, beside only what was decoded before it |
| SubjectAltName.FailFastOnBadOtherName | solicita-certificado-ao-cancelar/solicita-certificado-ao-cancelar.go:246-266 | a tag-0 child that is not an otherName ends the loop with the otherName's error, whatever follows it; beside the error, the named results return the otherNames and email decoded before it |
| CertData.IcpBrasilText | solicita-certificado-ao-cancelar/solicita-certificado-ao-cancelar.go:210-228 | the identifiers 2.16.76.1.3.d print as the text "2.16.76.1.3.d" |
| CertData.CnpjHolderOidText | solicita-certificado-ao-cancelar/solicita-certificado-ao-cancelar.go:210 | the case text "2.16.76.1.3.4" is the text of the identifier 2.16.76.1.3.4 |
| CertData.ResponsibleNameOidText | solicita-certificado-ao-cancelar/solicita-certificado-ao-cancelar.go:225 | the case text "2.16.76.1.3.2" is the text of the identifier 2.16.76.1.3.2 |
| CertData.CnpjNumberOidText | solicita-certificado-ao-cancelar/solicita-certificado-ao-cancelar.go:228 | the case text "2.16.76.1.3.3" is the text of the identifier 2.16.76.1.3.3 |
| CertData.SwitchByArcs | solicita-certificado-ao-cancelar/solicita-certificado-ao-cancelar.go:209-231 | each case of the switch on the text is taken exactly when the identifier's arcs are the case's |
| CertData.Reslice | solicita-certificado-ao-cancelar/solicita-certificado-ao-cancelar.go:211 | Go's `s[lo:hi]` is defined exactly when `lo <= hi <= cap(s)`, has `hi - lo` bytes, and past the length reads the bytes that follow in the buffer |
| CertData.RenderAppend | solicita-certificado-ao-cancelar/solicita-certificado-ao-cancelar.go:192-236 | the response body of two runs of writes is the first's bytes followed by the second's |
| CertData.Fprintf | solicita-certificado-ao-cancelar/solicita-certificado-ao-cancelar.go:192 | one formatted write appends one line to the writes and changes nothing else |
| CertData.FprintfExtendsBody | solicita-certificado-ao-cancelar/solicita-certificado-ao-cancelar.go:203 | a write appends its text, its argument's bytes as they are and a newline to the body |
| CertData.IsForCnpj | solicita-certificado-ao-cancelar/solicita-certificado-ao-cancelar.go:277-286 | the search returns true exactly when some entry's identifier prints as "2.16.76.1.3.4" |
| CertData.ForCnpjByArcs | solicita-certificado-ao-cancelar/solicita-certificado-ao-cancelar.go:277-286 | a certificate is a legal entity's exactly when some entry's identifier is 2.16.76.1.3.4, whatever the order or duplicates |
| CertData.WriteField | solicita-certificado-ao-cancelar/solicita-certificado-ao-cancelar.go:211-212 | one field writes its caption with the bytes of its range, or panics, writing nothing, when the range passes the capacity |
| CertData.WriteHolderFields | solicita-certificado-ao-cancelar/solicita-certificado-ao-cancelar.go:210-224 | the five statements of the 2.16.76.1.3.4 case write the holder fields in order, up to the first range out of capacity |
| CertData.WriteTailField | solicita-certificado-ao-cancelar/solicita-certificado-ao-cancelar.go:225-230 | the 2.16.76.1.3.2 and 2.16.76.1.3.3 cases write `[2:]` of the value |
| CertData.WriteEntry | solicita-certificado-ao-cancelar/solicita-certificado-ao-cancelar.go:209-232 | the switch writes the lines of the entry's case and nothing for another identifier |
| CertData.WriteBlock | solicita-certificado-ao-cancelar/solicita-certificado-ao-cancelar.go:191-236 | a decoded subjectAltName writes the header, the kind of certificate, the email, the entries' lines in order and a blank line, or stops at the first panic |
| CertData.ExtractCertData | solicita-certificado-ao-cancelar/solicita-certificado-ao-cancelar.go:180-239 | the writes made are exactly those of `CertData` for the certificate's extensions, and the method ends as it does |
| CertData.FieldLinesPrefix | solicita-certificado-ao-cancelar/solicita-certificado-ao-cancelar.go:210-230 | the fields are written in order, each with the bytes of its range, up to the first range out of capacity, which is the panic |
| CertData.HolderFieldsRead | solicita-certificado-ao-cancelar/solicita-certificado-ao-cancelar.go:210-224 | when the capacity reaches byte 53, all five holder lines are written and their ranges tile the bytes 2 to 53 |
| CertData.HolderFieldsShort | solicita-certificado-ao-cancelar/solicita-certificado-ao-cancelar.go:220-221 | a 2.16.76.1.3.4 value whose capacity is below 47 and at least 32 writes the birth date, CPF and NIS lines and then panics at `[32:47]` |
| CertData.TailFieldLines | solicita-certificado-ao-cancelar/solicita-certificado-ao-cancelar.go:226-230 | `[2:]` writes everything after the first two bytes, or panics when the value is shorter than two bytes |
| CertData.EntryLinesByArcs | solicita-certificado-ao-cancelar/solicita-certificado-ao-cancelar.go:209-232 | the lines of one entry by its identifier's arcs: the holder fields, one `[2:]` line, or nothing for an identifier outside the switch |
| CertData.EntriesLinesAppend | solicita-certificado-ao-cancelar/solicita-certificado-ao-cancelar.go:205-233 | the entries' lines are written in entry order: those of a list followed by another are the first's, then, unless it panicked, the second's |
| CertData.EntriesLinesUnknown | solicita-certificado-ao-cancelar/solicita-certificado-ao-cancelar.go:205-233 | entries with identifiers outside the switch write no lines |
| CertData.CertDataSkipsOthers | solicita-certificado-ao-cancelar/solicita-certificado-ao-cancelar.go:181-183 | extensions other than 2.5.29.17 write nothing |
| CertData.CertDataStopsAtUndecodable | solicita-certificado-ao-cancelar/solicita-certificado-ao-cancelar.go:185-189 | the first subjectAltName that cannot be decoded writes nothing and ends the scan |
| CertData.CertDataOneSan | solicita-certificado-ao-cancelar/solicita-certificado-ao-cancelar.go:180-239 | a certificate with one subjectAltName, wherever it stands among the other extensions, gets one block of its otherNames in order and the mailbox of its last tag-1 choice; the scan goes on past it and the extensions before and after it write nothing |
| CertData.CnpjNumberEntryLines | solicita-certificado-ao-cancelar/solicita-certificado-ao-cancelar.go:228-230 | a 2.16.76.1.3.3 entry writes everything after its inner element's first two bytes, whatever that element's length octets say |
| CertData.CnpjNumberBlock | solicita-certificado-ao-cancelar/solicita-certificado-ao-cancelar.go:191-236 | the block of one 2.16.76.1.3.3 otherName and no email is an individual's block with the CNPJ line, or panics when the inner element is one byte |
| CertData.CnpjNumberExample | solicita-certificado-ao-cancelar/solicita-certificado-ao-cancelar.go:228-230 | fourteen CNPJ digits under a header that claims twelve are all written |

## Left out

- `main` in both files: reading the CA files, the server key pair, the TLS
  listener, the accept loop and goroutines. These are I/O and concurrency.
- `addCertToPool`: file reads and PEM parsing in `crypto/x509`.
- `renegotiationListener` and `redirectToTLS`: network plumbing over `net`
  and `net/http`.
- The TLS handshake and the verification of the client's chain, which
  `crypto/tls` does before the handler runs.
- The request handler's Subject and Issuer lines, which use Go's `%v`
  formatting of `pkix.Name`. `ExtractCertData` takes the certificate's
  extension list as it stands; parsing the certificate is not modelled.
- Every `fmt.Printf` and `log.Printf` to standard output, including the
  "OID =" line. Only the lines written to the response are modelled.
- The return values of `Fprintf` (the code discards them) and write errors.
- The error values of `encoding/asn1` are an enumeration. Their message text
  is not modelled.
- `encoding/asn1` beyond what the decoder calls: reflection, other field
  types, BER forms and the indefinite length.
- The capacity of `ext.Value` is a parameter (`spare`). How much of the
  certificate's buffer follows the extension depends on the `crypto/x509`
  parser, which is not part of this model.
- SubjectAltName.ClientCertInfoRoundTrip: round trips are stated for
  GeneralName choices whose lengths fit below 2^31 - 12 and whose other
  choices have tags from 1 on. The other choices are written as a class, a
  form and a tag, not as the named GeneralName types.
