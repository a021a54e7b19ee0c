/** Object identifiers: the content octets of an OBJECT IDENTIFIER (section
    8.19 of ITU-T X.690) as Go's encoding/asn1 reads them, and their dotted
    decimal text as Go's ObjectIdentifier.String writes it. */
module Oid {
  import opened Asn1

  /** The arcs from `offset` to the end of the content, one base-128 integer
      each. */
  function ParseArcs(content: seq<byte>, offset: nat): (r: Result<seq<nat>>)
    requires offset <= |content|
    ensures r.Ok? ==> forall i :: 0 <= i < |r.value| ==> r.value[i] <= MaxInt32
    ensures r.Ok? ==> |r.value| <= |content| - offset
    decreases |content| - offset
  {
    if offset >= |content| then Ok([])
    else
      var a :- ParseBase128(content, offset);
      var rest :- ParseArcs(content, a.1);
      Ok([a.0] + rest)
  }

  /** The arcs of an object identifier from its content octets. The first
      integer packs the first two arcs as 40 * first + second. */
  function ParseObjectIdentifier(content: seq<byte>): (r: Result<seq<nat>>)
    ensures r.Ok? ==> ValidOid(r.value)
    ensures |content| == 0 ==> r == Err(EmptyObjectIdentifier)
  {
    if |content| == 0 then Err(EmptyObjectIdentifier)
    else
      var f :- ParseBase128(content, 0);
      var first := if f.0 < 80 then [f.0 / 40, f.0 % 40] else [2, f.0 - 80];
      var rest :- ParseArcs(content, f.1);
      Ok(first + rest)
  }

  /** An OBJECT IDENTIFIER field of a SEQUENCE, starting at `offset` of the
      SEQUENCE's content: a universal, primitive element with tag 6. Returns
      the arcs and the offset after the element. */
  function ParseOidField(s: seq<byte>, offset: nat): (r: Result<(seq<nat>, nat)>)
    requires offset <= |s|
    ensures r.Ok? ==> offset < r.value.1 <= |s| && ValidOid(r.value.0)
    ensures offset == |s| ==> r == Err(SequenceTruncated)
  {
    if offset == |s| then Err(SequenceTruncated)
    else
      var hl :- ParseTagAndLength(s, offset);
      var h, off := hl.0, hl.1;
      if h.tagClass != ClassUniversal || h.tag != TagObjectIdentifier || h.compound then Err(TagMismatch)
      else if off + h.length > |s| then Err(DataTruncated)
      else
        var oid :- ParseObjectIdentifier(s[off..off + h.length]);
        Ok((oid, off + h.length))
  }

  /** A whole OBJECT IDENTIFIER element. */
  function EncodeOidElement(oid: seq<nat>): seq<byte>
    requires ValidOid(oid) && |EncodeObjectIdentifier(oid)| <= MaxInt32
  {
    EncodeTlv(ClassUniversal, false, TagObjectIdentifier, EncodeObjectIdentifier(oid))
  }

  /** An OBJECT IDENTIFIER header at `start` followed by content octets that
      read as `oid` reads as `oid`. */
  lemma ParseOidFieldAt(s: seq<byte>, start: nat, off: nat, c: seq<byte>, oid: seq<nat>, end: nat)
    requires start <= |s| && end == off + |c| <= |s|
    requires ParseTagAndLength(s, start) == Ok((Header(ClassUniversal, TagObjectIdentifier, false, |c|), off))
    requires Occurs(s, off, c) && ParseObjectIdentifier(c) == Ok(oid)
    ensures ParseOidField(s, start) == Ok((oid, end))
  {
  }

  /** An OBJECT IDENTIFIER element inside a SEQUENCE whose content octets
      read as `oid` reads back as `oid`. */
  lemma ParseOidFieldOf(s: seq<byte>, start: nat, c: seq<byte>, oid: seq<nat>, end: nat)
    requires |c| <= MaxInt32
    requires Occurs(s, start, EncodeTlv(ClassUniversal, false, TagObjectIdentifier, c))
    requires ParseObjectIdentifier(c) == Ok(oid)
    requires end == start + |EncodeTlv(ClassUniversal, false, TagObjectIdentifier, c)|
    ensures ParseOidField(s, start) == Ok((oid, end))
  {
    var hdr := EncodeHeader(ClassUniversal, false, TagObjectIdentifier, |c|);
    var off := start + |hdr|;
    OccursSplit(s, start, hdr, c);
    ParseTlvAt(s, start, ClassUniversal, false, TagObjectIdentifier, c, off);
    ParseOidFieldAt(s, start, off, c, oid, end);
  }

  /** An encoded OBJECT IDENTIFIER element inside a SEQUENCE reads back as
      its arcs. */
  lemma ParseOidFieldRoundTrip(s: seq<byte>, start: nat, oid: seq<nat>)
    requires ValidOid(oid) && |EncodeObjectIdentifier(oid)| <= MaxInt32
    requires Occurs(s, start, EncodeOidElement(oid))
    ensures ParseOidField(s, start) == Ok((oid, start + |EncodeOidElement(oid)|))
  {
    ParseObjectIdentifierRoundTrip(oid);
    ParseOidFieldOf(s, start, EncodeObjectIdentifier(oid), oid, start + |EncodeOidElement(oid)|);
  }

  /** An encoded OBJECT IDENTIFIER element at the front of a SEQUENCE's
      content reads back as its arcs, whatever follows it. */
  lemma ParseOidFieldFront(oid: seq<nat>, rest: seq<byte>)
    requires ValidOid(oid) && |EncodeObjectIdentifier(oid)| <= MaxInt32
    ensures ParseOidField(EncodeOidElement(oid) + rest, 0) == Ok((oid, |EncodeOidElement(oid)|))
  {
    OccursConcat(EncodeOidElement(oid), rest);
    ParseObjectIdentifierRoundTrip(oid);
    ParseOidFieldOf(EncodeOidElement(oid) + rest, 0, EncodeObjectIdentifier(oid), oid, |EncodeOidElement(oid)|);
  }

  /** The object identifiers that have an encoding the reader accepts. */
  predicate ValidOid(oid: seq<nat>)
  {
    && |oid| >= 2
    && oid[0] <= 2
    && (oid[0] < 2 ==> oid[1] < 40)
    && 40 * oid[0] + oid[1] <= MaxInt32
    && forall i :: 2 <= i < |oid| ==> oid[i] <= MaxInt32
  }

  function EncodeArcs(arcs: seq<nat>): seq<byte>
  {
    if arcs == [] then [] else EncodeBase128(arcs[0]) + EncodeArcs(arcs[1..])
  }

  /** The content octets of an object identifier. */
  function EncodeObjectIdentifier(oid: seq<nat>): seq<byte>
    requires ValidOid(oid)
  {
    EncodeBase128(40 * oid[0] + oid[1]) + EncodeArcs(oid[2..])
  }

  lemma {:induction false} ParseArcsRoundTrip(content: seq<byte>, start: nat, arcs: seq<nat>)
    requires forall i :: 0 <= i < |arcs| ==> arcs[i] <= MaxInt32
    requires start + |EncodeArcs(arcs)| == |content|
    requires Occurs(content, start, EncodeArcs(arcs))
    ensures ParseArcs(content, start) == Ok(arcs)
    decreases arcs
  {
    if arcs != [] {
      var e := EncodeBase128(arcs[0]);
      OccursSplit(content, start, e, EncodeArcs(arcs[1..]));
      ParseBase128RoundTrip(content, start, arcs[0]);
      ParseArcsRoundTrip(content, start + |e|, arcs[1..]);
      ParseArcsStep(content, start, arcs[0], start + |e|, arcs[1..]);
      assert [arcs[0]] + arcs[1..] == arcs;
    }
  }

  /** One arc, then the rest. */
  lemma ParseArcsStep(content: seq<byte>, offset: nat, a: nat, next: nat, rest: seq<nat>)
    requires offset < next <= |content|
    requires ParseBase128(content, offset) == Ok((a, next))
    requires ParseArcs(content, next) == Ok(rest)
    ensures ParseArcs(content, offset) == Ok([a] + rest)
  {
  }

  /** The first integer, then the remaining arcs. */
  lemma ParseObjectIdentifierStep(content: seq<byte>, v: nat, next: nat, rest: seq<nat>)
    requires 0 < next <= |content|
    requires ParseBase128(content, 0) == Ok((v, next))
    requires ParseArcs(content, next) == Ok(rest)
    ensures ParseObjectIdentifier(content) == Ok((if v < 80 then [v / 40, v % 40] else [2, v - 80]) + rest)
  {
  }

  /** The first integer of the content gives back the first two arcs. */
  lemma FirstTwoArcs(oid: seq<nat>)
    requires ValidOid(oid)
    ensures var v := 40 * oid[0] + oid[1];
            (if v < 80 then [v / 40, v % 40] else [2, v - 80]) == oid[..2]
  {
  }

  /** Reading the encoding of an object identifier gives it back. */
  lemma ParseObjectIdentifierRoundTrip(oid: seq<nat>)
    requires ValidOid(oid)
    ensures ParseObjectIdentifier(EncodeObjectIdentifier(oid)) == Ok(oid)
  {
    var content := EncodeObjectIdentifier(oid);
    var v := 40 * oid[0] + oid[1];
    var e := EncodeBase128(v);
    assert content == e + EncodeArcs(oid[2..]);
    OccursConcat(e, EncodeArcs(oid[2..]));
    ParseBase128RoundTrip(content, 0, v);
    ParseArcsRoundTrip(content, |e|, oid[2..]);
    ParseObjectIdentifierStep(content, v, |e|, oid[2..]);
    FirstTwoArcs(oid);
    assert oid == oid[..2] + oid[2..];
  }

  // ---------------------------------------------------------------------
  // Dotted decimal text
  // ---------------------------------------------------------------------

  function DigitChar(d: nat): char
    requires d < 10
  {
    "0123456789"[d]
  }

  /** The decimal text of `n`, without leading zeros. */
  function Decimal(n: nat): (s: string)
    ensures |s| >= 1 && forall i :: 0 <= i < |s| ==> s[i] != '.'
  {
    var ds := Digits(n, 10);
    seq(|ds|, i requires 0 <= i < |ds| => DigitChar(ds[i]))
  }

  /** The arcs written in decimal and joined by dots. */
  function OidString(oid: seq<nat>): string
  {
    if |oid| == 0 then ""
    else if |oid| == 1 then Decimal(oid[0])
    else Decimal(oid[0]) + "." + OidString(oid[1..])
  }

  lemma DecimalOneDigit(n: nat)
    requires n < 10
    ensures Decimal(n) == [DigitChar(n)]
  {
    assert Digits(n, 10) == [n];
  }

  lemma DecimalTwoDigits(n: nat)
    requires 10 <= n < 100
    ensures Decimal(n) == [DigitChar(n / 10), DigitChar(n % 10)]
  {
    assert Digits(n / 10, 10) == [n / 10];
    assert Digits(n, 10) == [n / 10, n % 10];
  }

  /** Different numbers have different decimal text. */
  lemma DecimalInjective(a: nat, b: nat)
    requires Decimal(a) == Decimal(b)
    ensures a == b
  {
    var da, db := Digits(a, 10), Digits(b, 10);
    assert |da| == |db|;
    forall i | 0 <= i < |da| ensures da[i] == db[i] {
      assert Decimal(a)[i] == Decimal(b)[i];
    }
    assert da == db;
    DigitsValueOfDigits(a, 10);
    DigitsValueOfDigits(b, 10);
  }

  /** A text that splits into a dot-free head and a tail that is empty or
      starts with a dot splits so in one way only. */
  lemma SplitAtFirstDot(x: string, y: string, x': string, y': string)
    requires forall i :: 0 <= i < |x| ==> x[i] != '.'
    requires forall i :: 0 <= i < |x'| ==> x'[i] != '.'
    requires y == [] || y[0] == '.'
    requires y' == [] || y'[0] == '.'
    requires x + y == x' + y'
    ensures x == x' && y == y'
  {
    assert x == (x + y)[..|x|];
    assert x' == (x' + y')[..|x'|];
    assert y == (x + y)[|x|..];
    assert y' == (x' + y')[|x'|..];
  }

  /** Different object identifiers have different dotted text, so comparing
      the text is comparing the arcs. */
  lemma {:induction false} OidStringInjective(a: seq<nat>, b: seq<nat>)
    requires OidString(a) == OidString(b)
    ensures a == b
    decreases |a|
  {
    if |a| == 0 || |b| == 0 {
      assert |OidString(a)| == 0 && |OidString(b)| == 0;
    } else {
      var y := if |a| == 1 then "" else "." + OidString(a[1..]);
      var y' := if |b| == 1 then "" else "." + OidString(b[1..]);
      assert OidString(a) == Decimal(a[0]) + y;
      assert OidString(b) == Decimal(b[0]) + y';
      SplitAtFirstDot(Decimal(a[0]), y, Decimal(b[0]), y');
      DecimalInjective(a[0], b[0]);
      if |a| > 1 && |b| > 1 {
        assert OidString(a[1..]) == y[1..] == y'[1..] == OidString(b[1..]);
        OidStringInjective(a[1..], b[1..]);
        assert a == [a[0]] + a[1..];
        assert b == [b[0]] + b[1..];
      }
    }
  }
}
