/** A reader for the subset of DER (ITU-T X.690) that the certificate-identity
    decoder needs: identifier octets (section 8.1.2), definite lengths in their
    minimal form (sections 8.1.3 and 10.1), and raw tag-length-value elements.
    It stands in for the parts of Go's encoding/asn1 that the decoder calls,
    with the same acceptance limits and the same failure cases. Each reader
    has an encoder beside it and a lemma that reading what was written gives
    the value back. */
module Asn1 {

  type byte = b: int | 0 <= b < 256

  /** The largest value a base-128 integer or a length may take. */
  const MaxInt32: nat := 0x7fff_ffff

  const ClassUniversal: nat := 0
  const ClassContextSpecific: nat := 2
  const TagObjectIdentifier: nat := 6
  const TagSequence: nat := 16

  /** The reasons the reader rejects its input. */
  datatype Error =
    | TruncatedTagOrLength
    | NonMinimalTag
    | TruncatedBase128
    | NonMinimalBase128
    | Base128TooLarge
    | IndefiniteLength
    | LengthTooLarge
    | LeadingZeroLength
    | NonMinimalLength
    | DataTruncated
    | SequenceTruncated
    | TagMismatch
    | ExplicitTagNoChild
    | ExplicitTagMismatch
    | EmptyObjectIdentifier

  datatype Option<+T> = None | Some(value: T)

  datatype Result<+T> = Ok(value: T) | Err(error: Error) {
    predicate IsFailure() { Err? }
    function PropagateFailure<U>(): Result<U> requires Err? { Err(error) }
    function Extract(): T requires Ok? { value }
  }

  /** A byte slice as the decoder sees it: its elements, and the spare bytes
      that lie behind them in the same backing array, up to its capacity.
      Reslicing keeps the capacity, so a slice expression may reach into
      `spare`. */
  datatype Slice = Slice(data: seq<byte>, spare: seq<byte>) {
    function Cap(): nat { |data| + |spare| }
  }

  /** The slice `s[lo:hi]` of the elements of `s`, whose spare capacity is
      everything behind `hi`. */
  function Window(s: Slice, lo: nat, hi: nat): (r: Slice)
    requires lo <= hi <= |s.data|
    ensures r.data == s.data[lo..hi]
    ensures r.data + r.spare == (s.data + s.spare)[lo..]
  {
    Slice(s.data[lo..hi], s.data[hi..] + s.spare)
  }

  /** Identifier and length octets of one element. */
  datatype Header = Header(tagClass: nat, tag: nat, compound: bool, length: nat)

  /** An element read without interpretation: `bytes` is its content,
      `fullBytes` the whole element, identifier and length included. */
  datatype RawValue = RawValue(tagClass: nat, tag: nat, compound: bool, bytes: Slice, fullBytes: Slice)

  // ---------------------------------------------------------------------
  // Base-128 integers (high tag numbers and object identifier arcs)
  // ---------------------------------------------------------------------

  /** Reads a base-128 integer whose first octet is at `offset`, having
      already read `shifted` octets worth `acc`. At most five octets, the
      first not 0x80, the value at most MaxInt32. */
  function Base128Loop(bytes: seq<byte>, offset: nat, shifted: nat, acc: nat): (r: Result<(nat, nat)>)
    ensures r.Ok? ==> offset < r.value.1 <= |bytes| && r.value.0 <= MaxInt32
    ensures r.Ok? ==> bytes[r.value.1 - 1] < 0x80
    decreases |bytes| - offset
  {
    if offset >= |bytes| then Err(TruncatedBase128)
    else if shifted == 5 then Err(Base128TooLarge)
    else if shifted == 0 && bytes[offset] == 0x80 then Err(NonMinimalBase128)
    else
      var acc' := acc * 128 + Low7(bytes[offset]);
      if bytes[offset] < 0x80 then
        if acc' > MaxInt32 then Err(Base128TooLarge) else Ok((acc', offset + 1))
      else
        Base128Loop(bytes, offset + 1, shifted + 1, acc')
  }

  /** The seven low bits of an octet (`b & 0x7f`). */
  function Low7(b: byte): nat
  {
    if b >= 0x80 then b - 0x80 else b
  }

  /** The base-128 integer at `offset` and the offset just past it. */
  function ParseBase128(bytes: seq<byte>, offset: nat): (r: Result<(nat, nat)>)
    ensures r.Ok? ==> offset < r.value.1 <= |bytes| && r.value.0 <= MaxInt32
  {
    Base128Loop(bytes, offset, 0, 0)
  }

  // ---------------------------------------------------------------------
  // Digits in a base, the specification of both multi-octet encodings
  // ---------------------------------------------------------------------

  /** The number whose big-endian digits in base `base` are `ds`. */
  function DigitsValue(ds: seq<nat>, base: nat): nat
  {
    if ds == [] then 0 else DigitsValue(ds[..|ds| - 1], base) * base + ds[|ds| - 1]
  }

  /** The minimal big-endian digits of `v` in base `base`. */
  function Digits(v: nat, base: nat): (ds: seq<nat>)
    requires base >= 2
    ensures |ds| >= 1
    ensures forall i :: 0 <= i < |ds| ==> ds[i] < base
    decreases v
  {
    if v < base then [v]
    else
      DivMod(v, base);
      Digits(v / base, base) + [v % base]
  }

  lemma {:induction false} DigitsValueOfDigits(v: nat, base: nat)
    requires base >= 2
    ensures DigitsValue(Digits(v, base), base) == v
    ensures v >= base ==> Digits(v, base)[0] != 0
    decreases v
  {
    if v >= base {
      var q, r := v / base, v % base;
      DivMod(v, base);
      DigitsValueOfDigits(q, base);
      var ds := Digits(v, base);
      assert ds[..|ds| - 1] == Digits(q, base);
    }
  }

  lemma {:induction false} DigitsValuePrefix(ds: seq<nat>, base: nat, j: nat)
    requires base >= 1 && j < |ds|
    ensures DigitsValue(ds[..j + 1], base) == DigitsValue(ds[..j], base) * base + ds[j]
  {
    assert ds[..j + 1][..j] == ds[..j];
  }

  /** A longer prefix of the digits is worth at least as much. */
  lemma {:induction false} DigitsValueMonotone(ds: seq<nat>, base: nat, i: nat, j: nat)
    requires base >= 1 && i <= j <= |ds|
    ensures DigitsValue(ds[..i], base) <= DigitsValue(ds[..j], base)
    decreases j - i
  {
    if i < j {
      DigitsValuePrefix(ds, base, i);
      MulMonotone(DigitsValue(ds[..i], base), base);
      DigitsValueMonotone(ds, base, i + 1, j);
    }
  }

  /** A number below base^n has at most n digits. */
  lemma {:induction false} DigitsLength(v: nat, base: nat, n: nat)
    requires base >= 2 && n >= 1 && v < DigitsBound(base, n)
    ensures |Digits(v, base)| <= n
    decreases n
  {
    if v >= base {
      DivBound(v, base, DigitsBound(base, n - 1));
      DigitsLength(v / base, base, n - 1);
    }
  }

  lemma DivMod(v: nat, base: nat)
    requires base >= 2
    ensures (v / base) * base + v % base == v
    ensures v % base < base
    ensures v >= base ==> 1 <= v / base < v
  {
  }

  lemma DivBound(v: nat, base: nat, c: nat)
    requires base >= 2 && v < c * base
    ensures v / base < c
  {
  }

  lemma MulMonotone(x: nat, base: nat)
    requires base >= 1
    ensures x <= x * base
  {
  }

  /** base to the power n, for n >= 1. */
  function DigitsBound(base: nat, n: nat): nat
    requires n >= 1
  {
    if n == 1 then base else DigitsBound(base, n - 1) * base
  }

  // ---------------------------------------------------------------------
  // Identifier and length octets
  // ---------------------------------------------------------------------

  /** The tag number, given the low five bits `low` of the first identifier
      octet and the offset of the octet after it. */
  function ParseTagNumber(bytes: seq<byte>, offset: nat, low: nat): (r: Result<(nat, nat)>)
    ensures r.Ok? && low == 31 ==> offset < r.value.1 <= |bytes| && 31 <= r.value.0 <= MaxInt32
    ensures r.Ok? && low != 31 ==> r.value == (low, offset)
  {
    if low != 31 then Ok((low, offset))
    else
      var t :- ParseBase128(bytes, offset);
      if t.0 < 31 then Err(NonMinimalTag) else Ok(t)
  }

  /** Reads `count` more long-form length octets at `offset`, the ones read
      so far being worth `acc`. */
  function LongLength(bytes: seq<byte>, offset: nat, count: nat, acc: nat): (r: Result<(nat, nat)>)
    requires offset <= |bytes| && acc <= MaxInt32
    ensures r.Ok? ==> offset + count == r.value.1 <= |bytes|
    ensures r.Ok? ==> 0x80 <= r.value.0 <= MaxInt32
    decreases count
  {
    if count == 0 then
      if acc < 0x80 then Err(NonMinimalLength) else Ok((acc, offset))
    else if offset >= |bytes| then Err(TruncatedTagOrLength)
    else if acc >= 0x80_0000 then Err(LengthTooLarge)
    else
      var acc' := acc * 256 + bytes[offset];
      if acc' == 0 then Err(LeadingZeroLength)
      else LongLength(bytes, offset + 1, count - 1, acc')
  }

  /** The two high bits of the first identifier octet (`b >> 6`): the
      class. */
  function ClassBits(b: byte): nat
  {
    if b >= 0xC0 then 3 else if b >= 0x80 then 2 else if b >= 0x40 then 1 else 0
  }

  /** The third bit from the top (`b & 0x20 != 0`): constructed. */
  function ConstructedBit(b: byte): bool
  {
    b - 64 * ClassBits(b) >= 32
  }

  /** The five low bits (`b & 0x1f`): the tag number, or 31 when it follows
      in base 128. */
  function TagBits(b: byte): nat
  {
    b - 64 * ClassBits(b) - (if ConstructedBit(b) then 32 else 0)
  }

  /** The identifier and length octets at `offset`, and the offset of the
      first content octet. */
  function ParseTagAndLength(bytes: seq<byte>, offset: nat): (r: Result<(Header, nat)>)
    ensures r.Ok? ==> offset < r.value.1 <= |bytes|
    ensures r.Ok? ==> r.value.0.tagClass < 4 && r.value.0.length <= MaxInt32
  {
    if offset >= |bytes| then Err(TruncatedTagOrLength)
    else
      var b := bytes[offset];
      var tagClass, compound, low := ClassBits(b), ConstructedBit(b), TagBits(b);
      var t :- ParseTagNumber(bytes, offset + 1, low);
      var l :- ParseLength(bytes, t.1);
      Ok((Header(tagClass, t.0, compound, l.0), l.1))
  }

  /** The length octets at `offset`, short or long form, and the offset
      after them. */
  function ParseLength(bytes: seq<byte>, offset: nat): (r: Result<(nat, nat)>)
    ensures r.Ok? ==> offset < r.value.1 <= |bytes| && r.value.0 <= MaxInt32
  {
    if offset >= |bytes| then Err(TruncatedTagOrLength)
    else if bytes[offset] < 0x80 then Ok((bytes[offset], offset + 1))
    else if bytes[offset] == 0x80 then Err(IndefiniteLength)
    else LongLength(bytes, offset + 1, bytes[offset] - 0x80, 0)
  }

  // ---------------------------------------------------------------------
  // Whole elements
  // ---------------------------------------------------------------------

  /** Reads one element from the front of `s`, as asn1.Unmarshal does into a
      RawValue: any tagClass and tag are accepted; the element and what follows
      it are returned. */
  function ParseRawValue(s: Slice): (r: Result<(RawValue, Slice)>)
    ensures r.Ok? ==> s.data == r.value.0.fullBytes.data + r.value.1.data
    ensures r.Ok? ==> |r.value.1.data| < |s.data| && r.value.1.spare == s.spare
    ensures r.Ok? ==> r.value.0.fullBytes.spare == r.value.1.data + s.spare
    ensures r.Ok? ==> r.value.0.bytes.spare == r.value.0.fullBytes.spare
    ensures r.Ok? ==> |r.value.0.bytes.data| < |r.value.0.fullBytes.data|
    ensures r.Ok? ==> r.value.0.fullBytes.data[|r.value.0.fullBytes.data| - |r.value.0.bytes.data|..] == r.value.0.bytes.data
  {
    if |s.data| == 0 then Err(SequenceTruncated)
    else
      var hl :- ParseTagAndLength(s.data, 0);
      var h, off := hl.0, hl.1;
      if off + h.length > |s.data| then Err(DataTruncated)
      else
        var v := RawValue(h.tagClass, h.tag, h.compound, Window(s, off, off + h.length), Window(s, 0, off + h.length));
        Ok((v, Slice(s.data[off + h.length..], s.spare)))
  }

  /** Reads a field of type RawValue tagged `explicit` (tag 0) at `offset` of
      a SEQUENCE's content: the [0] wrapper must be context-specific, and
      constructed unless it is empty; it is returned unparsed, so its content
      is the element inside the wrapper. */
  function ParseExplicitRawValue(s: Slice, offset: nat): (r: Result<(RawValue, nat)>)
    requires offset <= |s.data|
    ensures r.Ok? ==> r.value.0.tagClass == ClassContextSpecific && r.value.0.tag == 0
    ensures r.Ok? ==> offset < r.value.1 <= |s.data|
  {
    if offset == |s.data| then Err(SequenceTruncated)
    else
      var hl :- ParseTagAndLength(s.data, offset);
      var h, off := hl.0, hl.1;
      if off == |s.data| then Err(ExplicitTagNoChild)
      else if !(h.tagClass == ClassContextSpecific && h.tag == 0 && (h.length == 0 || h.compound)) then
        Err(ExplicitTagMismatch)
      else if off + h.length > |s.data| then Err(DataTruncated)
      else
        var v := RawValue(h.tagClass, h.tag, h.compound, Window(s, off, off + h.length), Window(s, offset, off + h.length));
        Ok((v, off + h.length))
  }

  // ---------------------------------------------------------------------
  // Encoders, the partners of the readers
  // ---------------------------------------------------------------------

  /** The octets of base-128 digits: every digit but the last carries the
      continuation bit. */
  function Base128Octets(ds: seq<nat>): (e: seq<byte>)
    requires forall i :: 0 <= i < |ds| ==> ds[i] < 128
    ensures |e| == |ds|
  {
    if |ds| <= 1 then ds
    else [ds[0] + 128] + Base128Octets(ds[1..])
  }

  lemma {:induction false} Base128OctetsAt(ds: seq<nat>, i: nat)
    requires forall j :: 0 <= j < |ds| ==> ds[j] < 128
    requires i < |ds|
    ensures Base128Octets(ds)[i] == if i < |ds| - 1 then ds[i] + 128 else ds[i]
  {
    if |ds| > 1 && i > 0 {
      Base128OctetsAt(ds[1..], i - 1);
    }
  }

  /** Minimal base-128 encoding: big-endian digits, all but the last with the
      continuation bit set. */
  function EncodeBase128(v: nat): (e: seq<byte>)
    ensures |e| >= 1
    ensures v <= MaxInt32 ==> |e| <= 5
  {
    var ds := Digits(v, 128);
    assert v <= MaxInt32 ==> |ds| <= 5 by {
      if v <= MaxInt32 { DigitsLength(v, 128, 5); }
    }
    Base128Octets(ds)
  }

  /** Minimal definite length octets: one octet below 0x80, otherwise a count
      octet with the high bit set and the minimal big-endian base-256 digits. */
  function EncodeLength(n: nat): (e: seq<byte>)
    requires n <= MaxInt32
    ensures 1 <= |e| <= 5
  {
    if n < 0x80 then [n]
    else
      var ds := Digits(n, 256);
      DigitsLength(n, 256, 4);
      [0x80 + |ds|] + ds
  }

  function EncodeIdentifier(tagClass: nat, compound: bool, tag: nat): (e: seq<byte>)
    requires tagClass < 4
    ensures |e| >= 1
    ensures tag < 31 ==> |e| == 1
    ensures tag <= MaxInt32 ==> |e| <= 6
  {
    var first := tagClass * 64 + (if compound then 32 else 0);
    if tag < 31 then [first + tag] else [first + 31] + EncodeBase128(tag)
  }

  /** One whole element with the given identifier and content. */
  function EncodeTlv(tagClass: nat, compound: bool, tag: nat, content: seq<byte>): (e: seq<byte>)
    requires tagClass < 4 && |content| <= MaxInt32
    ensures |e| > |content|
    ensures tag < 31 ==> |e| <= |content| + 6
    ensures tag <= MaxInt32 ==> |e| <= |content| + 11
  {
    EncodeHeader(tagClass, compound, tag, |content|) + content
  }

  // ---------------------------------------------------------------------
  // Round trips
  // ---------------------------------------------------------------------

  /** `e` occurs in `bytes` at `start`. */
  predicate Occurs(bytes: seq<byte>, start: nat, e: seq<byte>)
  {
    start + |e| <= |bytes| && bytes[start..start + |e|] == e
  }

  /** Reading the base-128 octets of the digits `ds` from the `j`-th on, with
      the first `j` digits already accumulated, finishes with their value. */
  lemma {:induction false} Base128LoopDigits(bytes: seq<byte>, start: nat, ds: seq<nat>, j: nat)
    requires j < |ds| <= 5
    requires forall i :: 0 <= i < |ds| ==> ds[i] < 128
    requires |ds| > 1 ==> ds[0] != 0
    requires DigitsValue(ds, 128) <= MaxInt32
    requires start + |ds| <= |bytes|
    requires forall i :: 0 <= i < |ds| ==> bytes[start + i] == if i < |ds| - 1 then ds[i] + 128 else ds[i]
    ensures Base128Loop(bytes, start + j, j, DigitsValue(ds[..j], 128)) == Ok((DigitsValue(ds, 128), start + |ds|))
    decreases |ds| - j
  {
    var acc := DigitsValue(ds[..j], 128);
    DigitsValuePrefix(ds, 128, j);
    if j == |ds| - 1 {
      assert ds[..j + 1] == ds;
      Base128LoopLast(bytes, start + j, j, acc, ds[j]);
    } else {
      Base128LoopMore(bytes, start + j, j, acc, ds[j]);
      Base128LoopDigits(bytes, start, ds, j + 1);
    }
  }

  /** An octet with the continuation bit set adds its seven bits and goes on. */
  lemma Base128LoopMore(bytes: seq<byte>, offset: nat, shifted: nat, acc: nat, d: nat)
    requires offset < |bytes| && shifted < 5 && d < 128 && bytes[offset] == d + 128
    requires shifted == 0 ==> d != 0
    ensures Base128Loop(bytes, offset, shifted, acc) == Base128Loop(bytes, offset + 1, shifted + 1, acc * 128 + d)
  {
  }

  /** An octet without the continuation bit ends the integer. */
  lemma Base128LoopLast(bytes: seq<byte>, offset: nat, shifted: nat, acc: nat, d: nat)
    requires offset < |bytes| && shifted < 5 && d < 128 && bytes[offset] == d
    requires acc * 128 + d <= MaxInt32
    ensures Base128Loop(bytes, offset, shifted, acc) == Ok((acc * 128 + d, offset + 1))
  {
  }

  lemma ParseBase128RoundTrip(bytes: seq<byte>, start: nat, v: nat)
    requires v <= MaxInt32
    requires Occurs(bytes, start, EncodeBase128(v))
    ensures ParseBase128(bytes, start) == Ok((v, start + |EncodeBase128(v)|))
  {
    var ds := Digits(v, 128);
    DigitsLength(v, 128, 5);
    DigitsValueOfDigits(v, 128);
    var e := EncodeBase128(v);
    forall i | 0 <= i < |ds|
      ensures bytes[start + i] == if i < |ds| - 1 then ds[i] + 128 else ds[i]
    {
      assert bytes[start + i] == bytes[start..start + |e|][i] == e[i];
      Base128OctetsAt(ds, i);
    }
    assert ds[..0] == [];
    Base128LoopDigits(bytes, start, ds, 0);
  }

  lemma {:induction false} LongLengthDigits(bytes: seq<byte>, start: nat, ds: seq<nat>, j: nat)
    requires 0 < |ds| && j <= |ds| && ds[0] != 0
    requires forall i :: 0 <= i < |ds| ==> ds[i] < 256
    requires 0x80 <= DigitsValue(ds, 256) <= MaxInt32
    requires start + |ds| <= |bytes|
    requires forall i :: 0 <= i < |ds| ==> bytes[start + i] == ds[i]
    ensures DigitsValue(ds[..j], 256) <= MaxInt32
    ensures LongLength(bytes, start + j, |ds| - j, DigitsValue(ds[..j], 256))
            == Ok((DigitsValue(ds, 256), start + |ds|))
    decreases |ds| - j
  {
    DigitsValueMonotone(ds, 256, j, |ds|);
    assert ds[..|ds|] == ds;
    if j < |ds| {
      DigitsValuePrefix(ds, 256, j);
      DigitsValueMonotone(ds, 256, j + 1, |ds|);
      DigitsValueMonotone(ds, 256, 1, j + 1);
      DigitsValuePrefix(ds, 256, 0);
      LongLengthDigits(bytes, start, ds, j + 1);
    }
  }

  /** Both halves of a concatenation occur in it. */
  lemma OccursConcat(a: seq<byte>, b: seq<byte>)
    ensures Occurs(a + b, 0, a) && Occurs(a + b, |a|, b)
  {
    assert Occurs(a + b, 0, a + b);
    OccursSplit(a + b, 0, a, b);
  }

  lemma {:induction false} OccursSplit(bytes: seq<byte>, start: nat, a: seq<byte>, b: seq<byte>)
    requires Occurs(bytes, start, a + b)
    ensures Occurs(bytes, start, a) && Occurs(bytes, start + |a|, b)
  {
    forall i | 0 <= i < |a| ensures bytes[start + i] == a[i] {
      assert (a + b)[i] == a[i];
    }
    forall i | 0 <= i < |b| ensures bytes[start + |a| + i] == b[i] {
      assert (a + b)[|a| + i] == b[i];
    }
  }

  /** Reading encoded identifier octets gives back the class, the
      constructed bit and the tag number. */
  lemma IdentifierRoundTrip(bytes: seq<byte>, start: nat, tagClass: nat, compound: bool, tag: nat)
    requires tagClass < 4 && tag <= MaxInt32
    requires Occurs(bytes, start, EncodeIdentifier(tagClass, compound, tag))
    ensures ClassBits(bytes[start]) == tagClass && ConstructedBit(bytes[start]) == compound
    ensures ParseTagNumber(bytes, start + 1, TagBits(bytes[start]))
            == Ok((tag, start + |EncodeIdentifier(tagClass, compound, tag)|))
  {
    var id := EncodeIdentifier(tagClass, compound, tag);
    var low := if tag < 31 then tag else 31;
    assert bytes[start] == bytes[start..start + |id|][0] == id[0];
    if tag >= 31 {
      OccursSplit(bytes, start, [id[0]], EncodeBase128(tag));
      ParseBase128RoundTrip(bytes, start + 1, tag);
    }
  }

  /** The class, constructed bit and tag bits are Go's `b >> 6`,
      `b & 0x20 != 0` and `b & 0x1f`. */
  lemma IdentifierOctetBits(b: byte)
    ensures ClassBits(b) == b / 64
    ensures ConstructedBit(b) <==> (b / 32) % 2 == 1
    ensures TagBits(b) == b % 32
    ensures b == 64 * ClassBits(b) + (if ConstructedBit(b) then 32 else 0) + TagBits(b)
  {
  }

  /** Reading encoded length octets gives back the length. */
  lemma ParseLengthRoundTrip(bytes: seq<byte>, start: nat, n: nat)
    requires n <= MaxInt32
    requires Occurs(bytes, start, EncodeLength(n))
    ensures ParseLength(bytes, start) == Ok((n, start + |EncodeLength(n)|))
  {
    if n < 0x80 {
      assert EncodeLength(n) == [n];
      assert bytes[start] == EncodeLength(n)[0];
    } else {
      ParseLongLengthRoundTrip(bytes, start, n);
    }
  }

  /** The long form: a count octet, then the minimal base-256 digits. */
  lemma ParseLongLengthRoundTrip(bytes: seq<byte>, start: nat, n: nat)
    requires 0x80 <= n <= MaxInt32
    requires Occurs(bytes, start, EncodeLength(n))
    ensures ParseLength(bytes, start) == Ok((n, start + |EncodeLength(n)|))
  {
    var ds := LongLengthOctets(n);
    LongLengthDigits(bytes, start + 1, ds, 0);
    assert ds[..0] == [];
    assert LongLength(bytes, start + 1, |ds|, 0) == Ok((n, start + 1 + |ds|));
    assert bytes[start] == EncodeLength(n)[0];
  }

  /** The long-form length octets of `n` are a count and then digits that
      read back as `n`. */
  lemma LongLengthOctets(n: nat) returns (ds: seq<nat>)
    requires 0x80 <= n <= MaxInt32
    ensures 0 < |ds| <= 4 && ds[0] != 0 && DigitsValue(ds, 256) == n
    ensures forall i :: 0 <= i < |ds| ==> ds[i] < 256
    ensures |EncodeLength(n)| == 1 + |ds| && EncodeLength(n)[0] == 0x80 + |ds|
    ensures forall i :: 0 <= i < |ds| ==> EncodeLength(n)[1 + i] == ds[i]
  {
    ds := Digits(n, 256);
    DigitsValueOfDigits(n, 256);
    DigitsLength(n, 256, 4);
  }

  /** Reading encoded identifier and length octets gives back the header. */
  lemma ParseTagAndLengthRoundTrip(bytes: seq<byte>, start: nat, tagClass: nat, compound: bool, tag: nat, n: nat)
    requires tagClass < 4 && tag <= MaxInt32 && n <= MaxInt32
    requires Occurs(bytes, start, EncodeHeader(tagClass, compound, tag, n))
    ensures ParseTagAndLength(bytes, start)
            == Ok((Header(tagClass, tag, compound, n), start + |EncodeHeader(tagClass, compound, tag, n)|))
  {
    OccursSplit(bytes, start, EncodeIdentifier(tagClass, compound, tag), EncodeLength(n));
    IdentifierRoundTrip(bytes, start, tagClass, compound, tag);
    ParseLengthRoundTrip(bytes, start + |EncodeIdentifier(tagClass, compound, tag)|, n);
  }

  /** The identifier and length octets of an encoded element. */
  function EncodeHeader(tagClass: nat, compound: bool, tag: nat, n: nat): seq<byte>
    requires tagClass < 4 && n <= MaxInt32
  {
    EncodeIdentifier(tagClass, compound, tag) + EncodeLength(n)
  }

  /** An encoded element found at `start` of a larger buffer reads back
      as its header, and its content starts where the header ends. */
  lemma ParseTlvAt(bytes: seq<byte>, start: nat, tagClass: nat, compound: bool, tag: nat, content: seq<byte>, off: nat)
    requires tagClass < 4 && tag <= MaxInt32 && |content| <= MaxInt32
    requires Occurs(bytes, start, EncodeTlv(tagClass, compound, tag, content))
    requires off == start + |EncodeHeader(tagClass, compound, tag, |content|)|
    ensures ParseTagAndLength(bytes, start) == Ok((Header(tagClass, tag, compound, |content|), off))
  {
    assert Occurs(bytes, start, EncodeHeader(tagClass, compound, tag, |content|)) by {
      OccursHeader(bytes, start, tagClass, compound, tag, content);
    }
    ParseTagAndLengthRoundTrip(bytes, start, tagClass, compound, tag, |content|);
  }

  /** The identifier and length octets of an encoded element come first. */
  lemma OccursHeader(bytes: seq<byte>, start: nat, tagClass: nat, compound: bool, tag: nat, content: seq<byte>)
    requires tagClass < 4 && |content| <= MaxInt32
    requires Occurs(bytes, start, EncodeTlv(tagClass, compound, tag, content))
    ensures Occurs(bytes, start, EncodeHeader(tagClass, compound, tag, |content|))
  {
    OccursSplit(bytes, start, EncodeHeader(tagClass, compound, tag, |content|), content);
  }

  /** An encoded element on its own, with `following` behind it: its
      identifier and length octets read back, and the window after them is
      its content. */
  lemma ParseTlvWhole(tagClass: nat, compound: bool, tag: nat, content: seq<byte>, following: seq<byte>)
    requires tagClass < 4 && tag <= MaxInt32 && |content| <= MaxInt32
    ensures var e, off := EncodeTlv(tagClass, compound, tag, content), |EncodeHeader(tagClass, compound, tag, |content|)|;
            && ParseTagAndLength(e, 0) == Ok((Header(tagClass, tag, compound, |content|), off))
            && off + |content| == |e|
            && Window(Slice(e, following), off, off + |content|) == Slice(content, following)
  {
    var e := EncodeTlv(tagClass, compound, tag, content);
    var hdr := EncodeHeader(tagClass, compound, tag, |content|);
    assert Occurs(e, 0, e) by { assert e[0..|e|] == e; }
    ParseTlvAt(e, 0, tagClass, compound, tag, content, |hdr|);
    assert e[|hdr|..|e|] == content;
    assert e[|e|..] + following == following;
  }

  /** An encoded [0] wrapper that is not empty, found at `start` of a
      SEQUENCE's content, reads back as an explicit field: the wrapper whole
      and its content, and the offset after it. */
  lemma ParseExplicitRawValueAt(s: Slice, start: nat, inner: seq<byte>, off: nat)
    requires 0 < |inner| <= MaxInt32
    requires Occurs(s.data, start, EncodeTlv(ClassContextSpecific, true, 0, inner))
    requires off == start + |EncodeHeader(ClassContextSpecific, true, 0, |inner|)|
    ensures off + |inner| == start + |EncodeTlv(ClassContextSpecific, true, 0, inner)|
    ensures ParseExplicitRawValue(s, start)
            == Ok((RawValue(ClassContextSpecific, 0, true, Window(s, off, off + |inner|), Window(s, start, off + |inner|)), off + |inner|))
  {
    OccursSplit(s.data, start, EncodeHeader(ClassContextSpecific, true, 0, |inner|), inner);
    ParseTlvAt(s.data, start, ClassContextSpecific, true, 0, inner, off);
    ParseExplicitRawValueHeader(s, start, off, |inner|);
  }

  /** A non-empty [0] wrapper that ends its buffer, after any `prefix`,
      reads back as an explicit field: the wrapper whole and its content. */
  lemma ParseExplicitRawValueAfter(prefix: seq<byte>, inner: seq<byte>, following: seq<byte>)
    requires 0 < |inner| <= MaxInt32
    ensures var w := EncodeTlv(ClassContextSpecific, true, 0, inner);
            ParseExplicitRawValue(Slice(prefix + w, following), |prefix|)
            == Ok((RawValue(ClassContextSpecific, 0, true, Slice(inner, following), Slice(w, following)), |prefix + w|))
  {
    var w := EncodeTlv(ClassContextSpecific, true, 0, inner);
    var data := prefix + w;
    var s := Slice(data, following);
    var start := |prefix|;
    var off := start + |EncodeHeader(ClassContextSpecific, true, 0, |inner|)|;
    var end := off + |inner|;
    OccursConcat(prefix, w);
    ParseExplicitRawValueAt(s, start, inner, off);
    assert end == |data|;
    assert data[end..] + following == following;
    assert Window(s, start, end) == Slice(w, following) by {
      assert data[start..end] == w;
    }
    assert Window(s, off, end) == Slice(inner, following) by {
      assert data[off..end] == inner;
    }
  }

  /** A non-empty, constructed [0] header at `start` whose content fits is
      read as an explicit field. */
  lemma ParseExplicitRawValueHeader(s: Slice, start: nat, off: nat, len: nat)
    requires start < |s.data| && 0 < len && off + len <= |s.data|
    requires ParseTagAndLength(s.data, start) == Ok((Header(ClassContextSpecific, 0, true, len), off))
    ensures ParseExplicitRawValue(s, start)
            == Ok((RawValue(ClassContextSpecific, 0, true, Window(s, off, off + len), Window(s, start, off + len)), off + len))
  {
  }

  /** An encoded element followed by `rest` in a slice with `spare` behind it
      reads as the element, whose content is `content`. */
  lemma ParseRawValueAt(bytes: seq<byte>, spare: seq<byte>, tagClass: nat, compound: bool, tag: nat, content: seq<byte>, off: nat, end: nat)
    requires bytes != []
    requires ParseTagAndLength(bytes, 0) == Ok((Header(tagClass, tag, compound, |content|), off))
    requires end == off + |content| <= |bytes|
    ensures ParseRawValue(Slice(bytes, spare))
            == Ok((RawValue(tagClass, tag, compound, Window(Slice(bytes, spare), off, end), Window(Slice(bytes, spare), 0, end)),
                   Slice(bytes[end..], spare)))
  {
  }

  /** Reading an encoded element gives back its identifier and content, and
      leaves what followed it. */
  lemma ParseRawValueRoundTrip(tagClass: nat, compound: bool, tag: nat, content: seq<byte>, rest: seq<byte>, spare: seq<byte>)
    requires tagClass < 4 && tag <= MaxInt32 && |content| <= MaxInt32
    ensures ParseRawValue(Slice(EncodeTlv(tagClass, compound, tag, content) + rest, spare))
            == Ok((RawValue(tagClass, tag, compound, Slice(content, rest + spare),
                            Slice(EncodeTlv(tagClass, compound, tag, content), rest + spare)),
                   Slice(rest, spare)))
  {
    var e := EncodeTlv(tagClass, compound, tag, content);
    var bytes := e + rest;
    var off := |EncodeHeader(tagClass, compound, tag, |content|)|;
    assert Occurs(bytes, 0, e) by { assert bytes[0..|e|] == e; }
    ParseTlvAt(bytes, 0, tagClass, compound, tag, content, off);
    ParseRawValueAt(bytes, spare, tagClass, compound, tag, content, off, |e|);
    assert bytes[off..|e|] == content;
    assert bytes[|e|..] == rest;
    assert bytes[0..|e|] == e;
  }


  // ---------------------------------------------------------------------
  // Canonical forms: whatever the readers accept is the encoding
  // ---------------------------------------------------------------------

  /** Digits in base `base` whose first is not 0, unless there is only one,
      are the minimal digits of their value. */
  lemma {:induction false} DigitsOfValue(ds: seq<nat>, base: nat)
    requires base >= 2 && |ds| >= 1
    requires forall i :: 0 <= i < |ds| ==> ds[i] < base
    requires |ds| > 1 ==> ds[0] != 0
    ensures Digits(DigitsValue(ds, base), base) == ds
    decreases |ds|
  {
    var init, d := ds[..|ds| - 1], ds[|ds| - 1];
    assert ds == init + [d];
    if |ds| == 1 {
      assert init == [];
      DigitsValueSnoc(init, d, base);
    } else {
      DigitsOfValue(init, base);
      DigitsOfValueStep(init, d, base);
    }
  }

  /** Minimal digits stay minimal when a digit is added after them. */
  lemma DigitsOfValueStep(init: seq<nat>, d: nat, base: nat)
    requires base >= 2 && |init| >= 1 && init[0] != 0 && d < base
    requires Digits(DigitsValue(init, base), base) == init
    ensures Digits(DigitsValue(init + [d], base), base) == init + [d]
  {
    DigitsValueSnoc(init, d, base);
    DigitsValuePositive(init, base);
    DigitsStep(DigitsValue(init, base), d, base);
  }

  /** One more digit multiplies the value by the base and adds the digit. */
  lemma DigitsValueSnoc(init: seq<nat>, d: nat, base: nat)
    ensures DigitsValue(init + [d], base) == DigitsValue(init, base) * base + d
  {
    assert (init + [d])[..|init|] == init;
  }

  /** The minimal digits of `q * base + d` are those of `q` and then `d`. */
  lemma DigitsStep(q: nat, d: nat, base: nat)
    requires base >= 2 && 1 <= q && d < base
    ensures Digits(q * base + d, base) == Digits(q, base) + [d]
  {
    MulAtLeast(q, base);
    DivModOf(q, d, base);
  }

  /** Digits whose first is not 0 are worth at least 1. */
  lemma DigitsValuePositive(ds: seq<nat>, base: nat)
    requires base >= 1 && |ds| >= 1 && ds[0] != 0
    ensures DigitsValue(ds, base) >= 1
  {
    DigitsValuePrefix(ds, base, 0);
    assert ds[..0] == [];
    DigitsValueMonotone(ds, base, 1, |ds|);
    assert ds[..|ds|] == ds;
  }

  lemma DivModOf(q: nat, d: nat, base: nat)
    requires base >= 2 && d < base
    ensures (q * base + d) / base == q && (q * base + d) % base == d
  {
    var x := q * base + d;
    var q', d' := x / base, x % base;
    assert q' * base + d' == x;
    assert (q' - q) * base == d - d';
    MulBounded(q' - q, base);
  }

  /** A multiple of `base` strictly between -base and base is 0. */
  lemma MulBounded(k: int, base: nat)
    requires base >= 1 && -(base as int) < k * base < base
    ensures k == 0
  {
    if k >= 1 {
      MulAtLeast(k, base);
    } else if k <= -1 {
      MulAtLeast(-k, base);
    }
  }

  lemma MulAtLeast(k: int, base: nat)
    requires k >= 1
    ensures k * base >= base
  {
  }

  /** The seven low bits of each octet. */
  function Low7s(octets: seq<byte>): (ds: seq<nat>)
    ensures |ds| == |octets|
    ensures forall i :: 0 <= i < |octets| ==> ds[i] == Low7(octets[i]) < 128
  {
    seq(|octets|, i requires 0 <= i < |octets| => Low7(octets[i]))
  }

  /** The base-128 loop, once it has read `j` octets from `start`, finishes
      with the value of the seven-bit digits of all the octets it reads. */
  lemma {:induction false} Base128LoopValue(bytes: seq<byte>, start: nat, j: nat, acc: nat, v: nat, end: nat)
    requires j <= 5 && Base128Loop(bytes, start + j, j, acc) == Ok((v, end))
    requires acc == DigitsValue(Low7s(bytes[start..end])[..j], 128)
    ensures v == DigitsValue(Low7s(bytes[start..end]), 128)
    decreases end - start - j
  {
    var ds := Low7s(bytes[start..end]);
    assert j < 5 && start + j < end;
    var acc' := acc * 128 + Low7(bytes[start + j]);
    assert ds[j] == Low7(bytes[start + j]);
    DigitsValuePrefix(ds, 128, j);
    if bytes[start + j] < 0x80 {
      assert v == acc' && end == start + j + 1;
      assert ds[..j + 1] == ds;
    } else {
      assert Base128Loop(bytes, start + j + 1, j + 1, acc') == Ok((v, end));
      Base128LoopValue(bytes, start, j + 1, acc', v, end);
    }
  }

  /** Every octet the base-128 loop reads but the last carries the
      continuation bit. */
  lemma {:induction false} Base128LoopContinues(bytes: seq<byte>, offset: nat, shifted: nat, acc: nat, v: nat, end: nat)
    requires Base128Loop(bytes, offset, shifted, acc) == Ok((v, end))
    ensures forall i :: offset <= i < end - 1 ==> bytes[i] >= 0x80
    decreases end - offset
  {
    if bytes[offset] >= 0x80 {
      Base128LoopContinues(bytes, offset + 1, shifted + 1, acc * 128 + Low7(bytes[offset]), v, end);
    }
  }

  /** Canonical base-128: an integer the reader accepts was written in its
      minimal encoding, so no other octets read as the same value. */
  lemma ParseBase128Canonical(bytes: seq<byte>, start: nat, v: nat, end: nat)
    requires ParseBase128(bytes, start) == Ok((v, end))
    ensures end == start + |EncodeBase128(v)| && Occurs(bytes, start, EncodeBase128(v))
  {
    assert bytes[start] != 0x80;
    assert Low7s(bytes[start..end])[..0] == [];
    Base128LoopValue(bytes, start, 0, 0, v, end);
    Base128LoopContinues(bytes, start, 0, 0, v, end);
    Base128Encoded(bytes[start..end], v);
  }

  /** Octets that all carry the continuation bit but the last, and whose
      first is not 0x80, are the base-128 encoding of their digits' value. */
  lemma Base128Encoded(octets: seq<byte>, v: nat)
    requires |octets| >= 1 && octets[|octets| - 1] < 0x80 && octets[0] != 0x80
    requires forall i :: 0 <= i < |octets| - 1 ==> octets[i] >= 0x80
    requires v == DigitsValue(Low7s(octets), 128)
    ensures EncodeBase128(v) == octets
  {
    var ds := Low7s(octets);
    DigitsOfValue(ds, 128);
    forall i | 0 <= i < |ds|
      ensures Base128Octets(ds)[i] == octets[i]
    {
      Base128OctetsAt(ds, i);
    }
  }

  /** The octets as base-256 digits. */
  function OctetDigits(octets: seq<byte>): (ds: seq<nat>)
    ensures |ds| == |octets|
    ensures forall i :: 0 <= i < |octets| ==> ds[i] == octets[i] < 256
  {
    seq(|octets|, i requires 0 <= i < |octets| => octets[i] as nat)
  }

  /** The long-form loop, once it has read `j` of its `count` octets at
      `start`, finishes with the value of all `count` base-256 digits, the
      first of which is not 0. */
  lemma {:induction false} LongLengthReads(bytes: seq<byte>, start: nat, j: nat, count: nat, acc: nat, n: nat, end: nat)
    requires j <= count && start + j <= |bytes| && acc <= MaxInt32
    requires LongLength(bytes, start + j, count - j, acc) == Ok((n, end))
    requires acc == DigitsValue(OctetDigits(bytes[start..end])[..j], 256)
    requires j > 0 ==> bytes[start] != 0
    ensures n == DigitsValue(OctetDigits(bytes[start..end]), 256)
    ensures count > 0 ==> bytes[start] != 0
    decreases count - j
  {
    var ds := OctetDigits(bytes[start..end]);
    if j < count {
      assert ds[j] == bytes[start + j];
      DigitsValuePrefix(ds, 256, j);
      LongLengthReads(bytes, start, j + 1, count, acc * 256 + bytes[start + j], n, end);
    } else {
      assert ds[..j] == ds;
    }
  }

  /** Canonical lengths: a length the reader accepts was written in its
      minimal definite form, short below 0x80 and otherwise with no leading
      zero octet. */
  lemma ParseLengthCanonical(bytes: seq<byte>, start: nat, n: nat, end: nat)
    requires ParseLength(bytes, start) == Ok((n, end))
    ensures end == start + |EncodeLength(n)| && Occurs(bytes, start, EncodeLength(n))
  {
    if bytes[start] >= 0x80 {
      LongLengthCanonical(bytes, start, bytes[start] - 0x80, n, end);
    } else {
      assert bytes[start..end] == [n];
    }
  }

  /** The long form: the count octet, then the minimal base-256 digits. */
  lemma LongLengthCanonical(bytes: seq<byte>, start: nat, count: nat, n: nat, end: nat)
    requires start < |bytes| && bytes[start] == 0x80 + count
    requires ParseLength(bytes, start) == Ok((n, end))
    ensures end == start + |EncodeLength(n)| && Occurs(bytes, start, EncodeLength(n))
  {
    assert 1 <= count && LongLength(bytes, start + 1, count, 0) == Ok((n, end));
    var ds := OctetDigits(bytes[start + 1..end]);
    assert ds[..0] == [];
    LongLengthReads(bytes, start + 1, 0, count, 0, n, end);
    LongLengthEncoded(bytes, start, n, end, ds);
  }

  /** A count octet followed by minimal base-256 digits is the long-form
      encoding of their value. */
  lemma LongLengthEncoded(bytes: seq<byte>, start: nat, n: nat, end: nat, ds: seq<nat>)
    requires start + 1 < end <= |bytes|
    requires bytes[start] == 0x80 + (end - start - 1)
    requires ds == OctetDigits(bytes[start + 1..end]) && ds[0] != 0
    requires 0x80 <= n <= MaxInt32 && n == DigitsValue(ds, 256)
    ensures end == start + |EncodeLength(n)| && Occurs(bytes, start, EncodeLength(n))
  {
    EncodeLengthOfDigits(ds);
    assert bytes[start + 1..end] == ds;
    assert bytes[start..end] == [bytes[start]] + bytes[start + 1..end];
  }

  /** The long form of a value is its count octet and its digits. */
  lemma EncodeLengthOfDigits(ds: seq<nat>)
    requires |ds| >= 1 && ds[0] != 0
    requires forall i :: 0 <= i < |ds| ==> ds[i] < 256
    requires 0x80 <= DigitsValue(ds, 256) <= MaxInt32
    ensures EncodeLength(DigitsValue(ds, 256)) == [0x80 + |ds|] + ds
  {
    DigitsOfValue(ds, 256);
  }

  /** Both parts occur together when the second follows the first. */
  lemma OccursJoin(bytes: seq<byte>, start: nat, a: seq<byte>, b: seq<byte>)
    requires Occurs(bytes, start, a) && Occurs(bytes, start + |a|, b)
    ensures Occurs(bytes, start, a + b)
  {
    assert bytes[start..start + |a| + |b|] == bytes[start..start + |a|] + bytes[start + |a|..start + |a| + |b|];
  }

  /** Canonical identifiers: identifier octets the reader accepts are the
      encoding of the class, form and tag number they read as; a tag below
      31 is never written in the high form. */
  lemma ParseTagNumberCanonical(bytes: seq<byte>, start: nat, tag: nat, end: nat)
    requires start < |bytes|
    requires ParseTagNumber(bytes, start + 1, TagBits(bytes[start])) == Ok((tag, end))
    ensures var id := EncodeIdentifier(ClassBits(bytes[start]), ConstructedBit(bytes[start]), tag);
            end == start + |id| && Occurs(bytes, start, id)
  {
    var b := bytes[start];
    var id := EncodeIdentifier(ClassBits(b), ConstructedBit(b), tag);
    IdentifierOctetBits(b);
    if TagBits(b) == 31 {
      ParseBase128Canonical(bytes, start + 1, tag, end);
      assert bytes[start..start + 1] == [b];
      OccursJoin(bytes, start, [b], EncodeBase128(tag));
    } else {
      assert bytes[start..start + 1] == [b];
    }
  }

  /** Canonical headers: identifier and length octets the reader accepts are
      the one encoding of the header they read as. */
  lemma ParseTagAndLengthCanonical(bytes: seq<byte>, start: nat, h: Header, end: nat)
    requires ParseTagAndLength(bytes, start) == Ok((h, end))
    ensures end == start + |EncodeHeader(h.tagClass, h.compound, h.tag, h.length)|
    ensures Occurs(bytes, start, EncodeHeader(h.tagClass, h.compound, h.tag, h.length))
  {
    var b := bytes[start];
    var t := ParseTagNumber(bytes, start + 1, TagBits(b)).value;
    ParseTagNumberCanonical(bytes, start, t.0, t.1);
    ParseLengthCanonical(bytes, t.1, h.length, end);
    OccursJoin(bytes, start, EncodeIdentifier(h.tagClass, h.compound, h.tag), EncodeLength(h.length));
  }
}
