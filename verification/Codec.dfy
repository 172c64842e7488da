/**
 What the write policies put into the backing store: the value itself, or, when it has a
 deadline, a prefixed JSON envelope with the deadline in nanoseconds and the value in base64.
 */
module Codec {
  import opened Basics
  import Base64

  datatype Envelope = Envelope(nano: int, text: Bytes)

  /**
   The JSON library on payloads that are not in the form the encoder writes: other spellings, and
   strings with escapes, control bytes or anything else outside the base64 alphabet. The source
   takes whatever the library makes of them, so nothing is assumed about it.
   */
  type OtherJson = Bytes -> Option<Envelope>

  datatype Decoded = Decoded(value: Bytes, deadline: Deadline) | Corrupt

  function Ascii(s: string): Bytes {
    if s == "" then [] else [(s[0] as int % 256) as Byte] + Ascii(s[1..])
  }

  const PREFIX := Ascii("__cache_engine_ttl_v1__:")
  const HEAD := Ascii("{\"expiresAtUnixNano\":")
  const MIDDLE := Ascii(",\"value\":\"")
  const TAIL := Ascii("\"}")

  predicate Int64(t: int) {
    -0x8000_0000_0000_0000 <= t < 0x8000_0000_0000_0000
  }

  /** An instant as a signed 64-bit number of nanoseconds. */
  function Wrap64(t: int): int {
    (t + 0x8000_0000_0000_0000) % 0x1_0000_0000_0000_0000 - 0x8000_0000_0000_0000
  }

  // ---------- decimal numbers ----------

  function DecimalNat(n: nat): Bytes {
    if n < 10 then [(48 + n) as Byte] else DecimalNat(n / 10) + [(48 + n % 10) as Byte]
  }

  function Decimal(n: int): Bytes {
    if n < 0 then [45] + DecimalNat(-n) else DecimalNat(n)
  }

  function ParseNat(s: Bytes): int {
    if s == [] then 0 else 10 * ParseNat(s[..|s| - 1]) + s[|s| - 1] as int - 48
  }

  function ParseInt(s: Bytes): int {
    if s != [] && s[0] == 45 then -ParseNat(s[1..]) else ParseNat(s)
  }

  predicate Numeric(b: Byte) {
    48 <= b <= 57 || b == 45
  }

  lemma {:induction false} DecimalNatRoundTrip(n: nat)
    ensures ParseNat(DecimalNat(n)) == n
    ensures DecimalNat(n) != [] && forall i :: 0 <= i < |DecimalNat(n)| ==> 48 <= DecimalNat(n)[i] <= 57
  {
    if n >= 10 {
      DecimalNatRoundTrip(n / 10);
      assert DecimalNat(n)[..|DecimalNat(n)| - 1] == DecimalNat(n / 10);
    }
  }

  lemma DecimalRoundTrip(n: int)
    ensures ParseInt(Decimal(n)) == n
    ensures forall i :: 0 <= i < |Decimal(n)| ==> Numeric(Decimal(n)[i])
  {
    if n < 0 {
      DecimalNatRoundTrip(-n);
      assert Decimal(n)[1..] == DecimalNat(-n);
    } else {
      DecimalNatRoundTrip(n);
    }
  }

  // ---------- the envelope ----------

  function Render(e: Envelope): Bytes {
    HEAD + Decimal(e.nano) + MIDDLE + e.text + TAIL
  }

  /** How many leading bytes may belong to a number. */
  function NumberEnd(s: Bytes): (n: nat)
    ensures n <= |s|
  {
    if s != [] && Numeric(s[0]) then 1 + NumberEnd(s[1..]) else 0
  }

  /** How many leading bytes come before a quotation mark. */
  function StringEnd(s: Bytes): (n: nat)
    ensures n <= |s|
  {
    if s != [] && s[0] != 34 then 1 + StringEnd(s[1..]) else 0
  }

  /** The fields of a payload read where the encoder puts them. */
  function Fields(payload: Bytes): Envelope {
    var afterHead := Drop(payload, |HEAD|);
    var n := NumberEnd(afterHead);
    var afterMiddle := Drop(afterHead[n..], |MIDDLE|);
    Envelope(ParseInt(afterHead[..n]), afterMiddle[..StringEnd(afterMiddle)])
  }

  function Drop(s: Bytes, n: nat): Bytes {
    if n <= |s| then s[n..] else []
  }

  /**
   A payload is canonical when it has the form the encoder writes for its own fields, with a string
   of base64 bytes, which JSON reads verbatim.
   */
  predicate Canonical(payload: Bytes) {
    var e := Fields(payload);
    Int64(e.nano) && Base64.Plain(e.text) && Render(e) == payload
  }

  function Unmarshal(payload: Bytes, other: OtherJson): Option<Envelope> {
    if Canonical(payload) then Some(Fields(payload)) else other(payload)
  }

  function Encode(value: Bytes, d: Deadline): Bytes {
    match d
    case Never => value
    case At(t) => PREFIX + Render(Envelope(Wrap64(t), Base64.Encode(value)))
  }

  function Decode(raw: Bytes, other: OtherJson): Decoded {
    if !(PREFIX <= raw) then Decoded(raw, Never)
    else match Unmarshal(raw[|PREFIX|..], other)
      case None => Decoded(raw, Never)
      case Some(e) =>
        match Base64.Decode(e.text)
        case None => Corrupt
        case Some(v) => Decoded(v, At(e.nano))
  }

  /** The remaining time to live at `now`, and whether the store regards the entry as expired. */
  function TtlFromExpiry(d: Deadline, now: int): (int, bool) {
    match d
    case Never => (0, false)
    case At(t) => if t - now <= 0 then (0, true) else (t - now, false)
  }

  // ---------- round trip ----------

  lemma {:induction false} NumberEndAt(a: Bytes, b: Bytes)
    requires forall i :: 0 <= i < |a| ==> Numeric(a[i])
    requires b != [] && !Numeric(b[0])
    ensures NumberEnd(a + b) == |a|
  {
    if a == [] {
      assert a + b == b;
    } else {
      assert (a + b)[1..] == a[1..] + b;
      NumberEndAt(a[1..], b);
    }
  }

  lemma {:induction false} StringEndAt(a: Bytes, b: Bytes)
    requires forall i :: 0 <= i < |a| ==> a[i] != 34
    requires b != [] && b[0] == 34
    ensures StringEnd(a + b) == |a|
  {
    if a == [] {
      assert a + b == b;
    } else {
      assert (a + b)[1..] == a[1..] + b;
      StringEndAt(a[1..], b);
    }
  }

  /** Reading back the fields of a rendered envelope, whatever its number and quote-free text. */
  lemma FieldsOfRender(e: Envelope)
    requires forall i :: 0 <= i < |e.text| ==> e.text[i] != 34
    ensures Fields(Render(e)) == e
  {
    hide Ascii, ParseInt, Decimal, NumberEnd, StringEnd;
    DecimalRoundTrip(e.nano);
    Literals();
    var afterHead := Decimal(e.nano) + (MIDDLE + e.text + TAIL);
    assert Render(e) == HEAD + afterHead;
    assert Drop(Render(e), |HEAD|) == afterHead;
    NumberEndAt(Decimal(e.nano), MIDDLE + e.text + TAIL);
    var n := NumberEnd(afterHead);
    assert afterHead[..n] == Decimal(e.nano) && afterHead[n..] == MIDDLE + e.text + TAIL;
    assert MIDDLE + e.text + TAIL == MIDDLE + (e.text + TAIL);
    assert Drop(afterHead[n..], |MIDDLE|) == e.text + TAIL;
    StringEndAt(e.text, TAIL);
    assert (e.text + TAIL)[..|e.text|] == e.text;
  }

  lemma Literals()
    ensures MIDDLE != [] && !Numeric(MIDDLE[0])
    ensures TAIL != [] && TAIL[0] == 34
  {
  }

  /** An envelope is read verbatim exactly when its text is base64; any other text is the library's to judge. */
  lemma CanonicalExactly(e: Envelope, other: OtherJson)
    requires forall i :: 0 <= i < |e.text| ==> e.text[i] != 34
    ensures Canonical(Render(e)) <==> Int64(e.nano) && Base64.Plain(e.text)
    ensures Unmarshal(Render(e), other) == if Int64(e.nano) && Base64.Plain(e.text) then Some(e) else other(Render(e))
  {
    hide Ascii, Render, Fields;
    FieldsOfRender(e);
  }

  lemma WrapInRange(t: int)
    ensures Int64(Wrap64(t)) && (t - Wrap64(t)) % 0x1_0000_0000_0000_0000 == 0
    ensures Wrap64(t) == t <==> Int64(t)
  {
  }

  /** Decoding an envelope gives back the value and the 64-bit deadline, whatever the JSON library does elsewhere. */
  lemma EnvelopeRoundTrip(value: Bytes, t: int, other: OtherJson)
    ensures Decode(Encode(value, At(t)), other) == Decoded(value, At(Wrap64(t)))
  {
    hide Ascii, Render, Fields, Base64.Decode, Base64.Encode, Wrap64;
    var e := Envelope(Wrap64(t), Base64.Encode(value));
    WrapInRange(t);
    Base64.EncodeIsPlain(value);
    Base64.RoundTrip(value);
    FieldsOfRender(e);
    var raw := PREFIX + Render(e);
    assert raw[|PREFIX|..] == Render(e);
  }

  /** When a value survives the store: the deadline fits in 64 bits, and a bare value is not read as an envelope. */
  predicate Storable(value: Bytes, d: Deadline, other: OtherJson) {
    match d
    case Never => PREFIX <= value ==> Unmarshal(value[|PREFIX|..], other).None?
    case At(t) => Int64(t)
  }

  /** The round trip holds exactly for the storable values. */
  lemma RoundTripExactly(value: Bytes, d: Deadline, other: OtherJson)
    ensures Decode(Encode(value, d), other) == Decoded(value, d) <==> Storable(value, d, other)
  {
    hide Ascii, Unmarshal, Render, Base64.Decode, Base64.Encode, Wrap64;
    match d {
      case Never =>
      case At(t) =>
        EnvelopeRoundTrip(value, t, other);
        WrapInRange(t);
    }
  }

  /** The failing family: any stored envelope, written again as a bare value, is read as what it wraps. */
  lemma EnvelopeAsValueIsMisread(inside: Bytes, t: int, other: OtherJson)
    ensures !Storable(Encode(inside, At(t)), Never, other)
    ensures Decode(Encode(Encode(inside, At(t)), Never), other) == Decoded(inside, At(Wrap64(t)))
  {
    hide Ascii, Unmarshal, Render, Base64.Decode, Base64.Encode, Wrap64, Storable;
    EnvelopeRoundTrip(inside, t, other);
    RoundTripExactly(Encode(inside, At(t)), Never, other);
  }

  lemma {:induction false} AsciiJoin(a: string, b: string)
    ensures Ascii(a + b) == Ascii(a) + Ascii(b)
  {
    if a == "" {
      assert a + b == b;
    } else {
      assert (a + b)[1..] == a[1..] + b;
      AsciiJoin(a[1..], b);
    }
  }

  /** The format, by an example: `hi`, which is aGk= in base64, with a deadline of 5 nanoseconds. */
  lemma EnvelopeExample()
    ensures Encode([104, 105], At(5)) ==
      Ascii("__cache_engine_ttl_v1__:" + "{\"expiresAtUnixNano\":" + "5" + ",\"value\":\"" + "aGk=" + "\"}")
  {
    hide Ascii;
    ExampleParts();
    var prefix, head, middle := "__cache_engine_ttl_v1__:", "{\"expiresAtUnixNano\":", ",\"value\":\"";
    AsciiJoin(prefix, head);
    AsciiJoin(prefix + head, "5");
    AsciiJoin(prefix + head + "5", middle);
    AsciiJoin(prefix + head + "5" + middle, "aGk=");
    AsciiJoin(prefix + head + "5" + middle + "aGk=", "\"}");
  }

  lemma ExampleParts()
    ensures Wrap64(5) == 5 && Decimal(5) == Ascii("5") && Base64.Encode([104, 105]) == Ascii("aGk=")
  {
  }
}
