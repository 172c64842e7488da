/** The standard base64 of section 4 of RFC 4648, with padding, as the store envelope uses it. */
module Base64 {
  import opened Basics

  const PAD: Byte := 61

  function Symbol(x: int): Byte
    requires 0 <= x < 64
  {
    if x < 26 then (65 + x) as Byte
    else if x < 52 then (97 + x - 26) as Byte
    else if x < 62 then (48 + x - 52) as Byte
    else if x == 62 then 43 else 47
  }

  /** The value of a symbol, or -1 for a byte outside the alphabet. */
  function Sextet(b: Byte): (x: int)
    ensures -1 <= x < 64
  {
    if 65 <= b <= 90 then b as int - 65
    else if 97 <= b <= 122 then b as int - 97 + 26
    else if 48 <= b <= 57 then b as int - 48 + 52
    else if b == 43 then 62
    else if b == 47 then 63
    else -1
  }

  function Encode(v: Bytes): Bytes {
    if |v| == 0 then []
    else if |v| == 1 then
      [Symbol(v[0] as int / 4), Symbol(v[0] as int % 4 * 16), PAD, PAD]
    else if |v| == 2 then
      [Symbol(v[0] as int / 4), Symbol(v[0] as int % 4 * 16 + v[1] as int / 16), Symbol(v[1] as int % 16 * 4), PAD]
    else
      [Symbol(v[0] as int / 4), Symbol(v[0] as int % 4 * 16 + v[1] as int / 16),
       Symbol(v[1] as int % 16 * 4 + v[2] as int / 64), Symbol(v[2] as int % 64)] + Encode(v[3..])
  }

  /** Line breaks are skipped wherever they stand. */
  function Strip(s: Bytes): Bytes {
    if s == [] then []
    else if s[0] == 10 || s[0] == 13 then Strip(s[1..])
    else [s[0]] + Strip(s[1..])
  }

  /** Groups of four symbols; only the last may be padded. Left-over bits of a padded group are ignored. */
  function DecodeGroups(s: Bytes): Option<Bytes> {
    if s == [] then Some([])
    else if |s| < 4 || Sextet(s[0]) < 0 || Sextet(s[1]) < 0 then None
    else
      var a, b := Sextet(s[0]), Sextet(s[1]);
      var first := (a * 4 + b / 16) as Byte;
      if s[2] == PAD then
        if s[3] == PAD && |s| == 4 then Some([first]) else None
      else if Sextet(s[2]) < 0 then None
      else
        var c := Sextet(s[2]);
        var second := (b % 16 * 16 + c / 4) as Byte;
        if s[3] == PAD then
          if |s| == 4 then Some([first, second]) else None
        else if Sextet(s[3]) < 0 then None
        else
          match DecodeGroups(s[4..])
          case None => None
          case Some(rest) => Some([first, second, (c % 4 * 64 + Sextet(s[3])) as Byte] + rest)
  }

  function Decode(s: Bytes): Option<Bytes> {
    DecodeGroups(Strip(s))
  }

  lemma SymbolRoundTrip(x: int)
    requires 0 <= x < 64
    ensures Sextet(Symbol(x)) == x && Symbol(x) != PAD
    ensures Symbol(x) != 10 && Symbol(x) != 13 && Symbol(x) != 34
  {
  }

  /** One full group carries its three bytes. */
  lemma GroupRoundTrip(a: Byte, b: Byte, c: Byte)
    ensures (a as int / 4) * 4 + (a as int % 4 * 16 + b as int / 16) / 16 == a as int
    ensures (a as int % 4 * 16 + b as int / 16) % 16 * 16 + (b as int % 16 * 4 + c as int / 64) / 4 == b as int
    ensures (b as int % 16 * 4 + c as int / 64) % 4 * 64 + c as int % 64 == c as int
  {
  }

  lemma OneByte(a: Byte)
    ensures DecodeGroups(Encode([a])) == Some([a])
  {
    var x, y := a as int / 4, a as int % 4 * 16;
    SymbolRoundTrip(x);
    SymbolRoundTrip(y);
    assert x * 4 + y / 16 == a as int;
    assert Encode([a]) == [Symbol(x), Symbol(y), PAD, PAD];
  }

  lemma TwoBytes(a: Byte, b: Byte)
    ensures DecodeGroups(Encode([a, b])) == Some([a, b])
  {
    var x, y, z := a as int / 4, a as int % 4 * 16 + b as int / 16, b as int % 16 * 4;
    SymbolRoundTrip(x);
    SymbolRoundTrip(y);
    SymbolRoundTrip(z);
    assert x * 4 + y / 16 == a as int && y % 16 * 16 + z / 4 == b as int;
    assert Encode([a, b]) == [Symbol(x), Symbol(y), Symbol(z), PAD];
  }

  /** What a full group of four symbols decodes to. */
  lemma FullGroup(s: Bytes, x: int, y: int, z: int, w: int)
    requires |s| >= 4 && Sextet(s[0]) == x && Sextet(s[1]) == y && Sextet(s[2]) == z && Sextet(s[3]) == w
    requires 0 <= x && 0 <= y && 0 <= z && 0 <= w && s[2] != PAD && s[3] != PAD && DecodeGroups(s[4..]).Some?
    ensures DecodeGroups(s) == Some([(x * 4 + y / 16) as Byte, (y % 16 * 16 + z / 4) as Byte, (z % 4 * 64 + w) as Byte]
                                    + DecodeGroups(s[4..]).value)
  {
  }

  lemma ThreeBytes(a: Byte, b: Byte, c: Byte, rest: Bytes)
    requires DecodeGroups(Encode(rest)) == Some(rest)
    ensures DecodeGroups(Encode([a, b, c] + rest)) == Some([a, b, c] + rest)
  {
    hide DecodeGroups, Symbol, Sextet;
    var v := [a, b, c] + rest;
    assert v[3..] == rest;
    var x, y := a as int / 4, a as int % 4 * 16 + b as int / 16;
    var z, w := b as int % 16 * 4 + c as int / 64, c as int % 64;
    SymbolRoundTrip(x);
    SymbolRoundTrip(y);
    SymbolRoundTrip(z);
    SymbolRoundTrip(w);
    assert Encode(v) == [Symbol(x), Symbol(y), Symbol(z), Symbol(w)] + Encode(rest);
    assert Encode(v)[4..] == Encode(rest);
    FullGroup(Encode(v), x, y, z, w);
    GroupRoundTrip(a, b, c);
  }

  lemma {:induction false} GroupsRoundTrip(v: Bytes)
    ensures DecodeGroups(Encode(v)) == Some(v)
  {
    hide DecodeGroups, Encode;
    if |v| == 0 {
      NoBytes();
    } else if |v| == 1 {
      assert v == [v[0]];
      OneByte(v[0]);
    } else if |v| == 2 {
      assert v == [v[0], v[1]];
      TwoBytes(v[0], v[1]);
    } else {
      assert v == [v[0], v[1], v[2]] + v[3..];
      GroupsRoundTrip(v[3..]);
      ThreeBytes(v[0], v[1], v[2], v[3..]);
    }
  }

  lemma NoBytes()
    ensures DecodeGroups(Encode([])) == Some([])
  {
  }

  /** Every byte is a symbol of the alphabet or padding, so none is a line break or needs quoting. */
  predicate Plain(s: Bytes) {
    forall i :: 0 <= i < |s| ==> Sextet(s[i]) >= 0 || s[i] == PAD
  }

  lemma {:induction false} EncodeIsPlain(v: Bytes)
    ensures Plain(Encode(v))
  {
    if |v| >= 3 {
      EncodeIsPlain(v[3..]);
    }
  }

  lemma {:induction false} StripPlain(s: Bytes)
    requires Plain(s)
    ensures Strip(s) == s
  {
    if s != [] {
      StripPlain(s[1..]);
    }
  }

  /** Decoding undoes encoding, for every byte string. */
  lemma RoundTrip(v: Bytes)
    ensures Decode(Encode(v)) == Some(v)
  {
    EncodeIsPlain(v);
    StripPlain(Encode(v));
    GroupsRoundTrip(v);
  }

  // ---------- the standard's own definition ----------

  /** Table 1 of the RFC: the capital letters, the small letters and the digits in order, then + and /. */
  lemma Alphabet(x: int)
    ensures Symbol(0) as int == 'A' as int && Symbol(26) as int == 'a' as int && Symbol(52) as int == '0' as int
    ensures Symbol(62) as int == '+' as int && Symbol(63) as int == '/' as int
    ensures 0 <= x < 61 && x != 25 && x != 51 ==> Symbol(x + 1) as int == Symbol(x) as int + 1
  {
  }

  /** Of a group of three bytes, read as one number of 24 bits, the four symbols are the digits in base 64. */
  lemma GroupIsNumber(a: Byte, b: Byte, c: Byte, rest: Bytes)
    ensures var e := Encode([a, b, c] + rest);
      && |e| >= 4 && e[4..] == Encode(rest)
      && Sextet(e[0]) >= 0 && Sextet(e[1]) >= 0 && Sextet(e[2]) >= 0 && Sextet(e[3]) >= 0
      && Sextet(e[0]) * 262144 + Sextet(e[1]) * 4096 + Sextet(e[2]) * 64 + Sextet(e[3]) == a as int * 65536 + b as int * 256 + c as int
  {
    hide Symbol, Sextet;
    var v := [a, b, c] + rest;
    assert v[3..] == rest;
    var x, y := a as int / 4, a as int % 4 * 16 + b as int / 16;
    var z, w := b as int % 16 * 4 + c as int / 64, c as int % 64;
    SymbolRoundTrip(x);
    SymbolRoundTrip(y);
    SymbolRoundTrip(z);
    SymbolRoundTrip(w);
    assert Encode(v) == [Symbol(x), Symbol(y), Symbol(z), Symbol(w)] + Encode(rest);
  }

  /** A last group of one or two bytes is filled up with zero bits, and with padding in place of the missing symbols. */
  lemma PaddedGroups(a: Byte, b: Byte)
    ensures var full := Encode([a, 0, 0]); Encode([a]) == [full[0], full[1], PAD, PAD]
    ensures var full := Encode([a, b, 0]); Encode([a, b]) == [full[0], full[1], full[2], PAD]
  {
    hide Symbol;
  }

  /** Test vectors of section 10 of the RFC: `foobar` is Zm9vYmFy, and `fo` is Zm8=. */
  lemma TestVectors()
    ensures Encode([102, 111, 111, 98, 97, 114]) == [90, 109, 57, 118, 89, 109, 70, 121]
    ensures Encode([102, 111]) == [90, 109, 56, 61]
    ensures Encode([102]) == [90, 103, 61, 61]
  {
    hide Symbol;
    VectorSymbols();
    FullVector([102, 111, 111], [98, 97, 114]);
    FullVector([98, 97, 114], []);
    assert [102, 111, 111] + [98, 97, 114] == [102, 111, 111, 98, 97, 114];
    assert [98, 97, 114] + [] == [98, 97, 114];
  }

  lemma FullVector(v: Bytes, rest: Bytes)
    requires |v| == 3
    ensures Encode(v + rest) == [Symbol(v[0] as int / 4), Symbol(v[0] as int % 4 * 16 + v[1] as int / 16),
      Symbol(v[1] as int % 16 * 4 + v[2] as int / 64), Symbol(v[2] as int % 64)] + Encode(rest)
  {
    hide Symbol;
    assert (v + rest)[3..] == rest;
  }

  lemma VectorSymbols()
    ensures Symbol(25) == 90 && Symbol(38) == 109 && Symbol(61) == 57 && Symbol(47) == 118
    ensures Symbol(24) == 89 && Symbol(5) == 70 && Symbol(50) == 121 && Symbol(60) == 56 && Symbol(32) == 103
  {
  }

  // ---------- what is decoded, whoever encoded it ----------

  /** How many padding bytes a text ends in, of the two that matter. */
  function Padding(s: Bytes): (p: nat)
    ensures p <= 2 && p <= |s|
  {
    if s == [] || s[|s| - 1] != PAD then 0
    else if |s| == 1 || s[|s| - 2] != PAD then 1
    else 2
  }

  /** Symbols in groups of four, of which the last may end in padding. */
  predicate WellFormed(s: Bytes) {
    |s| % 4 == 0 && forall i :: 0 <= i < |s| - Padding(s) ==> Sextet(s[i]) >= 0
  }

  /** The same text, but perhaps for the last symbol before any padding, whose left-over bits are ignored. */
  predicate SameText(s: Bytes, e: Bytes) {
    |s| == |e| && forall i :: 0 <= i < |s| && (Padding(s) == 0 || i != |s| - Padding(s) - 1) ==> s[i] == e[i]
  }

  /** Exactly the well-formed texts are decoded, to the bytes that are encoded as that text. */
  lemma {:induction false} DecodesExactly(s: Bytes)
    ensures DecodeGroups(s).Some? <==> WellFormed(s)
    ensures DecodeGroups(s).Some? ==> SameText(s, Encode(DecodeGroups(s).value))
  {
    if |s| == 4 {
      LastGroup(s);
    } else if |s| > 4 {
      var rest := s[4..];
      DecodesExactly(rest);
      WellFormedGroups(s);
      if DecodeGroups(s).Some? {
        FirstGroup(s);
      }
    }
  }

  lemma SextetRoundTrip(b: Byte)
    requires Sextet(b) >= 0
    ensures Symbol(Sextet(b)) == b && b != PAD
  {
  }

  lemma LastGroup(s: Bytes)
    requires |s| == 4
    ensures DecodeGroups(s).Some? <==> WellFormed(s)
    ensures DecodeGroups(s).Some? ==> SameText(s, Encode(DecodeGroups(s).value))
  {
    hide Sextet, Symbol, Encode, DecodeGroups, WellFormed;
    LastShape(s);
    if WellFormed(s) {
      var x, y, z, w := Sextet(s[0]), Sextet(s[1]), Sextet(s[2]), Sextet(s[3]);
      LastSymbols(s);
      if s[2] == PAD {
        OnePadded(x, y);
      } else if s[3] == PAD {
        TwoPadded(x, y, z);
      } else {
        NonePadded(x, y, z, w);
      }
    }
  }

  lemma PadIsNoSymbol()
    ensures Sextet(PAD) == -1
  {
  }

  lemma LastShape(s: Bytes)
    requires |s| == 4
    ensures DecodeGroups(s).Some? <==> WellFormed(s)
  {
    hide Sextet;
    PadIsNoSymbol();
    assert s[4..] == [];
    NoBytes();
  }

  /** A decoded group of four, by its padding. */
  lemma LastSymbols(s: Bytes)
    requires |s| == 4 && DecodeGroups(s).Some?
    ensures var x, y, z, w := Sextet(s[0]), Sextet(s[1]), Sextet(s[2]), Sextet(s[3]);
      && x >= 0 && y >= 0 && Symbol(x) == s[0] && Symbol(y) == s[1]
      && if s[2] == PAD then s[3] == PAD && DecodeGroups(s).value == [(x * 4 + y / 16) as Byte]
         else if s[3] == PAD then
           z >= 0 && Symbol(z) == s[2] && DecodeGroups(s).value == [(x * 4 + y / 16) as Byte, (y % 16 * 16 + z / 4) as Byte]
         else
           && z >= 0 && w >= 0 && Symbol(z) == s[2] && Symbol(w) == s[3]
           && DecodeGroups(s).value == [(x * 4 + y / 16) as Byte, (y % 16 * 16 + z / 4) as Byte, (z % 4 * 64 + w) as Byte]
  {
    hide Sextet, Symbol;
    SextetRoundTrip(s[0]);
    SextetRoundTrip(s[1]);
    if s[2] != PAD {
      SextetRoundTrip(s[2]);
      if s[3] != PAD {
        SextetRoundTrip(s[3]);
        assert s[4..] == [];
      }
    }
  }

  lemma OnePadded(x: int, y: int)
    requires 0 <= x < 64 && 0 <= y < 64
    ensures Encode([(x * 4 + y / 16) as Byte]) == [Symbol(x), Symbol(y / 16 * 16), PAD, PAD]
  {
    hide Symbol;
  }

  lemma TwoPadded(x: int, y: int, z: int)
    requires 0 <= x < 64 && 0 <= y < 64 && 0 <= z < 64
    ensures Encode([(x * 4 + y / 16) as Byte, (y % 16 * 16 + z / 4) as Byte]) == [Symbol(x), Symbol(y), Symbol(z / 4 * 4), PAD]
  {
    hide Symbol;
    GroupBack(x, y, z, 0);
  }

  lemma NonePadded(x: int, y: int, z: int, w: int)
    requires 0 <= x < 64 && 0 <= y < 64 && 0 <= z < 64 && 0 <= w < 64
    ensures Encode([(x * 4 + y / 16) as Byte, (y % 16 * 16 + z / 4) as Byte, (z % 4 * 64 + w) as Byte])
         == [Symbol(x), Symbol(y), Symbol(z), Symbol(w)]
  {
    hide Symbol;
    GroupBack(x, y, z, w);
    var v: Bytes := [(x * 4 + y / 16) as Byte, (y % 16 * 16 + z / 4) as Byte, (z % 4 * 64 + w) as Byte];
    assert v[3..] == [];
  }

  lemma WellFormedGroups(s: Bytes)
    requires |s| > 4
    ensures WellFormed(s) <==>
      Sextet(s[0]) >= 0 && Sextet(s[1]) >= 0 && Sextet(s[2]) >= 0 && Sextet(s[3]) >= 0 && WellFormed(s[4..])
  {
    hide Sextet;
  }

  lemma GroupBack(x: int, y: int, z: int, w: int)
    requires 0 <= x < 64 && 0 <= y < 64 && 0 <= z < 64 && 0 <= w < 64
    ensures (x * 4 + y / 16) / 4 == x && (x * 4 + y / 16) % 4 * 16 + (y % 16 * 16 + z / 4) / 16 == y
    ensures (y % 16 * 16 + z / 4) % 16 * 4 + (z % 4 * 64 + w) / 64 == z && (z % 4 * 64 + w) % 64 == w
  {
  }

  /** A decoded text that goes on after its first group has four symbols there. */
  lemma FullSymbols(s: Bytes)
    requires |s| > 4 && DecodeGroups(s).Some?
    ensures DecodeGroups(s[4..]).Some?
    ensures var x, y, z, w := Sextet(s[0]), Sextet(s[1]), Sextet(s[2]), Sextet(s[3]);
      && x >= 0 && y >= 0 && z >= 0 && w >= 0
      && Symbol(x) == s[0] && Symbol(y) == s[1] && Symbol(z) == s[2] && Symbol(w) == s[3]
      && DecodeGroups(s).value == [(x * 4 + y / 16) as Byte, (y % 16 * 16 + z / 4) as Byte, (z % 4 * 64 + w) as Byte]
                                  + DecodeGroups(s[4..]).value
  {
    hide Symbol;
    SextetRoundTrip(s[0]);
    SextetRoundTrip(s[1]);
    SextetRoundTrip(s[2]);
    SextetRoundTrip(s[3]);
  }

  lemma FirstGroup(s: Bytes)
    requires |s| > 4 && DecodeGroups(s).Some? && WellFormed(s[4..])
    requires DecodeGroups(s[4..]).Some? && SameText(s[4..], Encode(DecodeGroups(s[4..]).value))
    ensures SameText(s, Encode(DecodeGroups(s).value))
  {
    hide Symbol, Sextet, DecodeGroups;
    var x, y, z, w := Sextet(s[0]), Sextet(s[1]), Sextet(s[2]), Sextet(s[3]);
    FullSymbols(s);
    var rest, v := DecodeGroups(s[4..]).value, DecodeGroups(s).value;
    GroupBack(x, y, z, w);
    assert v[3..] == rest;
    assert Encode(v) == s[..4] + Encode(rest);
    assert s == s[..4] + s[4..];
  }

  lemma {:induction false} StripJoins(a: Bytes, b: Bytes)
    ensures Strip(a + b) == Strip(a) + Strip(b)
  {
    if a == [] {
      assert a + b == b;
    } else {
      assert (a + b)[1..] == a[1..] + b;
      StripJoins(a[1..], b);
    }
  }

  /** Line breaks do not matter, wherever they stand. */
  lemma LineBreaksIgnored(a: Bytes, c: Byte, b: Bytes)
    requires c == 10 || c == 13
    ensures Decode(a + [c] + b) == Decode(a + b)
  {
    hide DecodeGroups;
    StripJoins(a + [c], b);
    StripJoins(a, [c]);
    StripJoins(a, b);
    assert Strip([c]) == Strip([c][1..]) == [];
    assert Strip(a) + [] == Strip(a);
  }
}
