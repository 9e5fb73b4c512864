/**
 Percent-encoding of form values, and the strict decoder that inverts it. The C locale
 fixes which bytes are alphanumeric.
 */
module Percent {
  import opened Wrappers
  import opened Bytes

  const HEX := "0123456789ABCDEF"

  /** The unreserved characters of section 2.3 of RFC 3986. */
  predicate Unreserved(c: char) {
    'A' <= c <= 'Z' || 'a' <= c <= 'z' || '0' <= c <= '9' || c == '-' || c == '_' || c == '.' || c == '~'
  }

  function CharOf(b: byte): (c: char)
    ensures c as int == b as int
  {
    (b as int) as char
  }

  function EncodeByte(b: byte): string {
    if Unreserved(CharOf(b)) then [CharOf(b)]
    else if b == 32 then "+"
    else ['%', HEX[(b >> 4) as int], HEX[(b % 16) as int]]
  }

  function Encode(data: bytes): string {
    if data == [] then "" else EncodeByte(data[0]) + Encode(data[1..])
  }

  /** Encoding distributes over concatenation. */
  lemma {:induction false} EncodeConcat(a: bytes, b: bytes)
    ensures Encode(a + b) == Encode(a) + Encode(b)
  {
    if a == [] {
      assert a + b == b;
    } else {
      assert (a + b)[1..] == a[1..] + b;
      EncodeConcat(a[1..], b);
    }
  }

  lemma EncodeSnoc(data: bytes, i: nat)
    requires i < |data|
    ensures Encode(data[..i + 1]) == Encode(data[..i]) + EncodeByte(data[i])
  {
    assert data[..i + 1] == data[..i] + [data[i]];
    EncodeConcat(data[..i], [data[i]]);
    assert EncodeByte(data[i]) + "" == EncodeByte(data[i]);
  }

  /** The encoder's loop. */
  method PercentEncode(data: bytes) returns (ret: string)
    ensures ret == Encode(data)
  {
    ret := "";
    for i := 0 to |data|
      invariant ret == Encode(data[..i])
    {
      EncodeSnoc(data, i);
      var ch := CharOf(data[i]);
      if Unreserved(ch) {
        ret := ret + [ch];
      } else if ch == ' ' {
        ret := ret + "+";
      } else {
        ret := ret + ['%', HEX[(data[i] >> 4) as int], HEX[(data[i] % 16) as int]];
      }
    }
    assert data[..|data|] == data;
  }

  // ---------- The decoder ----------

  function HexValue(c: char): (r: Option<nat>)
    ensures r.Some? ==> r.value < 16
  {
    if '0' <= c <= '9' then Some(c as int - '0' as int)
    else if 'A' <= c <= 'F' then Some(c as int - 'A' as int + 10)
    else None
  }

  /** One encoded byte at the front of `s` and how many characters it took. A triple is
      accepted only for a byte that has no shorter form. */
  function DecodeByte(s: string): (r: Option<(byte, nat)>)
    ensures r.Some? ==> 1 <= r.value.1 <= |s|
  {
    if s == "" then None
    else if Unreserved(s[0]) then Some((ByteWith(s[0] as int), 1))
    else if s[0] == '+' then Some((32, 1))
    else if s[0] != '%' || |s| < 3 || HexValue(s[1]).None? || HexValue(s[2]).None? then None
    else
      var b := ByteWith(16 * HexValue(s[1]).value + HexValue(s[2]).value);
      if Unreserved(CharOf(b)) || b == 32 then None else Some((b, 3))
  }

  function Decode(s: string): Option<bytes>
    decreases |s|
  {
    if s == "" then Some([])
    else match DecodeByte(s)
      case None => None
      case Some((b, n)) =>
        match Decode(s[n..])
        case None => None
        case Some(tail) => Some([b] + tail)
  }

  lemma HexAt(h: nat)
    requires h < 16
    ensures HexValue(HEX[h]) == Some(h) && HEX[h] as int == if h < 10 then 48 + h else 55 + h
  {
  }

  lemma HexBack(c: char)
    requires HexValue(c).Some?
    ensures HEX[HexValue(c).value] == c
  {
    HexAt(HexValue(c).value);
  }

  lemma Nibbles(b: byte)
    ensures (b >> 4) as int == b as int / 16 && (b % 16) as int == b as int % 16
  {
  }

  lemma CharIsSpace(b: byte)
    requires b == 32
    ensures CharOf(b) == ' '
  {
  }

  lemma TripleDecodes(b: byte, high: char, low: char, rest: string)
    requires !Unreserved(CharOf(b)) && b != 32
    requires HexValue(high) == Some((b >> 4) as int) && HexValue(low) == Some((b % 16) as int)
    ensures DecodeByte(['%', high, low] + rest) == Some((b, 3))
  {
    Nibbles(b);
    SameByte(ByteWith(16 * ((b >> 4) as int) + (b % 16) as int), b);
  }

  /** An encoded byte is self-delimiting. */
  lemma ByteRoundTrip(b: byte, rest: string)
    ensures DecodeByte(EncodeByte(b) + rest) == Some((b, |EncodeByte(b)|))
  {
    if Unreserved(CharOf(b)) {
      SameByte(ByteWith(CharOf(b) as int), b);
    } else if b != 32 {
      Nibbles(b);
      var high, low := HEX[(b >> 4) as int], HEX[(b % 16) as int];
      HexAt((b >> 4) as int);
      HexAt((b % 16) as int);
      TripleDecodes(b, high, low, rest);
    } else {
      CharIsSpace(b);
    }
  }

  lemma TripleNibbles(h: nat, l: nat)
    requires h < 16 && l < 16
    ensures var b := ByteWith(16 * h + l); (b >> 4) as int == h && (b % 16) as int == l
  {
    Nibbles(ByteWith(16 * h + l));
  }

  lemma ByteFromText(s: string)
    requires DecodeByte(s).Some?
    ensures EncodeByte(DecodeByte(s).value.0) == s[..DecodeByte(s).value.1]
  {
    if Unreserved(s[0]) {
      assert CharOf(ByteWith(s[0] as int)) == s[0];
    } else if s[0] == '+' {
      CharIsSpace(32);
    } else {
      TripleNibbles(HexValue(s[1]).value, HexValue(s[2]).value);
      HexBack(s[1]);
      HexBack(s[2]);
    }
  }

  lemma {:induction false} DecodeAfterEncode(data: bytes)
    ensures Decode(Encode(data)) == Some(data)
  {
    if data != [] {
      var head, tail := EncodeByte(data[0]), Encode(data[1..]);
      ByteRoundTrip(data[0], tail);
      assert (head + tail)[|head|..] == tail;
      DecodeAfterEncode(data[1..]);
      assert [data[0]] + data[1..] == data;
    }
  }

  lemma EncodeCons(b: byte, tail: bytes)
    ensures Encode([b] + tail) == EncodeByte(b) + Encode(tail)
  {
    assert ([b] + tail)[1..] == tail;
  }

  lemma {:induction false} EncodeAfterDecode(s: string)
    requires Decode(s).Some?
    ensures Encode(Decode(s).value) == s
    decreases |s|
  {
    if s != "" {
      var (b, n) := DecodeByte(s).value;
      ByteFromText(s);
      EncodeAfterDecode(s[n..]);
      EncodeCons(b, Decode(s[n..]).value);
      assert s == s[..n] + s[n..];
    }
  }

  /** A string decodes to `data` exactly when it is the encoding of `data`; so encoding is
      injective and loses nothing, on every byte string. */
  lemma DecodesExactlyEncodings(s: string, data: bytes)
    ensures Decode(s) == Some(data) <==> s == Encode(data)
  {
    DecodeAfterEncode(data);
    if Decode(s).Some? {
      EncodeAfterDecode(s);
    }
  }

  ghost predicate WellFormedAt(s: string, i: nat)
    requires i < |s|
  {
    && (Unreserved(s[i]) || s[i] == '+' || s[i] == '%')
    && (s[i] == '%' ==> i + 2 < |s| && HexValue(s[i + 1]).Some? && HexValue(s[i + 2]).Some?)
  }

  lemma EncodedByteAlphabet(b: byte)
    ensures forall i :: 0 <= i < |EncodeByte(b)| ==> WellFormedAt(EncodeByte(b), i)
  {
    Nibbles(b);
    HexAt((b >> 4) as int);
    HexAt((b % 16) as int);
  }

  /** Only unreserved characters, '+' and '%' appear, and every '%' starts a triple with two
      upper-case hexadecimal digits. */
  lemma {:induction false} EncodedAlphabet(data: bytes)
    ensures forall i :: 0 <= i < |Encode(data)| ==> WellFormedAt(Encode(data), i)
  {
    if data != [] {
      var head, tail := EncodeByte(data[0]), Encode(data[1..]);
      EncodedByteAlphabet(data[0]);
      EncodedAlphabet(data[1..]);
      forall i | 0 <= i < |head + tail|
        ensures WellFormedAt(head + tail, i)
      {
        assert if i < |head| then WellFormedAt(head, i) else WellFormedAt(tail, i - |head|);
      }
    }
  }

  // ---------- The encoding byte by byte ----------

  /** The codes of A to Z, a to z, 0 to 9 and of '-', '.', '_' and '~', as section 2.3 of RFC 3986
      lists them. */
  predicate KeptCode(v: int) {
    65 <= v <= 90 || 97 <= v <= 122 || 48 <= v <= 57 || v == 45 || v == 46 || v == 95 || v == 126
  }

  lemma EncodedByteIs(b: byte)
    ensures var v, s := b as int, EncodeByte(b);
            if KeptCode(v) then |s| == 1 && s[0] as int == v
            else if v == 32 then s == "+"
            else s == ['%', "0123456789ABCDEF"[v / 16], "0123456789ABCDEF"[v % 16]]
  {
    Nibbles(b);
    ByteRange(b);
  }

  /** What becomes of each of the 256 bytes: itself, '+' for a space, or '%' and the two digits of
      its number in base 16. */
  lemma EncodedOne(b: byte)
    ensures var v, s := b as int, Encode([b]);
            if KeptCode(v) then |s| == 1 && s[0] as int == v
            else if v == 32 then s == "+"
            else s == ['%', "0123456789ABCDEF"[v / 16], "0123456789ABCDEF"[v % 16]]
  {
    EncodedByteIs(b);
    EncodeCons(b, []);
    assert [b] + [] == [b] && EncodeByte(b) + "" == EncodeByte(b);
  }
}
