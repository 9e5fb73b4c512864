/**
 Base64 encoding as the program's accumulating loop does it, and the decoder of section 4
 of RFC 4648 that inverts it. The decoder is strict: it rejects non-zero pad bits, so that
 the two are inverse in both directions.
 */
module Base64 {
  import opened Wrappers
  import opened Bytes

  const UPPER := "ABCDEFGHIJKLMNOPQRSTUVWXYZ"
  const LOWER := "abcdefghijklmnopqrstuvwxyz"
  const DIGITS := "0123456789"
  const ALPHABET := UPPER + LOWER + DIGITS + "+/"

  /** The character of a six-bit value. */
  function Digit(v: byte): char
    requires v < 64
  {
    ALPHABET[v as int]
  }

  function Six0(a: byte): (v: byte)
    ensures v < 64
  {
    (a & 0xfc) >> 2
  }

  function Six1(a: byte, b: byte): (v: byte)
    ensures v < 64
  {
    ((a & 0x03) << 4) + ((b & 0xf0) >> 4)
  }

  function Six2(b: byte, c: byte): (v: byte)
    ensures v < 64
  {
    ((b & 0x0f) << 2) + ((c & 0xc0) >> 6)
  }

  function Six3(c: byte): (v: byte)
    ensures v < 64
  {
    c & 0x3f
  }

  function Quad(a: byte, b: byte, c: byte): (s: string)
    ensures |s| == 4
  {
    [Digit(Six0(a)), Digit(Six1(a, b)), Digit(Six2(b, c)), Digit(Six3(c))]
  }

  /** Three bytes become four characters; a short last group is padded with '='. */
  function Encode(data: bytes): string {
    if |data| == 0 then ""
    else if |data| == 1 then Quad(data[0], 0, 0)[..2] + "=="
    else if |data| == 2 then Quad(data[0], data[1], 0)[..3] + "="
    else Quad(data[0], data[1], data[2]) + Encode(data[3..])
  }

  lemma EncodeGroup(data: bytes, from: nat)
    requires from + 3 <= |data|
    ensures Encode(data[from..]) == Quad(data[from], data[from + 1], data[from + 2]) + Encode(data[from + 3..])
  {
    assert data[from..][3..] == data[from + 3..];
  }

  lemma Regroup(done: string, quad: string, rest: string)
    ensures done + (quad + rest) == done + quad + rest
  {
  }

  /** The encoder's loop: it gathers three bytes, writes four characters, and starts over. */
  method Base64Encode(data: bytes) returns (ret: string)
    ensures ret == Encode(data)
  {
    ret := "";
    var char3: bytes := [0, 0, 0];
    var i: nat := 0;
    ghost var base: nat := 0;
    assert data[0..] == data;
    for pos := 0 to |data|
      invariant i < 3 && base + i == pos && |char3| == 3
      invariant Gathered(char3, i, data, base)
      invariant ret + Encode(data[base..]) == Encode(data)
    {
      char3 := char3[i := data[pos]];
      i := i + 1;
      assert Gathered(char3, i, data, base);
      if i == 3 {
        EncodeGroup(data, base);
        var quad := Quad(char3[0], char3[1], char3[2]);
        Regroup(ret, quad, Encode(data[base + 3..]));
        ret := ret + quad;
        i, base := 0, base + 3;
      }
    }
    if i > 0 {
      assert data[base..] == char3[..i];
      var tail := EncodeTail(char3, i);
      ret := ret + tail;
    }
  }

  ghost predicate Gathered(char3: bytes, i: nat, data: bytes, base: nat) {
    i <= |char3| && base + i <= |data| && forall j :: 0 <= j < i ==> char3[j] == data[base + j]
  }

  /** The last one or two bytes, padded with zero bytes and then with '='. */
  method EncodeTail(gathered: bytes, n: nat) returns (ret: string)
    requires |gathered| == 3 && 1 <= n <= 2
    ensures ret == Encode(gathered[..n])
  {
    var char3, i := gathered, n;
    for j := n to 3
      invariant |char3| == 3
      invariant forall k :: 0 <= k < 3 ==> char3[k] == if n <= k < j then 0 else gathered[k]
    {
      char3 := char3[j := 0];
    }
    var char4 := Quad(char3[0], char3[1], char3[2]);
    ret := "";
    for j := 0 to n + 1
      invariant ret == char4[..j]
    {
      ret := ret + [char4[j]];
    }
    while i < 3
      invariant n <= i <= 3 && ret == char4[..n + 1] + Padding(i - n)
    {
      ret := ret + "=";
      i := i + 1;
    }
  }

  function Padding(n: nat): string {
    if n == 0 then "" else Padding(n - 1) + "="
  }

  // ---------- The decoder of RFC 4648, section 4 ----------

  /** The six-bit value of a character, from the ranges of the standard's Table 1. */
  function Value(c: char): (r: Option<byte>)
    ensures r.Some? ==> r.value as int < 64
  {
    if 'A' <= c <= 'Z' then Some(ByteWith(c as int - 'A' as int))
    else if 'a' <= c <= 'z' then Some(ByteWith(c as int - 'a' as int + 26))
    else if '0' <= c <= '9' then Some(ByteWith(c as int - '0' as int + 52))
    else if c == '+' then Some(62)
    else if c == '/' then Some(63)
    else None
  }

  function Byte0(u: byte, v: byte): byte { (u << 2) | (v >> 4) }

  function Byte1(v: byte, w: byte): byte { (v << 4) | (w >> 2) }

  function Byte2(w: byte, x: byte): byte { (w << 6) | x }

  /** Four characters, the last one or two of which may be padding. */
  function DecodeQuad(s: string): Option<bytes>
    requires |s| == 4
  {
    if Value(s[0]).None? || Value(s[1]).None? then None
    else
      var u, v := Value(s[0]).value, Value(s[1]).value;
      if s[2] == '=' then
        if s[3] == '=' && v & 0x0f == 0 then Some([Byte0(u, v)]) else None
      else if Value(s[2]).None? then None
      else
        var w := Value(s[2]).value;
        if s[3] == '=' then
          if w & 0x03 == 0 then Some([Byte0(u, v), Byte1(v, w)]) else None
        else if Value(s[3]).None? then None
        else Some([Byte0(u, v), Byte1(v, w), Byte2(w, Value(s[3]).value)])
  }

  /** Padding is accepted only at the very end. */
  function Decode(s: string): Option<bytes> {
    if s == "" then Some([])
    else if |s| < 4 then None
    else match DecodeQuad(s[..4])
      case None => None
      case Some(head) =>
        if |head| < 3 then (if |s| == 4 then Some(head) else None)
        else match Decode(s[4..])
          case None => None
          case Some(tail) => Some(head + tail)
  }

  lemma AlphabetAt(i: nat)
    requires i < 64
    ensures |ALPHABET| == 64
    ensures ALPHABET[i] as int ==
            if i < 26 then 65 + i else if i < 52 then 71 + i else if i < 62 then i - 4 else if i == 62 then 43 else 47
  {
    assert |UPPER| == 26 && |LOWER| == 26 && |DIGITS| == 10;
    assert i < 26 ==> ALPHABET[i] == UPPER[i];
    assert 26 <= i < 52 ==> ALPHABET[i] == LOWER[i - 26];
    assert 52 <= i < 62 ==> ALPHABET[i] == DIGITS[i - 52];
  }

  lemma DigitHasValue(v: byte)
    requires v < 64
    ensures Value(Digit(v)) == Some(v) && Digit(v) != '='
  {
    AlphabetAt(v as int);
    SameByte(Value(Digit(v)).value, v);
  }

  lemma ValueHasDigit(c: char)
    requires Value(c).Some?
    ensures var v := Value(c).value; v < 64 && Digit(v) == c
  {
    var v := Value(c).value;
    assert v < 64;
    AlphabetAt(v as int);
  }

  // ---------- The two are inverse ----------

  lemma SplitThenJoin(a: byte, b: byte, c: byte)
    ensures Byte0(Six0(a), Six1(a, b)) == a
    ensures Byte1(Six1(a, b), Six2(b, c)) == b
    ensures Byte2(Six2(b, c), Six3(c)) == c
    ensures Six1(a, 0) & 0x0f == 0 && Six2(b, 0) & 0x03 == 0
  {
  }

  lemma JoinThenSplit(u: byte, v: byte, w: byte, x: byte)
    requires u < 64 && v < 64 && w < 64 && x < 64
    ensures Six0(Byte0(u, v)) == u
    ensures Six1(Byte0(u, v), Byte1(v, w)) == v
    ensures Six2(Byte1(v, w), Byte2(w, x)) == w
    ensures Six3(Byte2(w, x)) == x
    ensures v & 0x0f == 0 ==> Six1(Byte0(u, v), 0) == v
    ensures w & 0x03 == 0 ==> Six2(Byte1(v, w), 0) == w
  {
  }

  /** One group of one, two or three bytes survives encoding and decoding. */
  lemma GroupRoundTrip(a: byte, b: byte, c: byte)
    ensures DecodeQuad(Quad(a, b, c)) == Some([a, b, c])
    ensures DecodeQuad(Quad(a, b, 0)[..3] + "=") == Some([a, b])
    ensures DecodeQuad(Quad(a, 0, 0)[..2] + "==") == Some([a])
  {
    SplitThenJoin(a, b, c);
    SplitThenJoin(a, b, 0);
    SplitThenJoin(a, 0, 0);
    DigitHasValue(Six0(a));
    DigitHasValue(Six1(a, b));
    DigitHasValue(Six1(a, 0));
    DigitHasValue(Six2(b, c));
    DigitHasValue(Six2(b, 0));
    DigitHasValue(Six3(c));
  }

  lemma QuadFromGroup(s: string)
    requires |s| == 4 && DecodeQuad(s).Some?
    ensures 1 <= |DecodeQuad(s).value| <= 3 && Encode(DecodeQuad(s).value) == s
  {
    var h := DecodeQuad(s).value;
    var u, v := Value(s[0]).value, Value(s[1]).value;
    ValueHasDigit(s[0]);
    ValueHasDigit(s[1]);
    if s[2] == '=' {
      JoinThenSplit(u, v, 0, 0);
      assert Quad(h[0], 0, 0)[..2] == s[..2];
    } else {
      var w := Value(s[2]).value;
      ValueHasDigit(s[2]);
      if s[3] == '=' {
        JoinThenSplit(u, v, w, 0);
        assert Quad(h[0], h[1], 0)[..3] == s[..3];
      } else {
        ValueHasDigit(s[3]);
        JoinThenSplit(u, v, w, Value(s[3]).value);
        assert Quad(h[0], h[1], h[2]) == s && h[3..] == [];
      }
    }
  }

  lemma DecodeFull(quad: string, head: bytes, rest: string)
    requires |quad| == 4 && DecodeQuad(quad) == Some(head) && |head| == 3
    ensures Decode(quad + rest) == if Decode(rest).None? then None else Some(head + Decode(rest).value)
  {
    assert (quad + rest)[..4] == quad && (quad + rest)[4..] == rest;
  }

  lemma DecodeLast(quad: string, head: bytes)
    requires |quad| == 4 && DecodeQuad(quad) == Some(head) && |head| < 3
    ensures Decode(quad) == Some(head)
  {
    assert quad[..4] == quad;
  }

  lemma {:induction false} DecodeAfterEncode(data: bytes)
    ensures Decode(Encode(data)) == Some(data)
  {
    if |data| == 1 {
      GroupRoundTrip(data[0], 0, 0);
      assert data == [data[0]];
      DecodeLast(Encode(data), data);
    } else if |data| == 2 {
      GroupRoundTrip(data[0], data[1], 0);
      assert data == [data[0], data[1]];
      DecodeLast(Encode(data), data);
    } else if |data| >= 3 {
      var head := [data[0], data[1], data[2]];
      GroupRoundTrip(data[0], data[1], data[2]);
      DecodeAfterEncode(data[3..]);
      DecodeFull(Quad(data[0], data[1], data[2]), head, Encode(data[3..]));
      assert head + data[3..] == data;
    }
  }

  lemma {:induction false} EncodeAfterDecode(s: string)
    requires Decode(s).Some?
    ensures Encode(Decode(s).value) == s
  {
    if s != "" {
      var head := DecodeQuad(s[..4]).value;
      QuadFromGroup(s[..4]);
      assert s == s[..4] + s[4..];
      if |head| == 3 {
        EncodeAfterDecode(s[4..]);
        EncodeFull(head, Decode(s[4..]).value);
      }
    }
  }

  lemma EncodeFull(head: bytes, tail: bytes)
    requires |head| == 3
    ensures Encode(head + tail) == Encode(head) + Encode(tail)
  {
    assert (head + tail)[3..] == tail && head[3..] == [];
  }

  /** The encoder and the strict decoder are inverse: a string decodes to `data` exactly when
      it is the encoding of `data`. */
  lemma DecodesExactlyEncodings(s: string, data: bytes)
    ensures Decode(s) == Some(data) <==> s == Encode(data)
  {
    DecodeAfterEncode(data);
    if Decode(s).Some? {
      EncodeAfterDecode(s);
    }
  }

  function PadCount(n: nat): nat { (3 - n % 3) % 3 }

  lemma DigitsAreNotPads(a: byte, b: byte, c: byte)
    ensures forall i :: 0 <= i < 4 ==> Quad(a, b, c)[i] != '='
  {
    DigitHasValue(Six0(a));
    DigitHasValue(Six1(a, b));
    DigitHasValue(Six2(b, c));
    DigitHasValue(Six3(c));
  }

  ghost predicate PadsExactly(s: string, pads: nat) {
    forall i :: 0 <= i < |s| ==> (s[i] == '=' <==> i >= |s| - pads)
  }

  lemma PadsAfterQuad(quad: string, rest: string, pads: nat)
    requires |quad| == 4 && forall i :: 0 <= i < 4 ==> quad[i] != '='
    requires pads <= |rest| && PadsExactly(rest, pads)
    ensures PadsExactly(quad + rest, pads)
  {
  }

  ghost predicate Shaped(s: string, n: nat) {
    |s| == 4 * ((n + 2) / 3) && PadCount(n) <= |s| && PadsExactly(s, PadCount(n))
  }

  lemma ShortShape(a: byte, b: byte)
    ensures Shaped(Quad(a, 0, 0)[..2] + "==", 1) && Shaped(Quad(a, b, 0)[..3] + "=", 2)
  {
    DigitsAreNotPads(a, b, 0);
    DigitsAreNotPads(a, 0, 0);
  }

  lemma LongShape(quad: string, rest: string, n: nat)
    requires |quad| == 4 && (forall i :: 0 <= i < 4 ==> quad[i] != '=') && n >= 3 && Shaped(rest, n - 3)
    ensures Shaped(quad + rest, n)
  {
    PadsAfterQuad(quad, rest, PadCount(n - 3));
  }

  /** The encoding has four characters for every three bytes begun, and '=' stands exactly at
      its last places, one for each byte the last group lacks. */
  lemma {:induction false} EncodedShape(data: bytes)
    ensures Shaped(Encode(data), |data|)
  {
    if |data| >= 3 {
      DigitsAreNotPads(data[0], data[1], data[2]);
      EncodedShape(data[3..]);
      LongShape(Quad(data[0], data[1], data[2]), Encode(data[3..]), |data|);
    } else if |data| > 0 {
      ShortShape(data[0], if |data| == 2 then data[1] else 0);
    }
  }

  /** Encoding distributes over concatenation at a group boundary. */
  lemma {:induction false} EncodeConcat(a: bytes, b: bytes)
    requires |a| % 3 == 0
    ensures Encode(a + b) == Encode(a) + Encode(b)
  {
    if a == [] {
      assert a + b == b;
    } else {
      assert (a + b)[3..] == a[3..] + b;
      EncodeConcat(a[3..], b);
    }
  }

  // ---------- The encoding as a number ----------

  /** The value of a character in Table 1 of RFC 4648; padding counts as zero. */
  function TableValue(c: char): int {
    if 'A' <= c <= 'Z' then c as int - 65
    else if 'a' <= c <= 'z' then c as int - 97 + 26
    else if '0' <= c <= '9' then c as int - 48 + 52
    else if c == '+' then 62
    else if c == '/' then 63
    else if c == '=' then 0
    else -1
  }

  lemma DigitValue(v: byte)
    requires v < 64
    ensures TableValue(Digit(v)) == v as int
  {
    AlphabetAt(v as int);
  }

  lemma Parts4(b: byte)
    ensures (b >> 2) as int == b as int / 4 && (b % 4) as int == b as int % 4
  {
  }

  lemma Parts16(b: byte)
    ensures (b >> 4) as int == b as int / 16 && (b % 16) as int == b as int % 16
  {
  }

  lemma Parts64(b: byte)
    ensures (b >> 6) as int == b as int / 64 && (b % 64) as int == b as int % 64
  {
  }

  lemma SixParts(a: byte, b: byte, c: byte)
    ensures Six0(a) == a >> 2
    ensures Six1(a, b) >> 4 == a % 4 && Six1(a, b) % 16 == b >> 4
    ensures Six2(b, c) >> 2 == b % 16 && Six2(b, c) % 4 == c >> 6
    ensures Six3(c) == c % 64
  {
  }

  lemma Six1Value(a: byte, b: byte)
    ensures Six1(a, b) as int == a as int % 4 * 16 + b as int / 16
  {
    SixParts(a, b, 0);
    Parts4(a);
    Parts16(b);
    Parts16(Six1(a, b));
  }

  lemma Six2Value(b: byte, c: byte)
    ensures Six2(b, c) as int == b as int % 16 * 4 + c as int / 64
  {
    SixParts(0, b, c);
    Parts16(b);
    Parts64(c);
    Parts4(Six2(b, c));
  }

  lemma Six0Value(a: byte)
    ensures Six0(a) as int == a as int / 4
  {
    SixParts(a, 0, 0);
    Parts4(a);
  }

  lemma Six3Value(c: byte)
    ensures Six3(c) as int == c as int % 64
  {
    SixParts(0, 0, c);
    Parts64(c);
  }

  lemma FourSixes(a: int, b: int, c: int)
    ensures 0x4_0000 * (a / 4) + 0x1000 * (a % 4 * 16 + b / 16) + 0x40 * (b % 16 * 4 + c / 64) + c % 64 ==
            0x1_0000 * a + 0x100 * b + c
  {
  }

  /** The number four characters make in base 64. */
  function Number(s: string): int
    requires |s| == 4
  {
    0x4_0000 * TableValue(s[0]) + 0x1000 * TableValue(s[1]) + 0x40 * TableValue(s[2]) + TableValue(s[3])
  }

  lemma QuadDigits(a: byte, b: byte, c: byte)
    ensures Number(Quad(a, b, c)) ==
            0x4_0000 * Six0(a) as int + 0x1000 * Six1(a, b) as int + 0x40 * Six2(b, c) as int + Six3(c) as int
  {
    DigitValue(Six0(a));
    DigitValue(Six1(a, b));
    DigitValue(Six2(b, c));
    DigitValue(Six3(c));
  }

  lemma QuadValue(a: byte, b: byte, c: byte)
    ensures Number(Quad(a, b, c)) == 0x1_0000 * a as int + 0x100 * b as int + c as int
  {
    QuadDigits(a, b, c);
    Six0Value(a);
    Six1Value(a, b);
    Six2Value(b, c);
    Six3Value(c);
    FourSixes(a as int, b as int, c as int);
  }

  lemma ShortValue(a: byte, b: byte)
    ensures Number(Quad(a, 0, 0)[..2] + "==") == 0x1_0000 * a as int
    ensures Number(Quad(a, b, 0)[..3] + "=") == 0x1_0000 * a as int + 0x100 * b as int
  {
    QuadValue(a, 0, 0);
    QuadValue(a, b, 0);
    ZeroDigit();
  }

  lemma ZeroDigit()
    ensures Six2(0, 0) == 0 && Six3(0) == 0 && TableValue(Digit(0)) == 0
  {
    DigitValue(0);
  }

  /** The byte at an index, or zero where there is none. */
  function ByteAt(data: bytes, i: nat): int {
    if i < |data| then data[i] as int else 0
  }

  /** The number three bytes from index `i` on make in base 256. */
  function GroupNumber(data: bytes, i: nat): int {
    0x1_0000 * ByteAt(data, i) + 0x100 * ByteAt(data, i + 1) + ByteAt(data, i + 2)
  }

  lemma FirstGroup(data: bytes)
    requires data != []
    ensures |Encode(data)| >= 4 && Number(Encode(data)[..4]) == GroupNumber(data, 0)
  {
    if |data| >= 3 {
      QuadValue(data[0], data[1], data[2]);
      assert Encode(data)[..4] == Quad(data[0], data[1], data[2]);
    } else {
      ShortValue(data[0], if |data| == 2 then data[1] else 0);
      assert Encode(data)[..4] == Encode(data);
    }
  }

  lemma LaterGroup(data: bytes, i: nat)
    requires |data| >= 3
    ensures GroupNumber(data[3..], i) == GroupNumber(data, i + 3)
  {
  }

  lemma LaterQuad(quad: string, rest: string, i: nat)
    requires |quad| == 4 && |rest| >= 4 * i + 4
    ensures (quad + rest)[4 * i + 4..4 * i + 8] == rest[4 * i..4 * i + 4]
  {
  }

  /** Each four characters of the encoding are, in base 64, the number that the three bytes of their
      group make in base 256, with zero for the bytes that the last group lacks. */
  lemma {:induction false} EncodedNumber(data: bytes, i: nat)
    requires 3 * i < |data|
    ensures |Encode(data)| >= 4 * i + 4 && Number(Encode(data)[4 * i..4 * i + 4]) == GroupNumber(data, 3 * i)
    decreases i
  {
    if i == 0 {
      FirstGroup(data);
    } else {
      EncodedNumber(data[3..], i - 1);
      LaterGroup(data, 3 * (i - 1));
      LaterQuad(Quad(data[0], data[1], data[2]), Encode(data[3..]), i - 1);
    }
  }
}
