/** UTF-8 as Python's `str.encode()` and `bytes.decode()` use it (the strict codec:
    well-formed sequences only, as in Table 3-7 of the Unicode Standard). */
module Utf8 {
  import opened Results
  import opened Bytes
  import PyText

  predicate IsContinuation(b: Byte) { 0x80 <= b <= 0xBF }

  /** The UTF-8 encoding of one scalar value. */
  function EncodeChar(c: char): (b: seq<Byte>)
    ensures 1 <= |b| <= 4
    ensures |b| == 1 <==> c as int < 0x80
  {
    var cp := c as int;
    if cp < 0x80 then [cp]
    else if cp < 0x800 then [0xC0 + cp / 64, 0x80 + cp % 64]
    else if cp < 0x10000 then
      var y := cp / 64;
      [0xE0 + y / 64, 0x80 + y % 64, 0x80 + cp % 64]
    else
      var y := cp / 64;
      var z := y / 64;
      [0xF0 + z / 64, 0x80 + z % 64, 0x80 + y % 64, 0x80 + cp % 64]
  }

  /** `s.encode()` */
  function Encode(s: string): seq<Byte> {
    if s == [] then [] else EncodeChar(s[0]) + Encode(s[1..])
  }

  /** Decodes the first well-formed sequence of `b`: the character and the bytes it takes. */
  function DecodeFirst(b: seq<Byte>): (r: Option<(char, nat)>)
    requires |b| > 0
    ensures r.Some? ==> 1 <= r.value.1 <= |b|
  {
    var b0: int := b[0];
    if b0 < 0x80 then Some((b0 as char, 1))
    else if 0xC2 <= b0 <= 0xDF then
      if |b| >= 2 && IsContinuation(b[1]) then
        Some((((b0 - 0xC0) * 64 + (b[1] as int - 0x80)) as char, 2))
      else None
    else if 0xE0 <= b0 <= 0xEF then
      var lo := if b0 == 0xE0 then 0xA0 else 0x80;
      var hi := if b0 == 0xED then 0x9F else 0xBF;
      if |b| >= 3 && lo <= b[1] <= hi && IsContinuation(b[2]) then
        Some((((b0 - 0xE0) * 4096 + (b[1] as int - 0x80) * 64 + (b[2] as int - 0x80)) as char, 3))
      else None
    else if 0xF0 <= b0 <= 0xF4 then
      var lo := if b0 == 0xF0 then 0x90 else 0x80;
      var hi := if b0 == 0xF4 then 0x8F else 0xBF;
      if |b| >= 4 && lo <= b[1] <= hi && IsContinuation(b[2]) && IsContinuation(b[3]) then
        Some((((b0 - 0xF0) * 262144 + (b[1] as int - 0x80) * 4096 + (b[2] as int - 0x80) * 64 + (b[3] as int - 0x80)) as char, 4))
      else None
    else None
  }

  /** `b.decode()`: `None` stands for the `UnicodeDecodeError` Python raises. */
  function Decode(b: seq<Byte>): Option<string>
    decreases |b|
  {
    if b == [] then Some([])
    else match DecodeFirst(b)
      case None => None
      case Some((c, n)) =>
        match Decode(b[n..])
        case None => None
        case Some(rest) => Some([c] + rest)
  }

  /** The bytes of an ASCII string, one per character. */
  function AsciiBytes(s: string): (b: seq<Byte>)
    requires PyText.IsAscii(s)
    ensures |b| == |s|
  {
    seq(|s|, i requires 0 <= i < |s| => s[i] as int)
  }

  lemma DecodeFirstEncodeChar(c: char, rest: seq<Byte>)
    ensures DecodeFirst(EncodeChar(c) + rest) == Some((c, |EncodeChar(c)|))
  {
    var cp := c as int;
    var e := EncodeChar(c) + rest;
    if cp < 0x80 {
    } else if cp < 0x800 {
      TwoByteChar(cp, e);
    } else if cp < 0x10000 {
      ThreeByteChar(cp, e);
    } else {
      FourByteChar(cp, e);
    }
  }

  lemma TwoByteChar(cp: int, e: seq<Byte>)
    requires 0x80 <= cp < 0x800
    requires |e| >= 2 && e[0] == 0xC0 + cp / 64 && e[1] == 0x80 + cp % 64
    ensures DecodeFirst(e) == Some((cp as char, 2))
  {
    assert (e[0] as int - 0xC0) * 64 + (e[1] as int - 0x80) == cp;
  }

  lemma ThreeByteChar(cp: int, e: seq<Byte>)
    requires 0x800 <= cp < 0x10000 && !(0xD800 <= cp < 0xE000)
    requires |e| >= 3 && e[0] == 0xE0 + (cp / 64) / 64 && e[1] == 0x80 + (cp / 64) % 64
    requires e[2] == 0x80 + cp % 64
    ensures DecodeFirst(e) == Some((cp as char, 3))
  {
    var y := cp / 64;
    assert cp == 64 * y + cp % 64;
    assert y == 64 * (y / 64) + y % 64;
    assert (e[0] as int - 0xE0) * 4096 + (e[1] as int - 0x80) * 64 + (e[2] as int - 0x80) == cp;
    assert e[0] == 0xE0 ==> e[1] >= 0xA0;
    assert e[0] == 0xED ==> e[1] <= 0x9F;
  }

  lemma FourByteChar(cp: int, e: seq<Byte>)
    requires 0x10000 <= cp < 0x110000
    requires |e| >= 4 && e[0] == 0xF0 + ((cp / 64) / 64) / 64 && e[1] == 0x80 + ((cp / 64) / 64) % 64
    requires e[2] == 0x80 + (cp / 64) % 64 && e[3] == 0x80 + cp % 64
    ensures DecodeFirst(e) == Some((cp as char, 4))
  {
    var y := cp / 64;
    var z := y / 64;
    assert cp == 64 * y + cp % 64;
    assert y == 64 * z + y % 64;
    assert z == 64 * (z / 64) + z % 64;
    assert (e[0] as int - 0xF0) * 262144 + (e[1] as int - 0x80) * 4096 + (e[2] as int - 0x80) * 64 + (e[3] as int - 0x80) == cp;
    assert e[0] == 0xF0 ==> e[1] >= 0x90;
    assert e[0] == 0xF4 ==> e[1] <= 0x8F;
  }

  /** Decoding inverts encoding: every string survives `s.encode().decode()`. */
  lemma {:induction false} DecodeEncode(s: string)
    ensures Decode(Encode(s)) == Some(s)
  {
    if s != [] {
      var e, tail := EncodeChar(s[0]), Encode(s[1..]);
      assert Encode(s) == e + tail;
      DecodeFirstEncodeChar(s[0], tail);
      DecodeEncode(s[1..]);
      assert (e + tail)[|e|..] == tail;
      assert [s[0]] + s[1..] == s;
    }
  }

  /** Only well-formed UTF-8 decodes, and it decodes to the text that encodes back to it:
      every byte sequence `b.decode()` accepts is `s.encode()` of its result. */
  lemma {:induction false} EncodeDecode(b: seq<Byte>)
    requires Decode(b).Some?
    ensures Encode(Decode(b).value) == b
    decreases |b|
  {
    if b != [] {
      var n := DecodeFirst(b).value.1;
      DecodeStep(b);
      EncodeDecode(b[n..]);
      assert b == b[..n] + b[n..];
    }
  }

  /** Encoding a successful decoding gives the bytes of the first character, then the
      encoding of the decoding of the rest. */
  lemma DecodeStep(b: seq<Byte>)
    requires b != [] && Decode(b).Some?
    ensures DecodeFirst(b).Some? && Decode(b[DecodeFirst(b).value.1..]).Some?
    ensures Encode(Decode(b).value)
      == b[..DecodeFirst(b).value.1] + Encode(Decode(b[DecodeFirst(b).value.1..]).value)
  {
    DecodeCons(b);
    EncodeDecodeFirst(b);
    var n := DecodeFirst(b).value.1;
    EncodeCons(Decode(b).value, b[..n], Encode(Decode(b[n..]).value));
  }

  lemma EncodeCons(s: string, head: seq<Byte>, tail: seq<Byte>)
    requires s != [] && EncodeChar(s[0]) == head && Encode(s[1..]) == tail
    ensures Encode(s) == head + tail
  {
  }

  /** A successful decoding is the first character followed by the decoding of the rest. */
  lemma DecodeCons(b: seq<Byte>)
    requires b != [] && Decode(b).Some?
    ensures DecodeFirst(b).Some? && Decode(b[DecodeFirst(b).value.1..]).Some?
    ensures var s := Decode(b).value;
      s != [] && s[0] == DecodeFirst(b).value.0 && s[1..] == Decode(b[DecodeFirst(b).value.1..]).value
  {
    var n := DecodeFirst(b).value.1;
    assert Decode(b).value == [DecodeFirst(b).value.0] + Decode(b[n..]).value;
  }

  /** The character read from the front of `b` encodes to exactly the bytes it took. */
  lemma EncodeDecodeFirst(b: seq<Byte>)
    requires |b| > 0 && DecodeFirst(b).Some?
    ensures EncodeChar(DecodeFirst(b).value.0) == b[..DecodeFirst(b).value.1]
  {
    if b[0] < 0x80 {
    } else if 0xC2 <= b[0] <= 0xDF {
      EncodeTwoBytes(b);
    } else if 0xE0 <= b[0] <= 0xEF {
      EncodeThreeBytes(b);
    } else {
      EncodeFourBytes(b);
    }
  }

  lemma EncodeTwoBytes(b: seq<Byte>)
    requires |b| > 0 && 0xC2 <= b[0] <= 0xDF && DecodeFirst(b).Some?
    ensures EncodeChar(DecodeFirst(b).value.0) == b[..2]
  {
    var cp := (b[0] as int - 0xC0) * 64 + (b[1] as int - 0x80);
    DivMod64(b[0] as int - 0xC0, b[1] as int - 0x80);
    assert DecodeFirst(b).value.0 as int == cp;
  }

  lemma EncodeThreeBytes(b: seq<Byte>)
    requires |b| > 0 && 0xE0 <= b[0] <= 0xEF && DecodeFirst(b).Some?
    ensures EncodeChar(DecodeFirst(b).value.0) == b[..3]
  {
    var y := (b[0] as int - 0xE0) * 64 + (b[1] as int - 0x80);
    var cp := y * 64 + (b[2] as int - 0x80);
    DivMod64(y, b[2] as int - 0x80);
    DivMod64(b[0] as int - 0xE0, b[1] as int - 0x80);
    assert DecodeFirst(b).value.0 as int == cp;
  }

  lemma EncodeFourBytes(b: seq<Byte>)
    requires |b| > 0 && 0xF0 <= b[0] && DecodeFirst(b).Some?
    ensures EncodeChar(DecodeFirst(b).value.0) == b[..4]
  {
    var z := (b[0] as int - 0xF0) * 64 + (b[1] as int - 0x80);
    var y := z * 64 + (b[2] as int - 0x80);
    var cp := y * 64 + (b[3] as int - 0x80);
    DivMod64(y, b[3] as int - 0x80);
    DivMod64(z, b[2] as int - 0x80);
    DivMod64(b[0] as int - 0xF0, b[1] as int - 0x80);
    assert DecodeFirst(b).value.0 as int == cp;
  }

  lemma DivMod64(q: int, r: int)
    requires 0 <= r < 64
    ensures (64 * q + r) / 64 == q && (64 * q + r) % 64 == r
    ensures (q * 64 + r) / 64 == q && (q * 64 + r) % 64 == r
  {
  }

  /** On ASCII text the encoding is one byte per character, equal to the code. */
  lemma {:induction false} EncodeAscii(s: string)
    requires PyText.IsAscii(s)
    ensures Encode(s) == AsciiBytes(s)
  {
    if s != [] {
      assert PyText.IsAscii(s[1..]) by {
        forall i | 0 <= i < |s[1..]| ensures s[1..][i] as int < 128 { assert s[1..][i] == s[i + 1]; }
      }
      EncodeAscii(s[1..]);
      assert s[0] as int < 128;
    }
  }
}
