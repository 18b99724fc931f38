/** The pieces of Python's text and hex handling that the core relies on:
    `bytes.fromhex`, `binascii.unhexlify`, `bytes.hex()`, `str(int)` and the
    `0Nd` / `0Nx` format specifications. */
module PyText {
  import opened Results
  import opened Bytes

  /** Errors raised while decoding hex text. */
  datatype HexError =
    | NonHexadecimalNumber   // bytes.fromhex: a character that is neither hex nor between-pair whitespace
    | NonAsciiArgument       // binascii.unhexlify: str argument with a non-ASCII character
    | OddLengthString        // binascii.unhexlify: odd number of characters
    | NonHexadecimalDigit    // binascii.unhexlify: a non-hex character
  {
    function Message(): string {
      match this
      case NonHexadecimalNumber => "non-hexadecimal number found in fromhex() arg"
      case NonAsciiArgument => "string argument should contain only ASCII characters"
      case OddLengthString => "Odd-length string"
      case NonHexadecimalDigit => "Non-hexadecimal digit found"
    }
  }

  // ---------------------------------------------------------------- characters

  predicate IsDecimalDigit(c: char) { '0' <= c <= '9' }

  predicate IsHexDigit(c: char) {
    '0' <= c <= '9' || 'a' <= c <= 'f' || 'A' <= c <= 'F'
  }

  predicate AllHex(s: string) { forall i :: 0 <= i < |s| ==> IsHexDigit(s[i]) }

  predicate AllDecimal(s: string) { forall i :: 0 <= i < |s| ==> IsDecimalDigit(s[i]) }

  predicate IsAscii(s: string) { forall i :: 0 <= i < |s| ==> s[i] as int < 128 }

  /** The characters `bytes.fromhex` skips between byte pairs (ASCII whitespace). */
  predicate IsPyWhitespace(c: char) {
    c == ' ' || c == '\t' || c == '\n' || c == '\r' || c == '\U{0B}' || c == '\U{0C}'
  }

  predicate NoWhitespace(s: string) { forall i :: 0 <= i < |s| ==> !IsPyWhitespace(s[i]) }

  /** No letter of `s` is uppercase, as after `str.lower()`. */
  predicate NoUppercase(s: string) { forall i :: 0 <= i < |s| ==> !('A' <= s[i] <= 'Z') }

  /** No letter of `s` is lowercase, as after `str.upper()`. */
  predicate NoLowercase(s: string) { forall i :: 0 <= i < |s| ==> !('a' <= s[i] <= 'z') }

  /** Python's `str.isdigit` restricted to ASCII: non-empty and all of `0`-`9`. */
  predicate IsDigitString(s: string) { |s| > 0 && AllDecimal(s) }

  function HexValue(c: char): (v: nat)
    requires IsHexDigit(c)
    ensures v < 16
    ensures IsDecimalDigit(c) ==> v == c as int - '0' as int
  {
    if '0' <= c <= '9' then c as int - '0' as int
    else if 'a' <= c <= 'f' then c as int - 'a' as int + 10
    else c as int - 'A' as int + 10
  }

  function LowerDigit(d: nat): (c: char)
    requires d < 16
    ensures IsHexDigit(c) && HexValue(c) == d
    ensures d < 10 <==> IsDecimalDigit(c)
    ensures !('A' <= c <= 'Z')
  {
    "0123456789abcdef"[d]
  }

  /** `.upper()` applied to the lowercase digit. */
  function UpperDigit(d: nat): (c: char)
    requires d < 16
    ensures IsHexDigit(c) && HexValue(c) == d
    ensures d < 10 <==> IsDecimalDigit(c)
    ensures !('a' <= c <= 'z')
  {
    var l := LowerDigit(d);
    if 'a' <= l <= 'f' then (l as int - 32) as char else l
  }

  /** Hex-ness and absence of whitespace hold of a concatenation exactly when of both parts. */
  lemma TextConcat(a: string, b: string)
    ensures AllHex(a + b) <==> AllHex(a) && AllHex(b)
    ensures NoWhitespace(a + b) <==> NoWhitespace(a) && NoWhitespace(b)
  {
    var c := a + b;
    if AllHex(a) && AllHex(b) {
      forall i | 0 <= i < |c| ensures IsHexDigit(c[i]) { if i >= |a| { assert c[i] == b[i - |a|]; } }
    }
    if NoWhitespace(a) && NoWhitespace(b) {
      forall i | 0 <= i < |c| ensures !IsPyWhitespace(c[i]) { if i >= |a| { assert c[i] == b[i - |a|]; } }
    }
    if AllHex(c) {
      forall i | 0 <= i < |a| ensures IsHexDigit(a[i]) { assert a[i] == c[i]; }
      forall i | 0 <= i < |b| ensures IsHexDigit(b[i]) { assert b[i] == c[i + |a|]; }
    }
    if NoWhitespace(c) {
      forall i | 0 <= i < |a| ensures !IsPyWhitespace(a[i]) { assert a[i] == c[i]; }
      forall i | 0 <= i < |b| ensures !IsPyWhitespace(b[i]) { assert b[i] == c[i + |a|]; }
    }
  }

  // ---------------------------------------------------------------- hex decoding

  /** `bytes.fromhex(s)`: whitespace is skipped before each byte pair, never inside one. */
  function FromHex(s: string): Result<seq<Byte>, HexError>
    decreases |s|
  {
    if s == [] then Ok([])
    else if IsPyWhitespace(s[0]) then FromHex(s[1..])
    else if |s| >= 2 && IsHexDigit(s[0]) && IsHexDigit(s[1]) then
      var rest :- FromHex(s[2..]);
      Ok([HexValue(s[0]) * 16 + HexValue(s[1])] + rest)
    else Err(NonHexadecimalNumber)
  }

  /** `binascii.unhexlify(s)` for a `str` argument. */
  function Unhexlify(s: string): Result<seq<Byte>, HexError> {
    if !IsAscii(s) then Err(NonAsciiArgument)
    else if |s| % 2 == 1 then Err(OddLengthString)
    else UnhexlifyPairs(s)
  }

  function UnhexlifyPairs(s: string): Result<seq<Byte>, HexError>
    requires |s| % 2 == 0
    decreases |s|
  {
    if s == [] then Ok([])
    else if IsHexDigit(s[0]) && IsHexDigit(s[1]) then
      var rest :- UnhexlifyPairs(s[2..]);
      Ok([HexValue(s[0]) * 16 + HexValue(s[1])] + rest)
    else Err(NonHexadecimalDigit)
  }

  /** The bytes an even-length string of hex digits denotes, two digits per byte. */
  predicate DenotesBytes(s: string, b: seq<Byte>)
    requires AllHex(s)
  {
    |s| == 2 * |b| &&
    forall i :: 0 <= i < |b| ==> b[i] == HexValue(s[2 * i]) * 16 + HexValue(s[2 * i + 1])
  }

  lemma {:induction false} DenotesBytesCons(s: string, b: seq<Byte>)
    requires |s| >= 2 && AllHex(s) && |b| >= 1
    requires b[0] == HexValue(s[0]) * 16 + HexValue(s[1])
    requires DenotesBytes(s[2..], b[1..])
    ensures DenotesBytes(s, b)
  {
    forall i | 0 <= i < |b|
      ensures b[i] == HexValue(s[2 * i]) * 16 + HexValue(s[2 * i + 1])
    {
      if i > 0 {
        assert b[1..][i - 1] == b[i];
        assert s[2..][2 * (i - 1)] == s[2 * i] && s[2..][2 * (i - 1) + 1] == s[2 * i + 1];
      }
    }
  }

  /** On text without whitespace, `bytes.fromhex` succeeds exactly on even-length hex,
      and then yields the bytes the digit pairs denote. */
  lemma {:induction false} FromHexPlain(s: string)
    requires NoWhitespace(s)
    ensures FromHex(s).Ok? <==> |s| % 2 == 0 && AllHex(s)
    ensures FromHex(s).Ok? ==> DenotesBytes(s, FromHex(s).value)
    decreases |s|
  {
    if s == [] {
    } else if |s| >= 2 && IsHexDigit(s[0]) && IsHexDigit(s[1]) {
      PairSuffix(s);
      FromHexPlain(s[2..]);
      if |s[2..]| % 2 == 0 && AllHex(s[2..]) {
        var b := FromHex(s).value;
        assert b[1..] == FromHex(s[2..]).value;
        DenotesBytesCons(s, b);
      }
    } else {
      assert !IsPyWhitespace(s[0]);
    }
  }

  /** After a leading pair of hex digits, the text is all hex exactly when the rest is,
      and the rest keeps the absence of whitespace. */
  lemma PairSuffix(s: string)
    requires |s| >= 2 && IsHexDigit(s[0]) && IsHexDigit(s[1])
    ensures AllHex(s) <==> AllHex(s[2..])
    ensures NoWhitespace(s) ==> NoWhitespace(s[2..])
  {
    assert s == s[..2] + s[2..];
    assert AllHex(s[..2]) by {
      forall i | 0 <= i < 2 ensures IsHexDigit(s[..2][i]) { assert s[..2][i] == s[i]; }
    }
    TextConcat(s[..2], s[2..]);
  }

  /** The only error `bytes.fromhex` raises is the non-hexadecimal one. */
  lemma {:induction false} FromHexErrorKind(s: string)
    ensures FromHex(s).Err? ==> FromHex(s).error == NonHexadecimalNumber
    decreases |s|
  {
    if s != [] {
      if IsPyWhitespace(s[0]) {
        FromHexErrorKind(s[1..]);
      } else if |s| >= 2 && IsHexDigit(s[0]) && IsHexDigit(s[1]) {
        FromHexErrorKind(s[2..]);
      }
    }
  }

  lemma {:induction false} UnhexlifyPairsCorrect(s: string)
    requires |s| % 2 == 0
    ensures UnhexlifyPairs(s).Ok? <==> AllHex(s)
    ensures UnhexlifyPairs(s).Ok? ==> DenotesBytes(s, UnhexlifyPairs(s).value)
    ensures UnhexlifyPairs(s).Err? ==> UnhexlifyPairs(s).error == NonHexadecimalDigit
    decreases |s|
  {
    if s != [] {
      UnhexlifyPairsCorrect(s[2..]);
      if IsHexDigit(s[0]) && IsHexDigit(s[1]) {
        if AllHex(s[2..]) {
          assert AllHex(s) by {
            forall i | 0 <= i < |s| ensures IsHexDigit(s[i]) { if i >= 2 { assert s[i] == s[2..][i - 2]; } }
          }
          var b := UnhexlifyPairs(s).value;
          assert b[1..] == UnhexlifyPairs(s[2..]).value;
          DenotesBytesCons(s, b);
        } else {
          var j :| 0 <= j < |s[2..]| && !IsHexDigit(s[2..][j]);
          assert s[j + 2] == s[2..][j];
        }
      }
    }
  }

  /** `binascii.unhexlify` fails on non-ASCII text first, then on odd length, then on a
      non-hex character, and otherwise decodes every digit pair. */
  lemma UnhexlifyCorrect(s: string)
    ensures !IsAscii(s) ==> Unhexlify(s) == Err(NonAsciiArgument)
    ensures IsAscii(s) && |s| % 2 == 1 ==> Unhexlify(s) == Err(OddLengthString)
    ensures IsAscii(s) && |s| % 2 == 0 && !AllHex(s) ==> Unhexlify(s) == Err(NonHexadecimalDigit)
    ensures Unhexlify(s).Ok? <==> |s| % 2 == 0 && AllHex(s)
    ensures Unhexlify(s).Ok? ==> DenotesBytes(s, Unhexlify(s).value)
  {
    if |s| % 2 == 0 {
      UnhexlifyPairsCorrect(s);
      if AllHex(s) {
        assert IsAscii(s) by {
          forall i | 0 <= i < |s| ensures s[i] as int < 128 { assert IsHexDigit(s[i]); }
        }
      }
    }
  }

  // ---------------------------------------------------------------- hex encoding

  /** `b.hex()`: two lowercase digits per byte. */
  function HexLower(b: seq<Byte>): (s: string)
    ensures |s| == 2 * |b|
  {
    if b == [] then [] else [LowerDigit(b[0] / 16), LowerDigit(b[0] % 16)] + HexLower(b[1..])
  }

  /** `b.hex().upper()`: two uppercase digits per byte. */
  function HexUpper(b: seq<Byte>): (s: string)
    ensures |s| == 2 * |b|
  {
    if b == [] then [] else [UpperDigit(b[0] / 16), UpperDigit(b[0] % 16)] + HexUpper(b[1..])
  }

  /** Hex digits are ASCII and are not whitespace. */
  lemma AllHexIsPlain(s: string)
    requires AllHex(s)
    ensures NoWhitespace(s) && IsAscii(s)
  {
    forall i | 0 <= i < |s| ensures !IsPyWhitespace(s[i]) && s[i] as int < 128 {
      assert IsHexDigit(s[i]);
    }
  }

  /** Hex encoding yields hex digits without whitespace that denote the encoded bytes. */
  lemma {:induction false} HexLowerDenotes(b: seq<Byte>)
    ensures AllHex(HexLower(b)) && NoWhitespace(HexLower(b)) && IsAscii(HexLower(b))
    ensures DenotesBytes(HexLower(b), b)
    ensures NoUppercase(HexLower(b))
  {
    HexLowerDigits(b);
    if b != [] {
      HexLowerDenotes(b[1..]);
      var s := HexLower(b);
      assert s[2..] == HexLower(b[1..]);
      DenotesBytesCons(s, b);
    }
    AllHexIsPlain(HexLower(b));
  }

  lemma {:induction false} HexLowerDigits(b: seq<Byte>)
    ensures AllHex(HexLower(b)) && NoUppercase(HexLower(b))
  {
    if b != [] {
      HexLowerDigits(b[1..]);
      var s := HexLower(b);
      assert s[2..] == HexLower(b[1..]);
      forall i | 0 <= i < |s| ensures IsHexDigit(s[i]) && !('A' <= s[i] <= 'Z') {
        if i >= 2 { assert s[i] == s[2..][i - 2]; }
      }
    }
  }

  lemma {:induction false} HexUpperDenotes(b: seq<Byte>)
    ensures AllHex(HexUpper(b)) && NoWhitespace(HexUpper(b)) && IsAscii(HexUpper(b))
    ensures DenotesBytes(HexUpper(b), b)
    ensures NoLowercase(HexUpper(b))
  {
    HexUpperDigits(b);
    if b != [] {
      HexUpperDenotes(b[1..]);
      var s := HexUpper(b);
      assert s[2..] == HexUpper(b[1..]);
      DenotesBytesCons(s, b);
    }
    AllHexIsPlain(HexUpper(b));
  }

  lemma {:induction false} HexUpperDigits(b: seq<Byte>)
    ensures AllHex(HexUpper(b)) && NoLowercase(HexUpper(b))
  {
    if b != [] {
      HexUpperDigits(b[1..]);
      var s := HexUpper(b);
      assert s[2..] == HexUpper(b[1..]);
      forall i | 0 <= i < |s| ensures IsHexDigit(s[i]) && !('a' <= s[i] <= 'z') {
        if i >= 2 { assert s[i] == s[2..][i - 2]; }
      }
    }
  }

  /** Two byte strings denoted by the same hex text are equal. */
  lemma DenotesUnique(s: string, b1: seq<Byte>, b2: seq<Byte>)
    requires AllHex(s) && DenotesBytes(s, b1) && DenotesBytes(s, b2)
    ensures b1 == b2
  {
  }

  /** Decoding undoes encoding, for both decoders the core uses. */
  lemma HexRoundTrip(b: seq<Byte>)
    ensures FromHex(HexLower(b)) == Ok(b) && FromHex(HexUpper(b)) == Ok(b)
    ensures Unhexlify(HexLower(b)) == Ok(b) && Unhexlify(HexUpper(b)) == Ok(b)
  {
    HexLowerDenotes(b);
    HexUpperDenotes(b);
    DenotingTextDecodes(HexLower(b), b);
    DenotingTextDecodes(HexUpper(b), b);
  }

  /** Plain hex text that denotes `b` decodes to `b` under both decoders. */
  lemma DenotingTextDecodes(s: string, b: seq<Byte>)
    requires AllHex(s) && NoWhitespace(s) && DenotesBytes(s, b)
    ensures FromHex(s) == Ok(b) && Unhexlify(s) == Ok(b)
  {
    FromHexPlain(s);
    UnhexlifyCorrect(s);
    DenotesUnique(s, b, FromHex(s).value);
    DenotesUnique(s, b, Unhexlify(s).value);
  }

  // ---------------------------------------------------------------- numerals

  function Pow(base: nat, k: nat): nat {
    if k == 0 then 1 else base * Pow(base, k - 1)
  }

  /** The digits of `n` in `base`, most significant first, without leading zeros. */
  function Numeral(n: nat, base: nat): (ds: seq<nat>)
    requires 2 <= base <= 16
    ensures |ds| >= 1
    ensures forall i :: 0 <= i < |ds| ==> ds[i] < base
    decreases n
  {
    if n < base then [n] else Numeral(n / base, base) + [n % base]
  }

  /** The number a string of digits denotes in `base`. */
  function TextValue(s: string, base: nat): nat
    requires AllHex(s)
  {
    if s == [] then 0 else TextValue(s[..|s| - 1], base) * base + HexValue(s[|s| - 1])
  }

  /** The digit characters of a numeral (lowercase for digits above 9). */
  function DigitText(ds: seq<nat>): (s: string)
    requires forall i :: 0 <= i < |ds| ==> ds[i] < 16
    ensures |s| == |ds|
    ensures forall i :: 0 <= i < |ds| ==> s[i] == LowerDigit(ds[i])
  {
    if ds == [] then [] else DigitText(ds[..|ds| - 1]) + [LowerDigit(ds[|ds| - 1])]
  }

  /** Pads `s` on the left with `0` up to `width` characters. */
  function ZeroPad(s: string, width: int): (r: string)
    ensures |r| == if |s| >= width then |s| else width
  {
    if |s| >= width then s else seq(width - |s|, _ => '0') + s
  }

  /** `str(n)` for a non-negative `n`. */
  function DecimalText(n: nat): string { DigitText(Numeral(n, 10)) }

  /** `format(n, "x")` for a non-negative `n`. */
  function HexText(n: nat): string { DigitText(Numeral(n, 16)) }

  /** `f"{n:0{width}d}"`: sign-aware zero padding, the sign counting toward the width. */
  function FormatDecimal(n: int, width: nat): string {
    if n < 0 then "-" + ZeroPad(DecimalText(-n), width - 1) else ZeroPad(DecimalText(n), width)
  }

  /** `f"{n:0{width}x}"` for a non-negative `n`. */
  function FormatHex(n: nat, width: nat): string { ZeroPad(HexText(n), width) }

  /** `str(n)` for any Python int. */
  function PyStr(n: int): string {
    if n < 0 then "-" + DecimalText(-n) else DecimalText(n)
  }

  lemma {:induction false} NumeralValue(n: nat, base: nat)
    requires 2 <= base <= 16
    ensures AllHex(DigitText(Numeral(n, base)))
    ensures TextValue(DigitText(Numeral(n, base)), base) == n
    decreases n
  {
    if n >= base {
      var q, r := n / base, n % base;
      DivModIdentity(n, base);
      NumeralValue(q, base);
      var ds := Numeral(q, base);
      assert Numeral(n, base) == ds + [r];
      var t := DigitText(ds);
      DigitTextSnoc(ds, r);
      TextValueSnoc(t, LowerDigit(r), base);
    }
  }

  lemma DivModIdentity(n: nat, base: nat)
    requires 2 <= base
    ensures (n / base) * base + n % base == n
    ensures n >= base ==> n / base < n
    ensures n % base < base
  {
  }

  lemma DigitTextSnoc(ds: seq<nat>, d: nat)
    requires forall i :: 0 <= i < |ds| ==> ds[i] < 16
    requires d < 16
    ensures DigitText(ds + [d]) == DigitText(ds) + [LowerDigit(d)]
  {
    assert (ds + [d])[..|ds|] == ds;
  }

  lemma TextValueSnoc(t: string, c: char, base: nat)
    requires AllHex(t) && IsHexDigit(c)
    ensures AllHex(t + [c])
    ensures TextValue(t + [c], base) == TextValue(t, base) * base + HexValue(c)
  {
    assert (t + [c])[..|t|] == t;
  }

  lemma {:induction false} NumeralShort(n: nat, base: nat, k: nat)
    requires 2 <= base <= 16 && 1 <= k
    ensures n < Pow(base, k) <==> |Numeral(n, base)| <= k
    decreases n
  {
    if n >= base {
      var q := n / base;
      DivModIdentity(n, base);
      assert |Numeral(n, base)| == |Numeral(q, base)| + 1;
      if k == 1 {
        assert Pow(base, 1) == base by { assert Pow(base, 0) == 1; }
      } else {
        NumeralShort(q, base, k - 1);
        QuotientBound(n, base, Pow(base, k - 1));
      }
    } else {
      PowAtLeast(base, k);
    }
  }

  lemma QuotientBound(n: nat, base: nat, p: nat)
    requires 2 <= base
    ensures n < base * p <==> n / base < p
  {
    var q, r := n / base, n % base;
    DivModIdentity(n, base);
    if q < p {
      MulMonotone(q + 1, p, base);
      assert n < (q + 1) * base;
    } else {
      MulMonotone(p, q, base);
      assert n >= q * base;
    }
  }

  lemma MulMonotone(a: nat, b: nat, c: nat)
    requires a <= b
    ensures a * c <= b * c
  {
  }

  lemma MulAssoc(a: nat, b: nat, c: nat)
    ensures a * (b * c) == (a * b) * c
  {
  }

  lemma {:induction false} PowAdd(base: nat, a: nat, b: nat)
    ensures Pow(base, a + b) == Pow(base, a) * Pow(base, b)
  {
    if a > 0 {
      PowAdd(base, a - 1, b);
      var x, y := Pow(base, a - 1), Pow(base, b);
      calc {
        Pow(base, a + b);
        base * Pow(base, a - 1 + b);
        base * (x * y);
        { MulAssoc(base, x, y); }
        (base * x) * y;
      }
    }
  }

  lemma {:induction false} PowAtLeast(base: nat, k: nat)
    requires 2 <= base && 1 <= k
    ensures Pow(base, k) >= base
  {
    if k > 1 { PowAtLeast(base, k - 1); }
  }

  lemma {:induction false} ZeroPrefixValue(z: nat, s: string, base: nat)
    requires AllHex(s)
    ensures AllHex(seq(z, _ => '0') + s)
    ensures TextValue(seq(z, _ => '0') + s, base) == TextValue(s, base)
    decreases |s|
  {
    var zs: string := seq(z, _ => '0');
    var t := zs + s;
    assert AllHex(t) by {
      forall i | 0 <= i < |t| ensures IsHexDigit(t[i]) { if i >= z { assert t[i] == s[i - z]; } }
    }
    if s == [] {
      assert t == zs;
      ZeroesValue(z, base);
    } else {
      ZeroPrefixValue(z, s[..|s| - 1], base);
      assert t[..|t| - 1] == zs + s[..|s| - 1];
    }
  }

  lemma {:induction false} ZeroesValue(z: nat, base: nat)
    ensures AllHex(seq(z, _ => '0'))
    ensures TextValue(seq(z, _ => '0'), base) == 0
  {
    if z > 0 {
      ZeroesValue(z - 1, base);
      var zs: string := seq(z, _ => '0');
      assert zs[..z - 1] == seq(z - 1, _ => '0');
    }
  }

  /** `f"{n:0{width}x}"` of a number below `16^width` is exactly `width` lowercase hex
      digits, which read back as `n`. */
  lemma FormatHexFixed(n: nat, width: nat)
    requires 1 <= width && n < Pow(16, width)
    ensures |FormatHex(n, width)| == width
    ensures AllHex(FormatHex(n, width)) && NoWhitespace(FormatHex(n, width))
    ensures NoUppercase(FormatHex(n, width))
    ensures TextValue(FormatHex(n, width), 16) == n
  {
    NumeralShort(n, 16, width);
    NumeralValue(n, 16);
    ZeroPadValue(HexText(n), width, 16);
    AllHexIsPlain(FormatHex(n, width));
    FormatHexLowercase(n, width);
  }

  /** The `x` presentation type writes its letter digits in lowercase. */
  lemma FormatHexLowercase(n: nat, width: nat)
    ensures NoUppercase(FormatHex(n, width))
  {
    var h := HexText(n);
    var r := FormatHex(n, width);
    forall i | 0 <= i < |r| ensures !('A' <= r[i] <= 'Z') {
      if |h| < width && i < width - |h| {
        assert r[i] == '0';
      } else {
        var j := if |h| < width then i - (width - |h|) else i;
        assert r[i] == h[j] == LowerDigit(Numeral(n, 16)[j]);
      }
    }
  }

  /** Zero padding keeps a numeral hex and keeps its value. */
  lemma ZeroPadValue(h: string, width: nat, base: nat)
    requires AllHex(h)
    ensures AllHex(ZeroPad(h, width)) && TextValue(ZeroPad(h, width), base) == TextValue(h, base)
  {
    if |h| < width {
      ZeroPrefixValue(width - |h|, h, base);
      assert ZeroPad(h, width) == seq(width - |h|, _ => '0') + h;
    }
  }

  lemma DecimalTextDigits(n: nat)
    ensures IsDigitString(DecimalText(n))
  {
    var ds := Numeral(n, 10);
    var d := DecimalText(n);
    forall i | 0 <= i < |d| ensures IsDecimalDigit(d[i]) {
      assert ds[i] < 10;
      assert d[i] == LowerDigit(ds[i]);
    }
  }

  lemma ZeroPadDecimal(d: string, width: int)
    requires AllDecimal(d)
    ensures AllDecimal(ZeroPad(d, width))
  {
    var r := ZeroPad(d, width);
    if |d| < width {
      forall i | 0 <= i < |r| ensures IsDecimalDigit(r[i]) {
        if i >= width - |d| { assert r[i] == d[i - (width - |d|)]; }
      }
    }
  }

  /** `f"{n:02x}"` of a byte value is two lowercase hex digits that read back as `n`. */
  lemma FormatHexByte(n: nat)
    requires n < 256
    ensures |FormatHex(n, 2)| == 2 && AllHex(FormatHex(n, 2)) && NoWhitespace(FormatHex(n, 2))
    ensures NoUppercase(FormatHex(n, 2))
    ensures TextValue(FormatHex(n, 2), 16) == n
  {
    assert Pow(16, 2) == 256 by { assert Pow(16, 1) == 16 by { assert Pow(16, 0) == 1; } }
    FormatHexFixed(n, 2);
  }

  /** `f"{n:04x}"` of a 16-bit value is four lowercase hex digits that read back as `n`. */
  lemma FormatHexWord(n: nat)
    requires n < 65536
    ensures |FormatHex(n, 4)| == 4 && AllHex(FormatHex(n, 4)) && NoWhitespace(FormatHex(n, 4))
    ensures NoUppercase(FormatHex(n, 4))
    ensures TextValue(FormatHex(n, 4), 16) == n
  {
    assert Pow(16, 4) == 65536 by {
      assert Pow(16, 2) == 256 by { assert Pow(16, 1) == 16 by { assert Pow(16, 0) == 1; } }
      assert Pow(16, 3) == 16 * Pow(16, 2);
    }
    FormatHexFixed(n, 4);
  }

  /** `f"{n:0{width}d}"` of a number in `0 .. 10^width - 1` is exactly `width` decimal
      digits, which read back as `n`. */
  lemma FormatDecimalFixed(n: int, width: nat)
    requires 1 <= width && 0 <= n < Pow(10, width)
    ensures |FormatDecimal(n, width)| == width
    ensures IsDigitString(FormatDecimal(n, width)) && AllHex(FormatDecimal(n, width))
    ensures TextValue(FormatDecimal(n, width), 10) == n
  {
    NumeralShort(n, 10, width);
    NumeralValue(n, 10);
    DecimalTextDigits(n);
    ZeroPadDecimal(DecimalText(n), width);
    ZeroPadValue(DecimalText(n), width, 10);
  }

  /** A formatted number never contains whitespace. */
  lemma FormatDecimalNoWhitespace(n: int, width: nat)
    ensures NoWhitespace(FormatDecimal(n, width))
  {
    if n < 0 {
      FormatDecimalNegative(n, width);
    } else {
      DecimalTextDigits(n);
      ZeroPadDecimal(DecimalText(n), width);
      var r := FormatDecimal(n, width);
      forall i | 0 <= i < |r| ensures !IsPyWhitespace(r[i]) { assert IsDecimalDigit(r[i]); }
    }
  }

  /** A negative number formats with a leading `-`, so it is never hex text. */
  lemma FormatDecimalNegative(n: int, width: nat)
    requires n < 0
    ensures |FormatDecimal(n, width)| >= 1 && FormatDecimal(n, width)[0] == '-'
    ensures !AllHex(FormatDecimal(n, width)) && NoWhitespace(FormatDecimal(n, width))
  {
    var d := ZeroPad(DecimalText(-n), width - 1);
    DecimalTextDigits(-n);
    ZeroPadDecimal(DecimalText(-n), width - 1);
    SignedText(d);
  }

  /** Digits after a `-` sign form text without whitespace that is not hex. */
  lemma SignedText(d: string)
    requires AllDecimal(d)
    ensures var r := "-" + d; r[0] == '-' && !AllHex(r) && NoWhitespace(r)
  {
    var r := "-" + d;
    assert !IsHexDigit(r[0]);
    forall i | 0 <= i < |r| ensures !IsPyWhitespace(r[i]) {
      if i > 0 { assert r[i] == d[i - 1] && IsDecimalDigit(d[i - 1]); }
    }
  }

  /** `str(n)` is one decimal digit exactly when `n` is between 0 and 9. */
  lemma PyStrSingleDigit(n: int)
    ensures IsDigitString(PyStr(n)) && |PyStr(n)| == 1 <==> 0 <= n <= 9
  {
    if n < 0 {
      assert PyStr(n)[0] == '-';
    } else {
      NumeralShort(n, 10, 1);
      assert Pow(10, 1) == 10 by { assert Pow(10, 0) == 1; }
      if n <= 9 { assert Numeral(n, 10) == [n]; }
    }
  }
}
