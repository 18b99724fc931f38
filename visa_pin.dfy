/** Visa PVV (PIN Verification Value) generation. The single-DES encryption of the
    transformed security parameter (TSP) is the parameter `des`. */
module VisaPin {
  import opened Results
  import opened Bytes
  import opened PyText

  /** `VisaPinError`, one constructor per place the function raises it. */
  datatype VisaPinError =
    | InvalidPan
    | InvalidPin
    | InvalidPvki
    | InvalidPvk
    | TspFormationFailed
    | ExtractionFailed(ciphertextHex: string)
  {
    function Message(): string {
      match this
      case InvalidPan => "Invalid PAN: Must be a string of 12-19 digits."
      case InvalidPin => "Invalid PIN: Must be a string of 4-12 digits."
      case InvalidPvki => "Invalid PVKI: Must be a single digit."
      case InvalidPvk => "Invalid PVK: Must be at least 8 bytes long."
      case TspFormationFailed =>
        "Failed to create TSP block. Ensure PAN, PVKI, and PIN result in a valid hex string."
      case ExtractionFailed(hex) =>
        "Could not extract 4 decimal digits from ciphertext '" + hex + "'. PVV generation failed."
    }
  }

  predicate ValidPan(pan: string) { IsDigitString(pan) && 12 <= |pan| <= 19 }

  predicate ValidPin(pin: string) { IsDigitString(pin) && 4 <= |pin| <= 12 }

  predicate ValidPvki(pvki: string) { IsDigitString(pvki) && |pvki| == 1 }

  /** The TSP: the 11 PAN digits before the check digit (`pan[-12:-1]`), the PVKI and the
      first four PIN digits. */
  function Tsp(pan: string, pvki: string, pin: string): string
    requires |pan| >= 12 && |pin| >= 4
  {
    pan[|pan| - 12..|pan| - 1] + pvki + pin[..4]
  }

  /** `"".join(re.findall(r'\d', s))`: the decimal digits of `s`, in order. */
  function DecimalDigits(s: string): string {
    if s == [] then []
    else (if IsDecimalDigit(s[0]) then [s[0]] else []) + DecimalDigits(s[1..])
  }

  /** The extraction step on the uppercase hex of the ciphertext. */
  function ExtractPvv(ciphertextHex: string): Result<string, VisaPinError> {
    var digits := DecimalDigits(ciphertextHex);
    if |digits| < 4 then Err(ExtractionFailed(ciphertextHex)) else Ok(digits[..4])
  }

  /** `generate_visa_pvv` with the PVKI already converted by `str`. */
  function GenerateVisaPvv(des: BlockCipher, pan: string, pin: string, pvki: string,
                           pvk: seq<Byte>): Result<string, VisaPinError>
  {
    if !ValidPan(pan) then Err(InvalidPan)
    else if !ValidPin(pin) then Err(InvalidPin)
    else if !ValidPvki(pvki) then Err(InvalidPvki)
    else if |pvk| < 8 then Err(InvalidPvk)
    else
      var tsp := Tsp(pan, pvki, pin);
      TspDecodes(pan, pvki, pin);
      match FromHex(tsp)
      case Err(_) => Err(TspFormationFailed)
      case Ok(tspBytes) =>
        var key := pvk[..8];
        var encryptedTsp := des(key, tspBytes);
        ExtractPvv(HexUpper(encryptedTsp))
  }

  // ------------------------------------------------------------------ TSP

  /** For validated input the TSP is 16 decimal digits: 11 from the PAN ending just before
      its last digit, the PVKI, and the PIN's first four. Read as hex it always decodes, to
      8 bytes that pack two digits each, so the TSP failure branch cannot be taken. */
  lemma TspDecodes(pan: string, pvki: string, pin: string)
    requires ValidPan(pan) && ValidPin(pin) && ValidPvki(pvki)
    ensures var tsp := Tsp(pan, pvki, pin);
      && |tsp| == 16 && AllDecimal(tsp)
      && tsp[..11] == pan[|pan| - 12..|pan| - 1] && tsp[11] == pvki[0] && tsp[12..] == pin[..4]
      && FromHex(tsp).Ok? && |FromHex(tsp).value| == 8
      && forall i :: 0 <= i < 8 ==>
           FromHex(tsp).value[i] == (tsp[2 * i] as int - '0' as int) * 16 + (tsp[2 * i + 1] as int - '0' as int)
  {
    var tsp := Tsp(pan, pvki, pin);
    var a, b, c := pan[|pan| - 12..|pan| - 1], pvki, pin[..4];
    assert tsp == a + b + c;
    assert AllDecimal(tsp) by {
      forall i | 0 <= i < 16 ensures IsDecimalDigit(tsp[i]) {
        if i < 11 { assert tsp[i] == pan[|pan| - 12 + i]; }
        else if i == 11 { assert tsp[i] == pvki[0]; }
        else { assert tsp[i] == pin[i - 12]; }
      }
    }
    assert AllHex(tsp) && NoWhitespace(tsp) by {
      forall i | 0 <= i < 16 ensures IsHexDigit(tsp[i]) && !IsPyWhitespace(tsp[i]) {
        assert IsDecimalDigit(tsp[i]);
      }
    }
    FromHexPlain(tsp);
  }

  /** The test vector's PAN gives the TSP `1234567890111234`. */
  lemma TspExample()
    ensures Tsp("4000123456789012", "1", "1234") == "1234567890111234"
    ensures Tsp("4000123456789012", "1", "5678") == "1234567890115678"
  {
    var pan := "4000123456789012";
    assert pan[4..15] == "12345678901";
  }

  // ------------------------------------------------------------------ digit scan

  lemma {:induction false} DecimalDigitsAreDigits(s: string)
    ensures AllDecimal(DecimalDigits(s)) && |DecimalDigits(s)| <= |s|
  {
    if s != [] {
      DecimalDigitsAreDigits(s[1..]);
      var d := DecimalDigits(s);
      var head := if IsDecimalDigit(s[0]) then [s[0]] else [];
      assert d == head + DecimalDigits(s[1..]);
      forall i | 0 <= i < |d| ensures IsDecimalDigit(d[i]) {
        if i >= |head| { assert d[i] == DecimalDigits(s[1..])[i - |head|]; }
      }
    }
  }

  /** Scanning a concatenation finds the digits of the first part, then those of the second. */
  lemma {:induction false} DecimalDigitsAppend(a: string, b: string)
    ensures DecimalDigits(a + b) == DecimalDigits(a) + DecimalDigits(b)
  {
    if a != [] {
      assert (a + b)[0] == a[0];
      assert (a + b)[1..] == a[1..] + b;
      DecimalDigitsAppend(a[1..], b);
    } else {
      assert a + b == b;
    }
  }

  /** A single character is found exactly when it is a decimal digit. With
      `DecimalDigitsAppend` this fixes the scan on every input. */
  lemma DecimalDigitsSingle(c: char)
    ensures DecimalDigits([c]) == (if IsDecimalDigit(c) then [c] else [])
  {
    assert [c][1..] == [];
  }

  /** Every decimal digit of `s` is found: the digit at position `i` is the scan's
      entry right after the digits found before `i`. */
  lemma DecimalDigitsComplete(s: string, i: nat)
    requires i < |s| && IsDecimalDigit(s[i])
    ensures |DecimalDigits(s[..i])| < |DecimalDigits(s)|
    ensures DecimalDigits(s)[|DecimalDigits(s[..i])|] == s[i]
  {
    assert s == s[..i] + ([s[i]] + s[i + 1..]);
    DecimalDigitsAppend(s[..i], [s[i]] + s[i + 1..]);
    DecimalDigitsAppend([s[i]], s[i + 1..]);
    DecimalDigitsSingle(s[i]);
  }

  /** The `j`-th character the scan collects is a character of `s` at a position before
      which the scan has collected exactly `j` characters: digits are kept in the order
      they are found. */
  lemma {:induction false} DecimalDigitsAt(s: string, j: nat)
    requires j < |DecimalDigits(s)|
    ensures exists i :: 0 <= i < |s| && s[i] == DecimalDigits(s)[j] && IsDecimalDigit(s[i])
                        && |DecimalDigits(s[..i])| == j
  {
    var t := s[1..];
    var h := if IsDecimalDigit(s[0]) then 1 else 0;
    if h == 1 && j == 0 {
      assert DecimalDigits(s[..0]) == [];
    } else {
      DecimalDigitsAt(t, j - h);
      var i :| 0 <= i < |t| && t[i] == DecimalDigits(t)[j - h] && IsDecimalDigit(t[i])
               && |DecimalDigits(t[..i])| == j - h;
      PrefixDigits(s, i);
      assert s[i + 1] == t[i];
    }
  }

  /** Scanning a prefix of `s` of `i + 1` characters: its first character, then the
      first `i` characters of the rest. */
  lemma PrefixDigits(s: string, i: nat)
    requires i < |s| - 1
    ensures DecimalDigits(s[..i + 1])
         == (if IsDecimalDigit(s[0]) then [s[0]] else []) + DecimalDigits(s[1..][..i])
  {
    assert s[..i + 1][1..] == s[1..][..i];
  }

  /** The only failure of extraction is having fewer than four digits; on success the PVV is
      the first four digits found, so exactly four decimal digits. */
  lemma ExtractPvvCorrect(ciphertextHex: string)
    ensures ExtractPvv(ciphertextHex).Ok? <==> |DecimalDigits(ciphertextHex)| >= 4
    ensures ExtractPvv(ciphertextHex).Err? ==>
      ExtractPvv(ciphertextHex).error == ExtractionFailed(ciphertextHex)
    ensures ExtractPvv(ciphertextHex).Ok? ==>
      var pvv := ExtractPvv(ciphertextHex).value;
      && |pvv| == 4 && IsDigitString(pvv)
      && pvv == DecimalDigits(ciphertextHex)[..4]
  {
    DecimalDigitsAreDigits(ciphertextHex);
    var d := DecimalDigits(ciphertextHex);
    if |d| >= 4 {
      var pvv := d[..4];
      forall i | 0 <= i < 4 ensures IsDecimalDigit(pvv[i]) { assert pvv[i] == d[i]; }
    }
  }

  /** The test's mocked ciphertext hex `FACEBEEFCABBAD1E2F` holds too few digits. */
  lemma ExtractionFailsOnMockedCiphertext()
    ensures ExtractPvv("FACEBEEFCABBAD1E2F") == Err(ExtractionFailed("FACEBEEFCABBAD1E2F"))
  {
    MockedDigits();
  }

  lemma MockedDigits()
    ensures DecimalDigits("FACEBEEFCABBAD1E2F") == "12"
  {
    var letters, tail := "FACEBEEFCABBAD", "1E2F";
    assert "FACEBEEFCABBAD1E2F" == letters + tail;
    DecimalDigitsAppend(letters, tail);
    MockedLettersHaveNoDigits();
    MockedTailDigits();
  }

  lemma MockedLettersHaveNoDigits()
    ensures DecimalDigits("FACEBEEFCABBAD") == []
  {
    var letters := "FACEBEEFCABBAD";
    forall i | 0 <= i < |letters| ensures 'A' <= letters[i] <= 'F' {
      assert letters[i] in "ABCDEF";
    }
    NoDigits(letters);
  }

  lemma MockedTailDigits()
    ensures DecimalDigits("1E2F") == "12"
  {
    assert "1E2F"[1..] == "E2F";
    assert "E2F"[1..] == "2F";
    assert "2F"[1..] == "F";
    assert "F"[1..] == "";
  }

  lemma {:induction false} NoDigits(s: string)
    requires forall i :: 0 <= i < |s| ==> 'A' <= s[i] <= 'F'
    ensures DecimalDigits(s) == []
  {
    if s != [] {
      NoDigits(s[1..]);
    }
  }

  // ------------------------------------------------------------------ the whole function

  /** The checks run in the order PAN, PIN, PVKI, PVK, each failure raised before any
      encryption, so it does not depend on the cipher. */
  lemma ValidationOrder(des: BlockCipher, des': BlockCipher, pan: string, pin: string,
                        pvki: string, pvk: seq<Byte>)
    ensures !ValidPan(pan) ==> GenerateVisaPvv(des, pan, pin, pvki, pvk) == Err(InvalidPan)
    ensures ValidPan(pan) && !ValidPin(pin) ==> GenerateVisaPvv(des, pan, pin, pvki, pvk) == Err(InvalidPin)
    ensures ValidPan(pan) && ValidPin(pin) && !ValidPvki(pvki) ==>
      GenerateVisaPvv(des, pan, pin, pvki, pvk) == Err(InvalidPvki)
    ensures ValidPan(pan) && ValidPin(pin) && ValidPvki(pvki) && |pvk| < 8 ==>
      GenerateVisaPvv(des, pan, pin, pvki, pvk) == Err(InvalidPvk)
    ensures !(ValidPan(pan) && ValidPin(pin) && ValidPvki(pvki) && |pvk| >= 8) ==>
      GenerateVisaPvv(des, pan, pin, pvki, pvk) == GenerateVisaPvv(des', pan, pin, pvki, pvk)
  {
  }

  /** The test inputs' boundaries: PANs of 11 and 20 digits or with a letter, PINs of 3 and
      13 digits or with a letter, and the PVKIs `12`, `A` and the integer `10` are
      rejected. */
  lemma RejectedTestInputs()
    ensures !ValidPan("12345678901") && !ValidPan("12345678901234567890")
    ensures !ValidPan("400012345678901A")
    ensures !ValidPin("123") && !ValidPin("1234567890123") && !ValidPin("123A")
    ensures !ValidPvki("12") && !ValidPvki("A") && !ValidPvki(PyStr(10))
  {
    assert "400012345678901A"[15] == 'A';
    assert "123A"[3] == 'A';
    assert "A"[0] == 'A';
    IntegerPvki(10);
  }

  /** The tests' valid PAN, both PINs, and the PVKI `1` as text or integer pass validation. */
  lemma AcceptedTestInputs()
    ensures ValidPan("4000123456789012")
    ensures ValidPin("1234") && ValidPin("12345678")
    ensures ValidPvki("1") && ValidPvki(PyStr(1))
  {
    var pan, long := "4000123456789012", "12345678";
    forall i | 0 <= i < |pan| ensures IsDecimalDigit(pan[i]) { assert pan[i] in "0123456789"; }
    forall i | 0 <= i < |long| ensures IsDecimalDigit(long[i]) { assert long[i] in "12345678"; }
    assert "1234" == long[..4];
    IntegerPvki(1);
  }

  /** For valid input the result is the extraction applied to the uppercase hex of the DES
      encryption of the packed TSP under the first 8 PVK bytes: either exactly four
      decimal digits, the first four of that hex, or the extraction failure when it has
      fewer than four. */
  lemma PvvOutcome(des: BlockCipher, pan: string, pin: string, pvki: string, pvk: seq<Byte>)
    requires ValidPan(pan) && ValidPin(pin) && ValidPvki(pvki) && |pvk| >= 8
    ensures FromHex(Tsp(pan, pvki, pin)).Ok? && |FromHex(Tsp(pan, pvki, pin)).value| == 8
    ensures var hex := HexUpper(des(pvk[..8], FromHex(Tsp(pan, pvki, pin)).value));
      var r := GenerateVisaPvv(des, pan, pin, pvki, pvk);
      && |hex| == 16
      && (r.Ok? <==> |DecimalDigits(hex)| >= 4)
      && (r.Ok? ==> |r.value| == 4 && IsDigitString(r.value) && r.value == DecimalDigits(hex)[..4])
      && (r.Err? ==> r.error == ExtractionFailed(hex))
  {
    TspDecodes(pan, pvki, pin);
    var hex := HexUpper(des(pvk[..8], FromHex(Tsp(pan, pvki, pin)).value));
    ExtractPvvCorrect(hex);
  }

  /** Only the first four PIN digits matter: PINs `1234` and `12345678` give the same PVV. */
  lemma PinTruncation(des: BlockCipher, pan: string, pin1: string, pin2: string, pvki: string,
                      pvk: seq<Byte>)
    requires ValidPin(pin1) && ValidPin(pin2) && pin1[..4] == pin2[..4]
    ensures GenerateVisaPvv(des, pan, pin1, pvki, pvk) == GenerateVisaPvv(des, pan, pin2, pvki, pvk)
  {
  }

  /** Only the first eight PVK bytes matter: an 8-byte and a 16-byte key that agree on
      those give the same PVV. */
  lemma PvkTruncation(des: BlockCipher, pan: string, pin: string, pvki: string,
                      pvk1: seq<Byte>, pvk2: seq<Byte>)
    requires |pvk1| >= 8 && |pvk2| >= 8 && pvk1[..8] == pvk2[..8]
    ensures GenerateVisaPvv(des, pan, pin, pvki, pvk1) == GenerateVisaPvv(des, pan, pin, pvki, pvk2)
  {
  }

  /** `str(pvki)` of an integer PVKI passes the check exactly for 0 to 9: `1` is accepted,
      `10` rejected. */
  lemma IntegerPvki(n: int)
    ensures ValidPvki(PyStr(n)) <==> 0 <= n <= 9
  {
    PyStrSingleDigit(n);
  }
}
