/** PIN encryption and decryption with Triple DES in ECB mode and PKCS#7-style padding.
    The DES3 block operations and the library's key checks are given as a `Tdes` value. */
module Demo3des {
  import opened Results
  import opened Bytes
  import opened PyText
  import Utf8

  /** The exceptions the demo functions can raise, with the text `str(e)` gives. */
  datatype DemoError =
    | InvalidKeySize
    | DegenerateKey
    | NotBlockAligned
    | IndexOutOfRange
    | InvalidUtf8
    | HexFailed(cause: HexError)
  {
    function Message(): string {
      match this
      case InvalidKeySize => "Not a valid TDES key"
      case DegenerateKey => "Triple DES key degenerates to single DES"
      case NotBlockAligned => "Data must be aligned to block boundary in ECB mode"
      case IndexOutOfRange => "index out of range"
      case InvalidUtf8 => "'utf-8' codec can't decode bytes"
      case HexFailed(cause) => cause.Message()
    }
  }

  /** The Triple DES primitive: which 16- or 24-byte keys the library refuses as degenerate,
      and its block encryption and decryption. */
  datatype Tdes = Tdes(degenerate: seq<Byte> -> bool, encrypt: BlockCipher, decrypt: BlockCipher)

  /** A key `DES3.new` accepts. */
  predicate Accepted(t: Tdes, key: seq<Byte>) {
    (|key| == 16 || |key| == 24) && !t.degenerate(key)
  }

  /** Decryption undoes encryption under every accepted key. */
  ghost predicate Inverts(t: Tdes) {
    forall key, b: Block :: Accepted(t, key) ==> t.decrypt(key, t.encrypt(key, b)) == b
  }

  /** `DES3.new(key, DES3.MODE_ECB)`: the key checks. */
  function CheckKey(t: Tdes, key: seq<Byte>): (r: Result<seq<Byte>, DemoError>)
    ensures r.Ok? <==> Accepted(t, key)
    ensures r.Ok? ==> r.value == key
    ensures r.Err? && (|key| == 16 || |key| == 24) ==> r.error == DegenerateKey
    ensures r.Err? && !(|key| == 16 || |key| == 24) ==> r.error == InvalidKeySize
  {
    if |key| != 16 && |key| != 24 then Err(InvalidKeySize)
    else if t.degenerate(key) then Err(DegenerateKey)
    else Ok(key)
  }

  // ------------------------------------------------------------------ ECB

  /** ECB over whole blocks: each 8-byte block through `cipher` on its own. */
  function EcbBlocks(cipher: BlockCipher, key: seq<Byte>, data: seq<Byte>): (r: seq<Byte>)
    requires |data| % 8 == 0
    ensures |r| == |data|
    decreases |data|
  {
    if data == [] then [] else cipher(key, data[..8]) + EcbBlocks(cipher, key, data[8..])
  }

  /** `cipher.encrypt` / `cipher.decrypt` in ECB mode, which refuse unaligned data. */
  function Ecb(cipher: BlockCipher, key: seq<Byte>, data: seq<Byte>): (r: Result<seq<Byte>, DemoError>)
    ensures r.Ok? <==> |data| % 8 == 0
    ensures r.Err? ==> r.error == NotBlockAligned
  {
    if |data| % 8 != 0 then Err(NotBlockAligned) else Ok(EcbBlocks(cipher, key, data))
  }

  /** Block `i` of the output is the cipher applied to block `i` of the input. */
  lemma {:induction false} EcbBlockwise(cipher: BlockCipher, key: seq<Byte>, data: seq<Byte>, i: nat)
    requires |data| % 8 == 0 && 8 * i + 8 <= |data|
    ensures EcbBlocks(cipher, key, data)[8 * i..8 * i + 8] == cipher(key, data[8 * i..8 * i + 8])
    decreases i
  {
    var r := EcbBlocks(cipher, key, data);
    var first := cipher(key, data[..8]);
    assert r == first + EcbBlocks(cipher, key, data[8..]);
    if i == 0 {
      assert r[..8] == first;
    } else {
      EcbBlockwise(cipher, key, data[8..], i - 1);
      assert r[8 * i..8 * i + 8] == EcbBlocks(cipher, key, data[8..])[8 * (i - 1)..8 * (i - 1) + 8];
      assert data[8..][8 * (i - 1)..8 * (i - 1) + 8] == data[8 * i..8 * i + 8];
    }
  }

  /** Decrypting the ECB encryption under an accepted key gives the data back. */
  lemma {:induction false} EcbRoundTrip(t: Tdes, key: seq<Byte>, data: seq<Byte>)
    requires Inverts(t) && Accepted(t, key) && |data| % 8 == 0
    ensures EcbBlocks(t.decrypt, key, EcbBlocks(t.encrypt, key, data)) == data
    decreases |data|
  {
    if data != [] {
      var c := EcbBlocks(t.encrypt, key, data);
      var head := t.encrypt(key, data[..8]);
      assert c == head + EcbBlocks(t.encrypt, key, data[8..]);
      assert c[..8] == head && c[8..] == EcbBlocks(t.encrypt, key, data[8..]);
      EcbRoundTrip(t, key, data[8..]);
      assert t.decrypt(key, head) == data[..8];
      assert data == data[..8] + data[8..];
    }
  }

  // ------------------------------------------------------------------ padding

  /** `pad_data`: `8 - len(data) % 8` copies of that count appended to the UTF-8 encoding.
      The count is taken from the number of characters, as written. */
  function PadData(data: string): seq<Byte> {
    var k := 8 - |data| % 8;
    Utf8.Encode(data) + Repeat(k, k)
  }

  /** For ASCII text the padded form is block aligned, strictly longer than the text by at
      most one block, starts with the text's bytes, and every padding byte holds the
      padding length. */
  lemma PadDataShape(data: string)
    requires IsAscii(data)
    ensures var p := PadData(data);
      && |p| % 8 == 0 && |data| < |p| <= |data| + 8
      && p[..|data|] == Utf8.Encode(data)
      && forall i :: |data| <= i < |p| ==> p[i] == |p| - |data|
  {
    Utf8.EncodeAscii(data);
    var k := 8 - |data| % 8;
    var p := PadData(data);
    assert p[..|data|] == Utf8.Encode(data);
    forall i | |data| <= i < |p| ensures p[i] == |p| - |data| {
      assert p[i] == Repeat(k, k)[i - |data|];
    }
  }

  /** `unpad_data`: `data[:-data[-1]]` with Python's slice rules. An empty input has no
      last byte; a last byte of 0 slices to `data[:0]`; one larger than the data clamps to
      the empty prefix. */
  function UnpadData(data: seq<Byte>): (r: Result<seq<Byte>, DemoError>)
    ensures r.Err? <==> data == []
    ensures r.Err? ==> r.error == IndexOutOfRange
    ensures r.Ok? ==> r.value <= data
  {
    if data == [] then Err(IndexOutOfRange)
    else
      var p := data[|data| - 1] as int;
      if p == 0 || p > |data| then Ok([]) else Ok(data[..|data| - p])
  }

  /** Removing the padding from a padded ASCII text gives back exactly its bytes. */
  lemma UnpadPad(data: string)
    requires IsAscii(data)
    ensures UnpadData(PadData(data)) == Ok(Utf8.Encode(data))
  {
    PadDataShape(data);
    var p := PadData(data);
    assert p[|p| - 1] == |p| - |data|;
  }

  /** The padding keeps at most the bytes before the last `p` ones, `p` the last byte. */
  lemma UnpadDropsCount(data: seq<Byte>)
    requires data != [] && 0 < data[|data| - 1] <= |data|
    ensures UnpadData(data) == Ok(data[..|data| - data[|data| - 1]])
    ensures |UnpadData(data).value| + data[|data| - 1] == |data|
  {
  }

  // ------------------------------------------------------------------ PIN encryption

  /** `encrypt_pin_3des`: key check, then padding and ECB encryption. */
  function EncryptPin3des(t: Tdes, pin: string, key: seq<Byte>): Result<seq<Byte>, DemoError> {
    var k :- CheckKey(t, key);
    Ecb(t.encrypt, k, PadData(pin))
  }

  /** `decrypt_pin_3des`: key check, ECB decryption, padding removal, UTF-8 decoding. */
  function DecryptPin3des(t: Tdes, encrypted: seq<Byte>, key: seq<Byte>): Result<string, DemoError> {
    var k :- CheckKey(t, key);
    var decrypted :- Ecb(t.decrypt, k, encrypted);
    var unpadded :- UnpadData(decrypted);
    match Utf8.Decode(unpadded)
    case None => Err(InvalidUtf8)
    case Some(text) => Ok(text)
  }

  /** Encrypting an ASCII PIN under an accepted key succeeds with whole blocks, one block
      longer at most, each the encryption of the matching block of the padded PIN; a
      refused key is reported before anything else. */
  lemma EncryptPinShape(t: Tdes, pin: string, key: seq<Byte>)
    requires IsAscii(pin)
    ensures EncryptPin3des(t, pin, key).Ok? <==> Accepted(t, key)
    ensures !Accepted(t, key) ==> EncryptPin3des(t, pin, key) == Err(CheckKey(t, key).error)
    ensures EncryptPin3des(t, pin, key).Ok? ==>
      var c := EncryptPin3des(t, pin, key).value;
      && |c| % 8 == 0 && |pin| < |c| <= |pin| + 8
      && c == EcbBlocks(t.encrypt, key, PadData(pin))
  {
    PadDataShape(pin);
  }

  /** With a cipher whose decryption undoes its encryption, an ASCII PIN encrypted under an
      accepted key decrypts to itself. */
  lemma PinRoundTrip(t: Tdes, pin: string, key: seq<Byte>)
    requires Inverts(t) && Accepted(t, key) && IsAscii(pin)
    ensures EncryptPin3des(t, pin, key).Ok?
    ensures DecryptPin3des(t, EncryptPin3des(t, pin, key).value, key) == Ok(pin)
  {
    PadDataShape(pin);
    var padded := PadData(pin);
    EcbRoundTrip(t, key, padded);
    UnpadPad(pin);
    Utf8.DecodeEncode(pin);
  }

  /** Decryption fails on a refused key first, then on unaligned data; an accepted key and
      aligned data never fail before decoding, the empty case included. */
  lemma DecryptPinErrors(t: Tdes, encrypted: seq<Byte>, key: seq<Byte>)
    ensures !Accepted(t, key) ==> DecryptPin3des(t, encrypted, key) == Err(CheckKey(t, key).error)
    ensures Accepted(t, key) && |encrypted| % 8 != 0 ==>
      DecryptPin3des(t, encrypted, key) == Err(NotBlockAligned)
    ensures Accepted(t, key) && encrypted == [] ==> DecryptPin3des(t, encrypted, key) == Err(IndexOutOfRange)
    ensures Accepted(t, key) && encrypted != [] && |encrypted| % 8 == 0 ==>
      var unpadded := UnpadData(EcbBlocks(t.decrypt, key, encrypted)).value;
      DecryptPin3des(t, encrypted, key) == (if Utf8.Decode(unpadded).Some? then Ok(Utf8.Decode(unpadded).value) else Err(InvalidUtf8))
  {
  }

  // ------------------------------------------------------------------ hex wrappers

  /** `hex_str.replace(' ', '')`. */
  function RemoveSpaces(s: string): string {
    if s == [] then [] else (if s[0] == ' ' then [] else [s[0]]) + RemoveSpaces(s[1..])
  }

  lemma {:induction false} RemoveSpacesAppend(a: string, b: string)
    ensures RemoveSpaces(a + b) == RemoveSpaces(a) + RemoveSpaces(b)
  {
    if a == [] {
      assert a + b == b;
    } else {
      assert (a + b)[0] == a[0] && (a + b)[1..] == a[1..] + b;
      RemoveSpacesAppend(a[1..], b);
    }
  }

  /** Text with no space is left alone, and the result never holds a space. */
  lemma {:induction false} RemoveSpacesCorrect(s: string)
    ensures ' ' !in RemoveSpaces(s)
    ensures ' ' !in s ==> RemoveSpaces(s) == s
  {
    if s != [] {
      RemoveSpacesCorrect(s[1..]);
      assert s == [s[0]] + s[1..];
    }
  }

  /** A space inserted anywhere does not change what is removed to. */
  lemma SpaceIgnored(a: string, b: string)
    ensures RemoveSpaces(a + " " + b) == RemoveSpaces(a + b)
  {
    RemoveSpacesAppend(a + " ", b);
    RemoveSpacesAppend(a, " ");
    RemoveSpacesAppend(a, b);
    assert RemoveSpaces(" ") == [] by { assert " "[1..] == []; }
  }

  /** `hex_to_bytes`. */
  function HexToBytes(hex: string): Result<seq<Byte>, DemoError> {
    match Unhexlify(RemoveSpaces(hex))
    case Ok(bytes) => Ok(bytes)
    case Err(e) => Err(HexFailed(e))
  }

  /** `hex_to_bytes` decodes the text left after removing spaces: it fails on non-ASCII
      text, then on odd length, then on a non-hex character, and otherwise yields half as
      many bytes as there are characters, each the value of its digit pair. */
  lemma HexToBytesCorrect(hex: string)
    ensures var s, r := RemoveSpaces(hex), HexToBytes(hex);
      && (r.Ok? <==> |s| % 2 == 0 && AllHex(s))
      && (r.Ok? ==> |r.value| == |s| / 2 && DenotesBytes(s, r.value))
      && (!IsAscii(s) ==> r == Err(HexFailed(NonAsciiArgument)))
      && (IsAscii(s) && |s| % 2 == 1 ==> r == Err(HexFailed(OddLengthString)))
      && (IsAscii(s) && |s| % 2 == 0 && !AllHex(s) ==> r == Err(HexFailed(NonHexadecimalDigit)))
  {
    var s := RemoveSpaces(hex);
    UnhexlifyCorrect(s);
    if Unhexlify(s).Ok? {
      var b := Unhexlify(s).value;
      assert |s| == 2 * |b|;
      assert |s| / 2 == |b|;
    }
  }

  /** Hex text of any bytes, lower or upper case, converts back to those bytes. */
  lemma HexToBytesRoundTrip(b: seq<Byte>)
    ensures HexToBytes(HexLower(b)) == Ok(b) && HexToBytes(HexUpper(b)) == Ok(b)
  {
    HexLowerDenotes(b);
    HexUpperDenotes(b);
    assert IsPyWhitespace(' ');
    RemoveSpacesCorrect(HexLower(b));
    RemoveSpacesCorrect(HexUpper(b));
    HexRoundTrip(b);
  }

  /** The steps of `decrypt_pin_from_hex` inside its `try`. */
  function DecryptFromHexSteps(t: Tdes, encryptedPinHex: string, keyHex: string): Result<string, DemoError> {
    var encrypted :- HexToBytes(encryptedPinHex);
    var key :- HexToBytes(keyHex);
    DecryptPin3des(t, encrypted, key)
  }

  /** `decrypt_pin_from_hex`: every failure becomes a `ValueError` whose message is
      `Failed to decrypt PIN: ` followed by the original one. */
  function DecryptPinFromHex(t: Tdes, encryptedPinHex: string, keyHex: string): Result<string, string> {
    DecryptFromHexSteps(t, encryptedPinHex, keyHex).MapError((e: DemoError) => "Failed to decrypt PIN: " + e.Message())
  }

  /** The wrapper succeeds exactly when both hex texts convert and the decryption succeeds,
      with the same PIN; every failure is the wrapped message of the first step that
      failed. */
  lemma DecryptPinFromHexCorrect(t: Tdes, encryptedPinHex: string, keyHex: string)
    ensures var r := DecryptPinFromHex(t, encryptedPinHex, keyHex);
      var e, k := HexToBytes(encryptedPinHex), HexToBytes(keyHex);
      && (r.Ok? <==> e.Ok? && k.Ok? && DecryptPin3des(t, e.value, k.value).Ok?)
      && (r.Ok? ==> r.value == DecryptPin3des(t, e.value, k.value).value)
      && (e.Err? ==> r == Err("Failed to decrypt PIN: " + e.error.Message()))
      && (e.Ok? && k.Err? ==> r == Err("Failed to decrypt PIN: " + k.error.Message()))
      && (e.Ok? && k.Ok? && DecryptPin3des(t, e.value, k.value).Err? ==>
            r == Err("Failed to decrypt PIN: " + DecryptPin3des(t, e.value, k.value).error.Message()))
  {
  }

  /** A ciphertext and key written as hex decrypt to the ASCII PIN that was encrypted. */
  lemma PinFromHexRoundTrip(t: Tdes, pin: string, key: seq<Byte>)
    requires Inverts(t) && Accepted(t, key) && IsAscii(pin)
    ensures EncryptPin3des(t, pin, key).Ok?
    ensures DecryptPinFromHex(t, HexLower(EncryptPin3des(t, pin, key).value), HexLower(key)) == Ok(pin)
  {
    PinRoundTrip(t, pin, key);
    HexToBytesRoundTrip(EncryptPin3des(t, pin, key).value);
    HexToBytesRoundTrip(key);
  }
}
