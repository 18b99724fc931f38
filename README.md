# Visa authorisation helpers: EMV chip data, Visa PVV, 3DES PIN demo

This project models three small components of a Python ISO 8583 authorisation demo:

- **EMV chip data (DE 55)** (`Emv`, `TlvDecoding`):
  - `build_tlv` builds single-byte-length TLV records.
  - `generate_arqc` applies ISO/IEC 9797-1 padding method 2, a MAC and truncation to 8 bytes.
  - `create_chip_data`, in order:
    - validates the 16-byte master derivation key (MDK);
    - builds the 24-byte triple-length key and the two ATC derivation blocks;
    - derives the session key;
    - builds the ARQC input;
    - joins the ten records in their fixed order.
  - A TLV reader (`TlvDecoding.ParseTlvs`) is the inverse partner. The model proves that the chip data reads back as exactly the ten records.
- **Visa PVV** (`VisaPin`): `generate_visa_pvv` does the following, in order:
  - validates the PAN, the PIN, the PVKI and the PVK;
  - forms the transformed security parameter (TSP);
  - reads its digits as hex nibbles;
  - encrypts it with single DES under the first 8 PVK bytes;
  - scans the uppercase hex of the ciphertext for decimal digits.
- **3DES PIN demo** (`Demo3des`):
  - PKCS#7-style padding to 8-byte blocks and its removal;
  - ECB encryption and decryption of a PIN;
  - `hex_to_bytes`;
  - the `ValueError` wrapping of `decrypt_pin_from_hex`.

Every cipher is a parameter with a fixed output size:

| cipher | Dafny type | output |
|---|---|---|
| TripleDES-ECB | `Bytes.BlockCipher` | one 8-byte `Block` |
| single DES | `Bytes.BlockCipher` | one 8-byte `Block` |
| AES-CMAC | `Bytes.MacFunction` | a 16-byte `Mac` |
| DES3 of the demo | `Demo3des.Tdes` | encrypt, decrypt and the library's degenerate-key test |

All results therefore hold whatever these primitives compute. The PIN round trip additionally assumes `Demo3des.Inverts`: decryption undoes encryption.

Three modules model the Python built-ins the components rely on:

- `PyText`:
  - `bytes.fromhex`, which skips whitespace before each digit pair;
  - `binascii.unhexlify`, which checks for non-ASCII text, then odd length, then a non-hex digit;
  - `bytes.hex` and `.upper()`;
  - the `02x`, `04x` and `012d` formats;
  - `str` of an integer.
- `Utf8`: strict UTF-8 encoding and decoding, for `str.encode` and `bytes.decode`.
- `Results`: exceptions. A raised exception is the `Err` side of `Result`, and a missing dictionary key is `None` in `Emv.TransactionDetails`.

The `bytes.fromhex` rule, as `PyText.FromHex` models it:

- Whitespace is skipped only before a digit pair, never inside one, so `"01 02"` decodes but `"0 1"` does not.
- Any other character that is not a hex digit is an error.
- A final digit without a partner is an error.
- On text without whitespace it therefore fails exactly on odd length or a non-hex character (`PyText.FromHexPlain`).

A test comment at test_visa_pin_generator.py:45 gives the TSP for PIN `5678` as `0123456789015678`, taking `01234567890` as the PAN part. The code takes `pan[-12:-1]`, which for the test PAN `4000123456789012` is `12345678901`. The TSP is then `1234567890115678`, or `1234567890111234` for PIN `1234` (`VisaPin.TspExample`); the model follows the code.

## Model

| member | source | states |
|---|---|---|
| Emv.BuildTlv | src/visa_auth_generator/emv.py:32-38 | `build_tlv`; its meaning is stated by `Emv.BuildTlvCorrect` and, as the inverse, `TlvDecoding.ParseEncoding` |
| Emv.BuildAll | src/visa_auth_generator/emv.py:101-114 | the join of the `build_tlv` results; stated by `Emv.BuildAllSucceeds`, `Emv.BuildAllEncodes` and `Emv.BuildAllFails` |
| Emv.Method2Padding | src/visa_auth_generator/emv.py:21-25 | ISO/IEC 9797-1 padding method 2; stated by `Emv.Method2PaddingShape` and `Emv.Method2PaddingMinimal`, and computed by the loop of `Emv.GenerateArqc` |
| Emv.CreateChipData | src/visa_auth_generator/emv.py:40-114 | `create_chip_data`; stated by `Emv.ChipDataChecksFirst`, `Emv.ChipDataMissingField`, `Emv.ChipDataSucceeds`, `Emv.ChipDataOutput`, `TlvDecoding.ChipDataDecodes` and `TlvDecoding.ChipDataIsHex` |
| Emv.DerivationBlock | src/visa_auth_generator/emv.py:73-78 | the ATC bytes followed by six fill bytes (00 for the left half, FF for the right); stated by `Emv.SessionKeyStructure` |
| Emv.ArqcInput | src/visa_auth_generator/emv.py:94 | the concatenated ARQC input text; stated by `Emv.ArqcInputHex` |
| Emv.ChipRecords | src/visa_auth_generator/emv.py:101-112 | the ten records in output order; stated by `Emv.ChipDataOutput` and `TlvDecoding.ChipDataDecodes` |
| Emv.Required | src/visa_auth_generator/emv.py:85-89 | a dictionary lookup that fails with the missing key; stated by `Emv.ChipDataMissingField` |
| Emv.AuthenticateAndAssemble | src/visa_auth_generator/emv.py:94-114 | the ARQC input, its MAC and the ten records; stated by `Emv.AssembleSucceeds` and `Emv.AssembleOutput` |
| VisaPin.GenerateVisaPvv | src/visa_auth_generator/visa_pin_generator.py:13-101 | `generate_visa_pvv`; stated by `VisaPin.ValidationOrder`, `VisaPin.PvvOutcome`, `VisaPin.PinTruncation` and `VisaPin.PvkTruncation` |
| VisaPin.Tsp | src/visa_auth_generator/visa_pin_generator.py:62-69 | the TSP text; stated by `VisaPin.TspDecodes` and `VisaPin.TspExample` |
| VisaPin.DecimalDigits | src/visa_auth_generator/visa_pin_generator.py:87 | `re.findall(r'\d', ...)`; fixed on every input by `VisaPin.DecimalDigitsSingle` and `VisaPin.DecimalDigitsAppend`; stated by `VisaPin.DecimalDigitsAreDigits`, `VisaPin.DecimalDigitsAt` and `VisaPin.DecimalDigitsComplete` |
| VisaPin.ExtractPvv | src/visa_auth_generator/visa_pin_generator.py:84-101 | the digit extraction; stated by `VisaPin.ExtractPvvCorrect` |
| VisaPin.ValidPan | src/visa_auth_generator/visa_pin_generator.py:47-48 | the PAN check, 12 to 19 digits; stated by `VisaPin.ValidationOrder`, `VisaPin.RejectedTestInputs` and `VisaPin.AcceptedTestInputs` |
| VisaPin.ValidPin | src/visa_auth_generator/visa_pin_generator.py:50-51 | the PIN check, 4 to 12 digits; stated by `VisaPin.ValidationOrder`, `VisaPin.RejectedTestInputs` and `VisaPin.AcceptedTestInputs` |
| VisaPin.ValidPvki | src/visa_auth_generator/visa_pin_generator.py:53-55 | the PVKI check on `str(pvki)`, one digit; stated by `VisaPin.ValidationOrder`, `VisaPin.IntegerPvki` and `VisaPin.RejectedTestInputs` |
| Demo3des.PadData | src/visa_auth_generator/demo_3des.py:5-10 | `pad_data`; stated by `Demo3des.PadDataShape` and, with its inverse, `Demo3des.UnpadPad` |
| Demo3des.EncryptPin3des | src/visa_auth_generator/demo_3des.py:21-25 | `encrypt_pin_3des`; stated by `Demo3des.EncryptPinShape` and `Demo3des.PinRoundTrip` |
| Demo3des.DecryptPin3des | src/visa_auth_generator/demo_3des.py:27-32 | `decrypt_pin_3des`; stated by `Demo3des.DecryptPinErrors` and `Demo3des.PinRoundTrip` |
| Demo3des.RemoveSpaces | src/visa_auth_generator/demo_3des.py:36 | `replace(' ', '')`; stated by `Demo3des.RemoveSpacesCorrect`, `Demo3des.RemoveSpacesAppend` and `Demo3des.SpaceIgnored` |
| Demo3des.DecryptFromHexSteps | src/visa_auth_generator/demo_3des.py:48-50 | the `try` body: both hex conversions, then decryption, stopping at the first failure; stated by `Demo3des.DecryptPinFromHexCorrect` |
| Demo3des.HexToBytes | src/visa_auth_generator/demo_3des.py:34-36 | `hex_to_bytes`; stated by `Demo3des.HexToBytesCorrect` and `Demo3des.HexToBytesRoundTrip` |
| Demo3des.DecryptPinFromHex | src/visa_auth_generator/demo_3des.py:38-52 | `decrypt_pin_from_hex`; stated by `Demo3des.DecryptPinFromHexCorrect` and `Demo3des.PinFromHexRoundTrip` |
| PyText.FromHex | src/visa_auth_generator/emv.py:35 | `bytes.fromhex`; stated by `PyText.FromHexPlain`, `PyText.FromHexErrorKind` and `PyText.HexRoundTrip` |
| PyText.Unhexlify | src/visa_auth_generator/demo_3des.py:36 | `binascii.unhexlify`; stated by `PyText.UnhexlifyCorrect` and `PyText.HexRoundTrip` |
| PyText.HexLower | src/visa_auth_generator/emv.py:111 | `bytes.hex()` is two hex digits per byte; `PyText.HexLowerDenotes` states that no digit is an uppercase letter and that they denote the bytes |
| PyText.HexUpper | src/visa_auth_generator/visa_pin_generator.py:84 | `.hex().upper()` is two hex digits per byte; `PyText.HexUpperDenotes` states that no digit is a lowercase letter and that they denote the bytes |
| PyText.FormatDecimal | src/visa_auth_generator/emv.py:85 | the `012d` format; stated by `PyText.FormatDecimalFixed` and `PyText.FormatDecimalNegative` |
| PyText.FormatHex | src/visa_auth_generator/emv.py:37 | the `02x` and `04x` formats: lowercase hex digits of the value; stated by `PyText.FormatHexByte` and `PyText.FormatHexWord` |
| PyText.PyStr | src/visa_auth_generator/visa_pin_generator.py:53 | `str` of an integer; stated by `PyText.PyStrSingleDigit` and `VisaPin.IntegerPvki` |
| Utf8.Encode | src/visa_auth_generator/demo_3des.py:10 | `str.encode()`; stated by `Utf8.EncodeAscii` and, with its inverse, `Utf8.DecodeEncode` |
| Utf8.Decode | src/visa_auth_generator/demo_3des.py:32 | strict `bytes.decode()`; stated by `Utf8.DecodeEncode` and `Utf8.EncodeDecode` |
| Emv.BuildTlvCorrect | src/visa_auth_generator/emv.py:32-38 | for a value without whitespace, building succeeds exactly when it is even-length hex; otherwise it fails with the `fromhex` error; when the value is at most 255 bytes, the output is the tag, then two hex digits giving the byte count, then the value |
| Emv.BuildTlvAmountExample | tests/test_emv.py:19-24 | tag `9F02` with value `000000012345` builds `9F0206000000012345` |
| Emv.BuildAllSucceeds | src/visa_auth_generator/emv.py:101-114 | a list of records whose values are all even hex always builds |
| Emv.BuildAllEncodes | src/visa_auth_generator/emv.py:101-114 | the joined output is the concatenation of each record's encoding, in list order |
| Emv.BuildAllFails | src/visa_auth_generator/emv.py:101-114 | any one malformed value makes the whole join fail with the hex error |
| Emv.Method2PaddingShape | src/visa_auth_generator/emv.py:21-25 | the padded data starts with the data, then 0x80, then only 0x00 bytes; its length is a multiple of 16 and adds 1 to 16 bytes |
| Emv.Method2PaddingMinimal | src/visa_auth_generator/emv.py:21-25 | the padded length is the smallest multiple of 16 greater than the data length |
| Emv.GenerateArqc | src/visa_auth_generator/emv.py:7-30 | the loop pads by method 2; the ARQC is the first 8 bytes of the MAC of the padded data under the session key, so exactly 8 bytes and a function of key and data only |
| Emv.Arqc | src/visa_auth_generator/emv.py:27-30 | the truncated MAC has 8 bytes |
| Emv.TripleLengthKey | src/visa_auth_generator/emv.py:68 | the key is 24 bytes: the MDK followed by its first 8 bytes |
| Emv.AtcBytes | src/visa_auth_generator/emv.py:72 | `to_bytes(2, 'big')` succeeds exactly for 0 ≤ ATC < 65536, giving 2 big-endian bytes of that value; otherwise it raises |
| Emv.SessionKey | src/visa_auth_generator/emv.py:82 | the session key has 16 bytes |
| Emv.SessionKeyStructure | src/visa_auth_generator/emv.py:68-82 | both derivation blocks start with the ATC bytes; the first then has six 0x00 bytes and the second six 0xFF bytes, so they differ; the key halves are the 3DES encryptions of the two blocks under the triple-length key |
| Emv.ChipDataChecksFirst | src/visa_auth_generator/emv.py:60-72 | a malformed MDK, then an MDK that is not 16 bytes, then an out-of-range ATC, each raise their error, in that order, before any cipher is used and whatever the ciphers compute |
| Emv.ShortMdkRejected | tests/test_emv.py:69-79 | MDK `123456` fails with "MDK must be 16 bytes" |
| Emv.ChipDataMissingField | src/visa_auth_generator/emv.py:85-89 | with a valid MDK and ATC, the first missing key among `amount`, `currency_code`, `country_code` and `date`, in that lookup order, is the error |
| Emv.ConstantsAreHex | src/visa_auth_generator/emv.py:88-91 | the fixed TVR, transaction type, unpredictable number and other-amount fields are even hex |
| Emv.ArqcInputHex | src/visa_auth_generator/emv.py:94-95 | the ARQC input has no whitespace; it is all hex exactly when the amount text, country code, currency code and date are; its length parity is that of those four fields together |
| Emv.AssembleSucceeds | src/visa_auth_generator/emv.py:94-114 | assembly succeeds exactly when each of the amount text, country code, currency code and date is even-length hex (an odd field that leaves the ARQC input even still fails in its own record) |
| Emv.AssembleOutput | src/visa_auth_generator/emv.py:94-114 | the assembled output is the encoding of the ten records, the ARQC being the truncated MAC of the decoded input |
| Emv.ChipDataSucceeds | src/visa_auth_generator/emv.py:60-114 | with a 16-byte MDK, an ATC in range and all four fields present without whitespace, chip data is produced exactly when the 12-digit amount and the three text fields are each even-length hex |
| Emv.ChipDataOutput | src/visa_auth_generator/emv.py:85-114 | the output is the concatenation of the ten records 9F02, 9F03, 9F1A, 95, 5F2A, 9A, 9C, 9F37, 9F36, 9F26 with the amount in the `012d` format, the ATC in 4 hex digits and the hex of the ARQC |
| Emv.ChipDataStartsWithAmount | tests/test_emv.py:62-64 | for an amount below 10^12, the output begins with `9F0206` and the 12-digit amount, whose value is the amount |
| TlvDecoding.ParseRecord | src/visa_auth_generator/emv.py:32-38 | reading one record leaves a strictly shorter suffix of the text, so the reader over a whole text terminates |
| Emv.AssembleRejects | src/visa_auth_generator/emv.py:94-114 | when the ARQC input decodes but one of the four detail fields is not even-length hex, the result is the non-hexadecimal error from `build_tlv` |
| TlvDecoding.ParseEncoding | src/visa_auth_generator/emv.py:32-38 | reading a record encoding followed by more text gives that record, then whatever the rest reads as |
| TlvDecoding.ParseEncodeAll | src/visa_auth_generator/emv.py:101-114 | reading the joined encodings of well-formed records gives back exactly those records |
| TlvDecoding.ChipTagsWellFormed | src/visa_auth_generator/emv.py:102-111 | the ten tags are 1- or 2-byte BER tags, each of the width its first byte announces |
| TlvDecoding.ChipDataDecodes | src/visa_auth_generator/emv.py:101-114 | the chip data reads back as exactly ten records, listed in tag order with their values; the 9F36 value is the ATC in 4 hex digits (length byte `02`); the 9F26 value is 16 hex digits (length byte `08`) |
| TlvDecoding.ChipDataIsHex | tests/test_emv.py:49-54 | the chip data is valid hex text: `bytes.fromhex` accepts it and gives one byte per two characters |
| VisaPin.ValidationOrder | src/visa_auth_generator/visa_pin_generator.py:47-58 | an invalid PAN, PIN, PVKI or PVK raises its own error, checked in that order, independently of the cipher |
| VisaPin.RejectedTestInputs | test_visa_pin_generator.py:82-120 | PANs of 11 and 20 digits or with a letter, PINs of 3 and 13 digits or with a letter, and the PVKIs `12`, `A` and integer `10` fail validation |
| VisaPin.AcceptedTestInputs | test_visa_pin_generator.py:8-21 | the test PAN, the PINs `1234` and `12345678`, and the PVKI `1` as text or integer pass validation |
| VisaPin.IntegerPvki | src/visa_auth_generator/visa_pin_generator.py:53-55 | `str` of an integer PVKI is a single digit exactly for 0 to 9 |
| VisaPin.TspDecodes | src/visa_auth_generator/visa_pin_generator.py:62-75 | for validated input the TSP is 16 decimal digits: the PAN digits `pan[-12:-1]`, the PVKI, then the first four PIN digits; read as hex it always gives 8 bytes of packed digit pairs, so for ASCII digits the TSP error cannot occur |
| VisaPin.TspExample | src/visa_auth_generator/visa_pin_generator.py:62-69 | PAN `4000123456789012` and PVKI `1` give the TSP `1234567890111234` with PIN `1234` and `1234567890115678` with PIN `5678` |
| VisaPin.DecimalDigitsAreDigits | src/visa_auth_generator/visa_pin_generator.py:87 | the digit scan returns only decimal digits, no more than the input has characters |
| VisaPin.DecimalDigitsAppend | src/visa_auth_generator/visa_pin_generator.py:87 | scanning a concatenation finds the digits of the first part, then those of the second |
| VisaPin.DecimalDigitsAt | src/visa_auth_generator/visa_pin_generator.py:87 | the j-th digit found is a digit of the input, at a position before which exactly j digits occur: left-to-right order |
| VisaPin.DecimalDigitsSingle | src/visa_auth_generator/visa_pin_generator.py:87 | one character is found exactly when it is a decimal digit, so together with `VisaPin.DecimalDigitsAppend` the scan is exactly the digits of the input in order |
| VisaPin.DecimalDigitsComplete | src/visa_auth_generator/visa_pin_generator.py:87 | every decimal digit of the input is found: the digit at position i is the scan's entry right after the digits found before i, so none is skipped |
| VisaPin.ExtractPvvCorrect | src/visa_auth_generator/visa_pin_generator.py:84-101 | extraction fails, with the ciphertext hex in the error, exactly when fewer than four digits are found; otherwise the PVV is the first four, so exactly four decimal digits |
| VisaPin.ExtractionFailsOnMockedCiphertext | test_visa_pin_generator.py:134-147 | the hex `FACEBEEFCABBAD1E2F` holds only the digits `12`, so extraction fails |
| VisaPin.PvvOutcome | src/visa_auth_generator/visa_pin_generator.py:62-101 | for valid input, the result is the extraction applied to the 16-character uppercase hex of the DES encryption of the TSP bytes under `pvk[:8]` |
| VisaPin.PinTruncation | src/visa_auth_generator/visa_pin_generator.py:65 | two valid PINs that share their first four digits give the same result |
| VisaPin.PvkTruncation | src/visa_auth_generator/visa_pin_generator.py:79 | two PVKs that share their first eight bytes give the same result |
| Demo3des.CheckKey | src/visa_auth_generator/demo_3des.py:23 | `DES3.new` accepts exactly a 16- or 24-byte key that is not degenerate; otherwise it reports the size error or the degeneracy error |
| Demo3des.EcbBlocks | src/visa_auth_generator/demo_3des.py:25 | ECB output has the length of its input |
| Demo3des.Ecb | src/visa_auth_generator/demo_3des.py:25 | ECB succeeds exactly on block-aligned data; otherwise it raises the alignment error |
| Demo3des.EcbBlockwise | src/visa_auth_generator/demo_3des.py:25 | block i of the output is the cipher applied to block i of the input |
| Demo3des.EcbRoundTrip | src/visa_auth_generator/demo_3des.py:21-32 | ECB decryption of the ECB encryption under an accepted key gives the data back |
| Demo3des.PadDataShape | src/visa_auth_generator/demo_3des.py:5-10 | for ASCII text, the padded bytes start with the text's bytes and add 1 to 8 bytes, each equal to that count; their length is a multiple of 8 |
| Demo3des.UnpadData | src/visa_auth_generator/demo_3des.py:12-15 | unpadding fails only on empty data, with the index error; otherwise it returns a prefix of the data |
| Demo3des.UnpadDropsCount | src/visa_auth_generator/demo_3des.py:12-15 | when the last byte p satisfies 0 < p ≤ length, exactly the last p bytes are removed |
| Demo3des.UnpadPad | src/visa_auth_generator/demo_3des.py:5-15 | unpadding padded ASCII text gives back exactly its bytes |
| Demo3des.EncryptPinShape | src/visa_auth_generator/demo_3des.py:21-25 | encrypting an ASCII PIN succeeds exactly under an accepted key; the result is whole blocks, 1 to 8 bytes longer than the PIN, each block the encryption of the matching block of the padded PIN |
| Demo3des.PinRoundTrip | src/visa_auth_generator/demo_3des.py:21-32 | when decryption undoes encryption, an ASCII PIN encrypted under an accepted key decrypts to itself |
| Demo3des.DecryptPinErrors | src/visa_auth_generator/demo_3des.py:27-32 | decryption fails on a refused key first, then on unaligned data, then on empty data; otherwise the result is the UTF-8 decoding of the unpadded plaintext |
| Demo3des.RemoveSpacesAppend | src/visa_auth_generator/demo_3des.py:36 | removing spaces from a concatenation removes them from each part |
| Demo3des.RemoveSpacesCorrect | src/visa_auth_generator/demo_3des.py:36 | the result has no space, and text without spaces is left unchanged |
| Demo3des.SpaceIgnored | src/visa_auth_generator/demo_3des.py:36 | a space inserted anywhere does not change the result |
| Demo3des.HexToBytesCorrect | src/visa_auth_generator/demo_3des.py:34-36 | after removing spaces: non-ASCII text fails, then odd length, then a non-hex digit; otherwise the result has half as many bytes as characters, each the value of its digit pair |
| Demo3des.HexToBytesRoundTrip | src/visa_auth_generator/demo_3des.py:34-36 | lower- or uppercase hex of any bytes converts back to those bytes |
| Demo3des.DecryptPinFromHexCorrect | src/visa_auth_generator/demo_3des.py:38-52 | the wrapper succeeds exactly when both hex texts convert and decryption succeeds, with the same PIN; every failure is `Failed to decrypt PIN: ` followed by the message of the first failing step |
| Demo3des.PinFromHexRoundTrip | src/visa_auth_generator/demo_3des.py:21-52 | an encrypted ASCII PIN and its key written as hex decrypt through the wrapper to that PIN |
| PyText.FromHexPlain | src/visa_auth_generator/emv.py:35 | on text without whitespace, `bytes.fromhex` succeeds exactly on even-length hex, and the bytes are the values of the digit pairs |
| PyText.FromHexErrorKind | src/visa_auth_generator/emv.py:35 | the only `bytes.fromhex` error is the non-hexadecimal one |
| PyText.UnhexlifyCorrect | src/visa_auth_generator/demo_3des.py:36 | `unhexlify` reports non-ASCII text, then odd length, then a non-hex digit; otherwise it decodes every pair |
| PyText.HexRoundTrip | src/visa_auth_generator/emv.py:111 | `fromhex` and `unhexlify` of the lower- or uppercase hex of bytes give back those bytes |
| PyText.HexLowerDenotes | src/visa_auth_generator/emv.py:111 | `bytes.hex()` is ASCII hex digits without whitespace and without uppercase letters, and it denotes the bytes |
| PyText.HexUpperDenotes | src/visa_auth_generator/visa_pin_generator.py:84 | `.hex().upper()` is ASCII hex digits without whitespace and without lowercase letters, and it denotes the bytes |
| PyText.LowerDigit | src/visa_auth_generator/emv.py:111 | a digit value below 16 as one lowercase hex character of that value: decimal exactly below 10, never an uppercase letter |
| PyText.UpperDigit | src/visa_auth_generator/visa_pin_generator.py:84 | `.upper()` of that character: a hex character of the same value, decimal exactly below 10, never a lowercase letter |
| PyText.FormatHexByte | src/visa_auth_generator/emv.py:37 | `02x` of a value below 256 is two lowercase hex digits of that value |
| PyText.FormatHexWord | src/visa_auth_generator/emv.py:92 | `04x` of a value below 65536 is four lowercase hex digits of that value |
| PyText.FormatDecimalFixed | src/visa_auth_generator/emv.py:85 | `012d` of 0 ≤ n < 10^12 is 12 decimal digits denoting n |
| PyText.FormatDecimalNegative | src/visa_auth_generator/emv.py:85 | `012d` of a negative amount starts with `-`, so it is not hex |
| PyText.PyStrSingleDigit | src/visa_auth_generator/visa_pin_generator.py:53 | `str(n)` is a single decimal digit exactly for 0 ≤ n ≤ 9 |
| Utf8.DecodeEncode | src/visa_auth_generator/demo_3des.py:32 | decoding the UTF-8 encoding that `pad_data` produced gives the original text back (for any text) |
| Utf8.EncodeDecode | src/visa_auth_generator/demo_3des.py:32 | strict decoding accepts only the UTF-8 encoding of some text: whatever it decodes, encoding the result gives back exactly the bytes |
| Utf8.EncodeDecodeFirst | src/visa_auth_generator/demo_3des.py:32 | the first character decoded from the bytes encodes to exactly the bytes it was read from |
| Utf8.EncodeAscii | src/visa_auth_generator/demo_3des.py:10 | ASCII text encodes to one byte per character, the character code |

## Left out

- The insides of TripleDES, DES and AES-CMAC (emv.py:27-29 and 69-80; visa_pin_generator.py:80-81; demo_3des.py:23 and 29). They are library code, so they are parameters with fixed output sizes. The model therefore also leaves out the `ValueError` that `algorithms.AES(session_key)` (emv.py:27) raises for a key of a length the library refuses (a length it accepts but CMAC does not would fail only later, inside CMAC): `Emv.GenerateArqc` accepts a key of any length. From `create_chip_data` the key is always the 16-byte `Emv.SessionKey`.
- The library's exact test for a degenerate DES3 key. It is a parameter of `Demo3des.Tdes`.
- Concrete cipher test vectors, which need real ciphers:
  - the PVVs `9756` and `1914`;
  - the test comment's `2023` against the asserted `8895`;
  - the ARQC `d5e796f50cbd7343`.
- The insufficient-digits test mocks a 9-byte ciphertext, which an 8-byte block cipher cannot return. Its hex text is covered by `VisaPin.ExtractionFailsOnMockedCiphertext` on `ExtractPvv` directly.
- `generate_3des_key` (demo_3des.py:17-19). It is randomness.
- `main`, the `__main__` blocks and all printing. They are demo I/O.
- `generator.py` and `main.py`. They are outside these components.
- Python's Unicode-aware `str.isdigit`. Digits are ASCII `0` to `9`. Python also accepts digits such as `²` or Arabic-Indic digits, and the model rejects every such input with `InvalidPan`, `InvalidPin` or `InvalidPvki`. In the source such a digit passes validation (visa_pin_generator.py:47-55); it makes the `bytes.fromhex` of the TSP fail (visa_pin_generator.py:74-75) only when it lies in `pan[-12:-1]`, the PVKI or `pin[:4]`. Elsewhere (the first PAN digits, the check digit, `pin[4:]`) it never enters the TSP and the source returns a PVV. The model therefore leaves out both that reachable error path and those successful results.
- The `isinstance` checks of `generate_visa_pvv`. Parameters have static types, so a PAN given as an integer or a PVK given as text cannot be expressed. The PVKI is text; an integer PVKI is covered through `PyText.PyStr` (`VisaPin.IntegerPvki`).
- A non-integer `amount` (the `TypeError` of `012d`). Its type is `int`. Likewise a non-string `currency_code`, `country_code` or `date` raises `TypeError` in the concatenation (emv.py:94); these are strings in the model.
- Library exception texts are modelled as fixed messages. Their exact wording, in particular that of `UnicodeDecodeError` and of the DES3 key errors, is not checked.
- `Emv.BuildTlvCorrect`: the iff and shape are stated for values without whitespace. With whitespace between digit pairs, `BuildTlv` still models `fromhex` exactly, but no lemma states the result.
- `Emv.BuildTlvCorrect`: the output shape is stated only up to 255 bytes. Beyond that, `02x` gives three or more digits; `BuildTlv` models this, but nothing is proved about it.
- `Demo3des.PadDataShape` and `Demo3des.UnpadPad`: stated only for ASCII text. For other text the pad count comes from characters and the bytes from UTF-8, so the result need not be block aligned.
- `Demo3des.UnpadData`: a last byte of 0 returns the empty prefix, and a last byte larger than the data clamps to the empty prefix, both as Python slices do. No padding validity check is modelled, because `unpad_data` makes none.
- Emv.ChipDataSucceeds, Emv.ChipDataOutput, Emv.ChipDataStartsWithAmount, TlvDecoding.ChipDataDecodes and TlvDecoding.ChipDataIsHex: stated only for country code, currency code and date without whitespace (`Emv.PlainFields`). `create_chip_data` also accepts fields with whitespace between hex pairs, because `bytes.fromhex` skips it; `Emv.CreateChipData` models that, but no lemma states the result.
- Lone surrogate characters. Dafny characters are Unicode scalar values.
