/** EMV chip data: TLV records, the ISO/IEC 9797-1 padded MAC that yields the ARQC
    (Authorization Request Cryptogram), the ATC-based session key and the DE 55 record list.
    TripleDES-ECB and AES-CMAC are parameters: `e3` encrypts one 8-byte block under a
    24-byte key, `cmac` returns a 16-byte tag. */
module Emv {
  import opened Results
  import opened Bytes
  import opened PyText

  /** What `create_chip_data` can raise. */
  datatype ChipError =
    | InvalidHexEncoding(cause: HexError)  // ValueError from bytes.fromhex
    | InvalidMdkLength                     // ValueError raised by the length check
    | AtcOutOfRange                        // OverflowError from int.to_bytes(2, 'big')
    | MissingField(key: string)            // KeyError from the details dictionary
  {
    function Message(): string {
      match this
      case InvalidHexEncoding(cause) => cause.Message()
      case InvalidMdkLength => "MDK must be 16 bytes (32 hex characters)."
      case AtcOutOfRange => "int too big to convert"
      case MissingField(key) => key
    }
  }

  // ------------------------------------------------------------------ TLV records

  /** One record of the chip data: a tag and a value, both as hex text. */
  datatype Tlv = Tlv(tag: string, value: string)

  /** `build_tlv`: the value is decoded only to count its bytes; the text returned is the
      tag, the byte count in `02x` format and the value exactly as given. */
  function BuildTlv(tag: string, value: string): Result<string, HexError> {
    var valueBytes :- FromHex(value);
    Ok(tag + FormatHex(|valueBytes|, 2) + value)
  }

  /** `"".join([build_tlv(t, v) for (t, v) in records])`, raising at the first failure. */
  function BuildAll(records: seq<Tlv>): Result<string, HexError> {
    if records == [] then Ok("")
    else
      var first :- BuildTlv(records[0].tag, records[0].value);
      var rest :- BuildAll(records[1..]);
      Ok(first + rest)
  }

  /** Hex text without whitespace that `bytes.fromhex` accepts. */
  predicate IsEvenHex(s: string) { |s| % 2 == 0 && AllHex(s) && NoWhitespace(s) }

  /** The single-byte-length encoding of a record whose value has at most 255 bytes. */
  function Encoding(r: Tlv): string {
    r.tag + FormatHex(|r.value| / 2, 2) + r.value
  }

  function EncodeAll(records: seq<Tlv>): string {
    if records == [] then "" else Encoding(records[0]) + EncodeAll(records[1..])
  }

  /** On whitespace-free text, `build_tlv` fails exactly on odd-length or non-hex values;
      otherwise its output is the tag, the value's byte count as two lowercase hex digits
      (for at most 255 bytes) and the value. */
  lemma BuildTlvCorrect(tag: string, value: string)
    requires NoWhitespace(value)
    ensures BuildTlv(tag, value).Ok? <==> |value| % 2 == 0 && AllHex(value)
    ensures BuildTlv(tag, value).Err? ==> BuildTlv(tag, value).error == NonHexadecimalNumber
    ensures BuildTlv(tag, value).Ok? && |value| <= 510 ==>
      && BuildTlv(tag, value).value == tag + FormatHex(|value| / 2, 2) + value
      && |FormatHex(|value| / 2, 2)| == 2
      && TextValue(FormatHex(|value| / 2, 2), 16) == |value| / 2
  {
    FromHexPlain(value);
    FromHexErrorKind(value);
    if FromHex(value).Ok? && |value| <= 510 {
      assert |FromHex(value).value| == |value| / 2;
      FormatHexByte(|value| / 2);
    }
  }

  /** `build_tlv("9F02", "000000012345")` is `9F02`, then the length `06`, then the value. */
  lemma BuildTlvAmountExample()
    ensures BuildTlv("9F02", "000000012345") == Ok("9F02" + "06" + "000000012345")
  {
    var v := "000000012345";
    ExampleValueIsHex();
    BuildTlvCorrect("9F02", v);
    FormatHexSix();
    assert |v| / 2 == 6;
  }

  lemma ExampleValueIsHex()
    ensures IsEvenHex("000000012345")
  {
    var v := "000000012345";
    forall i | 0 <= i < |v| ensures '0' <= v[i] <= '5' {
      assert v[i] in "012345";
    }
  }

  lemma FormatHexSix()
    ensures FormatHex(6, 2) == "06"
  {
    assert Numeral(6, 16) == [6];
    assert DigitText([6]) == "6";
  }

  /** The join succeeds when every value is even-length hex. */
  lemma {:induction false} BuildAllSucceeds(records: seq<Tlv>)
    requires forall i :: 0 <= i < |records| ==> IsEvenHex(records[i].value)
    ensures BuildAll(records).Ok?
  {
    if records != [] {
      BuildTlvCorrect(records[0].tag, records[0].value);
      BuildAllSucceeds(records[1..]);
    }
  }

  /** When every value is even-length hex of at most 255 bytes, the join of `build_tlv`
      results is the concatenation of the records' single-byte-length encodings. */
  lemma {:induction false} BuildAllEncodes(records: seq<Tlv>)
    requires forall i :: 0 <= i < |records| ==> IsEvenHex(records[i].value) && |records[i].value| <= 510
    ensures BuildAll(records) == Ok(EncodeAll(records))
  {
    if records != [] {
      BuildTlvCorrect(records[0].tag, records[0].value);
      BuildAllEncodes(records[1..]);
    }
  }

  /** The join fails as soon as one value is not even-length hex. */
  lemma {:induction false} BuildAllFails(records: seq<Tlv>, k: nat)
    requires k < |records|
    requires forall i :: 0 <= i < |records| ==> NoWhitespace(records[i].value)
    requires !IsEvenHex(records[k].value)
    ensures BuildAll(records) == Err(NonHexadecimalNumber)
  {
    BuildTlvCorrect(records[0].tag, records[0].value);
    if k > 0 {
      BuildAllFails(records[1..], k - 1);
    }
  }

  // ------------------------------------------------------------------ ARQC

  /** Length after ISO/IEC 9797-1 padding method 2 with 16-byte blocks. */
  function Method2Length(n: nat): nat { (n / 16 + 1) * 16 }

  /** ISO/IEC 9797-1 padding method 2: one 0x80 byte, then 0x00 bytes up to a multiple of 16. */
  function Method2Padding(data: seq<Byte>): seq<Byte> {
    data + [0x80] + Repeat(0, Method2Length(|data|) - |data| - 1)
  }

  /** The padded data starts with the data, continues with 0x80 and then only 0x00, and
      is a whole number of 16-byte blocks, 1 to 16 bytes longer than the data. */
  lemma Method2PaddingShape(data: seq<Byte>)
    ensures var p := Method2Padding(data);
      && p[..|data|] == data
      && p[|data|] == 0x80
      && (forall i :: |data| < i < |p| ==> p[i] == 0x00)
      && |p| % 16 == 0
      && |data| < |p| <= |data| + 16
  {
  }

  /** Its length is the least multiple of 16 above the data's length. */
  lemma Method2PaddingMinimal(data: seq<Byte>, m: nat)
    requires m % 16 == 0 && m > |data|
    ensures |Method2Padding(data)| <= m
  {
  }

  /** The ARQC: the first 8 bytes of the MAC of the padded transaction data. */
  function Arqc(cmac: MacFunction, sessionKey: seq<Byte>, data: seq<Byte>): (arqc: seq<Byte>)
    ensures |arqc| == 8
  {
    cmac(sessionKey, Method2Padding(data))[..8]
  }

  /** `generate_arqc`: pads by appending 0x80 and then 0x00 until the length is a multiple
      of 16, MACs the result and keeps 8 bytes. */
  method GenerateArqc(cmac: MacFunction, sessionKey: seq<Byte>, transactionData: seq<Byte>)
    returns (arqc: seq<Byte>)
    ensures |arqc| == 8
    ensures arqc == Arqc(cmac, sessionKey, transactionData)
  {
    var padded := transactionData + [0x80];
    while |padded| % 16 != 0
      invariant |transactionData| < |padded| <= Method2Length(|transactionData|)
      invariant padded == transactionData + [0x80] + Repeat(0, |padded| - |transactionData| - 1)
      decreases Method2Length(|transactionData|) - |padded|
    {
      padded := padded + [0x00];
    }
    var fullMac := cmac(sessionKey, padded);
    arqc := fullMac[..8];
  }

  // ------------------------------------------------------------------ session key

  /** The 24-byte TripleDES key built from the 16-byte MDK: K1 K2 K1. */
  function TripleLengthKey(mdk: seq<Byte>): (key: seq<Byte>)
    requires |mdk| == 16
    ensures |key| == 24 && key[..16] == mdk && key[16..] == key[..8]
  {
    mdk + mdk[..8]
  }

  /** `atc.to_bytes(2, 'big')` */
  function AtcBytes(atc: int): (r: Result<seq<Byte>, ChipError>)
    ensures r.Ok? <==> 0 <= atc < 65536
    ensures r.Err? ==> r.error == AtcOutOfRange
    ensures r.Ok? ==> |r.value| == 2 && r.value[0] as int * 256 + r.value[1] == atc
  {
    if 0 <= atc < 65536 then Ok([atc / 256, atc % 256]) else Err(AtcOutOfRange)
  }

  /** A derivation block: the two ATC bytes and six `fill` bytes. */
  function DerivationBlock(atcBytes: seq<Byte>, fill: Byte): Block
    requires |atcBytes| == 2
  {
    atcBytes + Repeat(fill, 6)
  }

  /** The session key: the two derivation blocks (fill 0x00, then 0xFF) each encrypted
      with TripleDES-ECB under the triple-length key, concatenated. */
  function SessionKey(e3: BlockCipher, mdk: seq<Byte>, atcBytes: seq<Byte>): (key: seq<Byte>)
    requires |mdk| == 16 && |atcBytes| == 2
    ensures |key| == 16
  {
    var key3 := TripleLengthKey(mdk);
    e3(key3, DerivationBlock(atcBytes, 0x00)) + e3(key3, DerivationBlock(atcBytes, 0xFF))
  }

  /** The two derivation blocks carry the ATC big-endian in front, differ from each other,
      and the session key's halves are their two encryptions. */
  lemma SessionKeyStructure(e3: BlockCipher, mdk: seq<Byte>, atc: int)
    requires |mdk| == 16 && 0 <= atc < 65536
    ensures var atcBytes := AtcBytes(atc).value;
      var b1, b2 := DerivationBlock(atcBytes, 0x00), DerivationBlock(atcBytes, 0xFF);
      && b1[0] as int * 256 + b1[1] == atc && b2[0] as int * 256 + b2[1] == atc
      && (forall i :: 2 <= i < 8 ==> b1[i] == 0x00 && b2[i] == 0xFF)
      && b1 != b2
      && SessionKey(e3, mdk, atcBytes)[..8] == e3(mdk + mdk[..8], b1)
      && SessionKey(e3, mdk, atcBytes)[8..] == e3(mdk + mdk[..8], b2)
  {
    var atcBytes := AtcBytes(atc).value;
    assert DerivationBlock(atcBytes, 0x00)[2] != DerivationBlock(atcBytes, 0xFF)[2];
  }

  // ------------------------------------------------------------------ DE 55

  /** The transaction details dictionary; a missing key is `None`. */
  datatype TransactionDetails = TransactionDetails(
    amount: Option<int>,
    currencyCode: Option<string>,
    countryCode: Option<string>,
    date: Option<string>)

  const AmountOther: string := "000000000000"
  const Tvr: string := "0000008000"
  const TransactionType: string := "00"
  const UnpredictableNumber: string := "12345678"

  /** The hex text the ARQC is computed over, in CDOL1 order. */
  function ArqcInput(amountText: string, countryCode: string, currencyCode: string,
                     date: string, atcHex: string): string
  {
    amountText + AmountOther + countryCode + Tvr + currencyCode + date + TransactionType
      + UnpredictableNumber + atcHex
  }

  /** The ten DE 55 records in their fixed order. */
  function ChipRecords(amountText: string, countryCode: string, currencyCode: string,
                       date: string, atcHex: string, arqcHex: string): seq<Tlv>
  {
    [ Tlv("9F02", amountText),          // Amount, Authorised
      Tlv("9F03", AmountOther),         // Amount, Other
      Tlv("9F1A", countryCode),         // Terminal Country Code
      Tlv("95", Tvr),                   // Terminal Verification Results
      Tlv("5F2A", currencyCode),        // Transaction Currency Code
      Tlv("9A", date),                  // Transaction Date
      Tlv("9C", TransactionType),       // Transaction Type
      Tlv("9F37", UnpredictableNumber), // Unpredictable Number
      Tlv("9F36", atcHex),              // Application Transaction Counter
      Tlv("9F26", arqcHex) ]            // Application Cryptogram
  }

  /** Each record value is free of whitespace when the six variable fields are. */
  lemma ChipRecordsNoWhitespace(amountText: string, countryCode: string, currencyCode: string,
                                date: string, atcHex: string, arqcHex: string)
    requires NoWhitespace(amountText) && NoWhitespace(countryCode) && NoWhitespace(currencyCode)
    requires NoWhitespace(date) && NoWhitespace(atcHex) && NoWhitespace(arqcHex)
    ensures var rs := ChipRecords(amountText, countryCode, currencyCode, date, atcHex, arqcHex);
      forall i :: 0 <= i < |rs| ==> NoWhitespace(rs[i].value)
  {
    ConstantsAreHex();
  }

  /** Each record value is even hex when the six variable fields are. */
  lemma ChipRecordsEvenHex(amountText: string, countryCode: string, currencyCode: string,
                           date: string, atcHex: string, arqcHex: string)
    requires IsEvenHex(amountText) && IsEvenHex(countryCode) && IsEvenHex(currencyCode)
    requires IsEvenHex(date) && IsEvenHex(atcHex) && IsEvenHex(arqcHex)
    ensures var rs := ChipRecords(amountText, countryCode, currencyCode, date, atcHex, arqcHex);
      forall i :: 0 <= i < |rs| ==> IsEvenHex(rs[i].value)
  {
    ConstantsAreHex();
  }

  /** Each record value fits a one-byte length when the six variable fields do. */
  lemma ChipRecordsShort(amountText: string, countryCode: string, currencyCode: string,
                         date: string, atcHex: string, arqcHex: string)
    requires |amountText| <= 510 && |countryCode| <= 510 && |currencyCode| <= 510
    requires |date| <= 510 && |atcHex| <= 510 && |arqcHex| <= 510
    ensures var rs := ChipRecords(amountText, countryCode, currencyCode, date, atcHex, arqcHex);
      forall i :: 0 <= i < |rs| ==> |rs[i].value| <= 510
  {
  }

  /** Short even-length hex fields join into the encoding of the ten records. */
  lemma ChipRecordsEncode(amountText: string, countryCode: string, currencyCode: string,
                          date: string, atcHex: string, arqcHex: string)
    requires IsEvenHex(amountText) && IsEvenHex(countryCode) && IsEvenHex(currencyCode)
    requires IsEvenHex(date) && IsEvenHex(atcHex) && IsEvenHex(arqcHex)
    requires |amountText| <= 510 && |countryCode| <= 510 && |currencyCode| <= 510
    requires |date| <= 510 && |atcHex| <= 510 && |arqcHex| <= 510
    ensures var rs := ChipRecords(amountText, countryCode, currencyCode, date, atcHex, arqcHex);
      BuildAll(rs) == Ok(EncodeAll(rs))
  {
    ChipRecordsEvenHex(amountText, countryCode, currencyCode, date, atcHex, arqcHex);
    ChipRecordsShort(amountText, countryCode, currencyCode, date, atcHex, arqcHex);
    BuildAllEncodes(ChipRecords(amountText, countryCode, currencyCode, date, atcHex, arqcHex));
  }

  function Required<T>(v: Option<T>, key: string): Result<T, ChipError> {
    match v
    case Some(x) => Ok(x)
    case None => Err(MissingField(key))
  }

  /** A `ValueError` from hex decoding, raised through `create_chip_data`. */
  function HexCause<T>(r: Result<T, HexError>): Result<T, ChipError> {
    match r
    case Ok(v) => Ok(v)
    case Err(e) => Err(InvalidHexEncoding(e))
  }

  /** `create_chip_data`. `pan` is accepted and never read, as `create_chip_data` does. */
  function CreateChipData(e3: BlockCipher, cmac: MacFunction, mdkHex: string, pan: string,
                          atc: int, details: TransactionDetails): Result<string, ChipError>
  {
    var mdk :- HexCause(FromHex(mdkHex));
    if |mdk| != 16 then Err(InvalidMdkLength)
    else
      var atcBytes :- AtcBytes(atc);
      var sessionKey := SessionKey(e3, mdk, atcBytes);
      var amount :- Required(details.amount, "amount");
      var currencyCode :- Required(details.currencyCode, "currency_code");
      var countryCode :- Required(details.countryCode, "country_code");
      var date :- Required(details.date, "date");
      AuthenticateAndAssemble(cmac, sessionKey, FormatDecimal(amount, 12), countryCode,
                              currencyCode, date, FormatHex(atc, 4))
  }

  /** Steps 2 to 4 of `create_chip_data`: decode the ARQC input, compute the ARQC and
      join the ten records. */
  function AuthenticateAndAssemble(cmac: MacFunction, sessionKey: seq<Byte>, amountText: string,
                                   countryCode: string, currencyCode: string, date: string,
                                   atcHex: string): Result<string, ChipError>
  {
    var arqcData :- HexCause(FromHex(ArqcInput(amountText, countryCode, currencyCode, date, atcHex)));
    var arqc := Arqc(cmac, sessionKey, arqcData);
    HexCause(BuildAll(ChipRecords(amountText, countryCode, currencyCode, date, atcHex, HexLower(arqc))))
  }

  // ------------------------------------------------------------------ DE 55 properties

  /** The MDK is decoded and its length checked, and then the ATC range, before any
      cipher is used: on these failures the result is the same whatever the ciphers. */
  lemma ChipDataChecksFirst(e3: BlockCipher, cmac: MacFunction, e3': BlockCipher, cmac': MacFunction,
                            mdkHex: string, pan: string, atc: int, details: TransactionDetails)
    ensures FromHex(mdkHex).Err? ==>
      CreateChipData(e3, cmac, mdkHex, pan, atc, details) == Err(InvalidHexEncoding(NonHexadecimalNumber))
    ensures FromHex(mdkHex).Ok? && |FromHex(mdkHex).value| != 16 ==>
      CreateChipData(e3, cmac, mdkHex, pan, atc, details) == Err(InvalidMdkLength)
    ensures FromHex(mdkHex).Ok? && |FromHex(mdkHex).value| == 16 && !(0 <= atc < 65536) ==>
      CreateChipData(e3, cmac, mdkHex, pan, atc, details) == Err(AtcOutOfRange)
    ensures !(FromHex(mdkHex).Ok? && |FromHex(mdkHex).value| == 16 && 0 <= atc < 65536) ==>
      CreateChipData(e3, cmac, mdkHex, pan, atc, details) == CreateChipData(e3', cmac', mdkHex, pan, atc, details)
  {
    FromHexErrorKind(mdkHex);
  }

  /** The test's short MDK `123456` (three bytes) is rejected by the length check. */
  lemma ShortMdkRejected(e3: BlockCipher, cmac: MacFunction, details: TransactionDetails)
    ensures CreateChipData(e3, cmac, "123456", "4111111111111111", 1, details) == Err(InvalidMdkLength)
  {
    ShortMdkIsHex();
    FromHexPlain("123456");
  }

  lemma ShortMdkIsHex()
    ensures IsEvenHex("123456")
  {
    var m := "123456";
    forall i | 0 <= i < |m| ensures '0' <= m[i] <= '9' { assert m[i] in "123456"; }
  }

  /** With a valid MDK and ATC, the dictionary keys are looked up in the order amount,
      currency code, country code, date, and the first missing one is reported. */
  lemma ChipDataMissingField(e3: BlockCipher, cmac: MacFunction, mdkHex: string, pan: string,
                             atc: int, details: TransactionDetails)
    requires FromHex(mdkHex).Ok? && |FromHex(mdkHex).value| == 16 && 0 <= atc < 65536
    ensures details.amount.None? ==>
      CreateChipData(e3, cmac, mdkHex, pan, atc, details) == Err(MissingField("amount"))
    ensures details.amount.Some? && details.currencyCode.None? ==>
      CreateChipData(e3, cmac, mdkHex, pan, atc, details) == Err(MissingField("currency_code"))
    ensures details.amount.Some? && details.currencyCode.Some? && details.countryCode.None? ==>
      CreateChipData(e3, cmac, mdkHex, pan, atc, details) == Err(MissingField("country_code"))
    ensures details.amount.Some? && details.currencyCode.Some? && details.countryCode.Some?
            && details.date.None? ==>
      CreateChipData(e3, cmac, mdkHex, pan, atc, details) == Err(MissingField("date"))
  {
  }

  predicate Complete(details: TransactionDetails) {
    details.amount.Some? && details.currencyCode.Some? && details.countryCode.Some? && details.date.Some?
  }

  /** The text fields carry no whitespace (so hex validity is a property of each field). */
  predicate PlainFields(details: TransactionDetails)
    requires Complete(details)
  {
    NoWhitespace(details.currencyCode.value) && NoWhitespace(details.countryCode.value)
    && NoWhitespace(details.date.value)
  }

  lemma ConstantsAreHex()
    ensures IsEvenHex(AmountOther) && IsEvenHex(Tvr) && IsEvenHex(TransactionType)
    ensures IsEvenHex(UnpredictableNumber)
  {
    forall i | 0 <= i < 12 ensures '0' <= AmountOther[i] <= '9' { assert AmountOther[i] in "0"; }
    forall i | 0 <= i < 10 ensures '0' <= Tvr[i] <= '9' { assert Tvr[i] in "08"; }
    forall i | 0 <= i < 2 ensures '0' <= TransactionType[i] <= '9' { assert TransactionType[i] in "0"; }
    forall i | 0 <= i < 8 ensures '0' <= UnpredictableNumber[i] <= '9' {
      assert UnpredictableNumber[i] in "12345678";
    }
  }

  /** Even-length hex fields give ARQC input text that decodes. */
  lemma ArqcInputDecodes(amountText: string, countryCode: string, currencyCode: string,
                         date: string, atcHex: string)
    requires IsEvenHex(amountText) && IsEvenHex(countryCode) && IsEvenHex(currencyCode)
    requires IsEvenHex(date) && IsEvenHex(atcHex)
    ensures FromHex(ArqcInput(amountText, countryCode, currencyCode, date, atcHex)).Ok?
  {
    ConstantsAreHex();
    ArqcInputText(amountText, countryCode, currencyCode, date, atcHex);
    var s := ArqcInput(amountText, countryCode, currencyCode, date, atcHex);
    assert |s| == |amountText| + |countryCode| + |currencyCode| + |date| + |atcHex| + 32;
    FromHexPlain(s);
  }

  /** The ARQC input text is whitespace-free hex exactly when every field is, and its
      length is odd exactly when an odd number of the fields are. */
  lemma ArqcInputHex(amountText: string, countryCode: string, currencyCode: string,
                     date: string, atcHex: string)
    requires NoWhitespace(amountText) && NoWhitespace(countryCode) && NoWhitespace(currencyCode)
    requires NoWhitespace(date) && IsEvenHex(atcHex)
    ensures var s := ArqcInput(amountText, countryCode, currencyCode, date, atcHex);
      && NoWhitespace(s)
      && (AllHex(s) <==> AllHex(amountText) && AllHex(countryCode) && AllHex(currencyCode) && AllHex(date))
      && |s| % 2 == (|amountText| + |countryCode| + |currencyCode| + |date|) % 2
  {
    ConstantsAreHex();
    ArqcInputText(amountText, countryCode, currencyCode, date, atcHex);
    var s := ArqcInput(amountText, countryCode, currencyCode, date, atcHex);
    assert |s| == |amountText| + |countryCode| + |currencyCode| + |date| + |atcHex| + 32;
    assert |atcHex| % 2 == 0;
  }

  /** The ARQC input text was built by concatenation: it is hex, or whitespace-free, exactly
      when every part is. */
  lemma ArqcInputText(amountText: string, countryCode: string, currencyCode: string,
                      date: string, atcHex: string)
    ensures var s := ArqcInput(amountText, countryCode, currencyCode, date, atcHex);
      && (NoWhitespace(s) <==>
            (NoWhitespace(amountText) && NoWhitespace(AmountOther) && NoWhitespace(countryCode)
             && NoWhitespace(Tvr) && NoWhitespace(currencyCode) && NoWhitespace(date)
             && NoWhitespace(TransactionType) && NoWhitespace(UnpredictableNumber)
             && NoWhitespace(atcHex)))
      && (AllHex(s) <==>
            (AllHex(amountText) && AllHex(AmountOther) && AllHex(countryCode) && AllHex(Tvr)
             && AllHex(currencyCode) && AllHex(date) && AllHex(TransactionType)
             && AllHex(UnpredictableNumber) && AllHex(atcHex)))
  {
    var s1 := amountText + AmountOther;
    var s2 := s1 + countryCode;
    var s3 := s2 + Tvr;
    var s4 := s3 + currencyCode;
    var s5 := s4 + date;
    var s6 := s5 + TransactionType;
    var s7 := s6 + UnpredictableNumber;
    TextConcat(amountText, AmountOther);
    TextConcat(s1, countryCode);
    TextConcat(s2, Tvr);
    TextConcat(s3, currencyCode);
    TextConcat(s4, date);
    TextConcat(s5, TransactionType);
    TextConcat(s6, UnpredictableNumber);
    TextConcat(s7, atcHex);
  }

  /** With a valid MDK, a valid ATC and all four details present, `create_chip_data` is
      the authentication and assembly step applied to the derived session key. This only
      unfolds `CreateChipData`; it is a proof step for the lemmas below. */
  lemma ChipDataUnfold(e3: BlockCipher, cmac: MacFunction, mdkHex: string, pan: string,
                       atc: int, details: TransactionDetails)
    requires FromHex(mdkHex).Ok? && |FromHex(mdkHex).value| == 16 && 0 <= atc < 65536
    requires Complete(details)
    ensures CreateChipData(e3, cmac, mdkHex, pan, atc, details)
         == AuthenticateAndAssemble(cmac, SessionKey(e3, FromHex(mdkHex).value, AtcBytes(atc).value),
                                    FormatDecimal(details.amount.value, 12), details.countryCode.value,
                                    details.currencyCode.value, details.date.value, FormatHex(atc, 4))
  {
  }

  /** Whitespace-free fields assemble exactly when each is even-length hex. */
  lemma AssembleSucceeds(cmac: MacFunction, sessionKey: seq<Byte>, amountText: string,
                         countryCode: string, currencyCode: string, date: string, atcHex: string)
    requires NoWhitespace(amountText) && NoWhitespace(countryCode) && NoWhitespace(currencyCode)
    requires NoWhitespace(date) && IsEvenHex(atcHex)
    ensures AuthenticateAndAssemble(cmac, sessionKey, amountText, countryCode, currencyCode, date, atcHex).Ok?
      <==> IsEvenHex(amountText) && IsEvenHex(countryCode) && IsEvenHex(currencyCode) && IsEvenHex(date)
  {
    if IsEvenHex(amountText) && IsEvenHex(countryCode) && IsEvenHex(currencyCode) && IsEvenHex(date) {
      AssembleAccepts(cmac, sessionKey, amountText, countryCode, currencyCode, date, atcHex);
    } else if FromHex(ArqcInput(amountText, countryCode, currencyCode, date, atcHex)).Ok? {
      AssembleRejects(cmac, sessionKey, amountText, countryCode, currencyCode, date, atcHex);
    }
  }

  lemma AssembleAccepts(cmac: MacFunction, sessionKey: seq<Byte>, amountText: string,
                        countryCode: string, currencyCode: string, date: string, atcHex: string)
    requires IsEvenHex(amountText) && IsEvenHex(countryCode) && IsEvenHex(currencyCode)
    requires IsEvenHex(date) && IsEvenHex(atcHex)
    ensures AuthenticateAndAssemble(cmac, sessionKey, amountText, countryCode, currencyCode, date, atcHex).Ok?
  {
    var input := ArqcInput(amountText, countryCode, currencyCode, date, atcHex);
    ArqcInputDecodes(amountText, countryCode, currencyCode, date, atcHex);
    var arqc := Arqc(cmac, sessionKey, FromHex(input).value);
    HexLowerDenotes(arqc);
    ChipRecordsEvenHex(amountText, countryCode, currencyCode, date, atcHex, HexLower(arqc));
    BuildAllSucceeds(ChipRecords(amountText, countryCode, currencyCode, date, atcHex, HexLower(arqc)));
  }

  lemma AssembleRejects(cmac: MacFunction, sessionKey: seq<Byte>, amountText: string,
                        countryCode: string, currencyCode: string, date: string, atcHex: string)
    requires NoWhitespace(amountText) && NoWhitespace(countryCode) && NoWhitespace(currencyCode)
    requires NoWhitespace(date) && IsEvenHex(atcHex)
    requires FromHex(ArqcInput(amountText, countryCode, currencyCode, date, atcHex)).Ok?
    requires !(IsEvenHex(amountText) && IsEvenHex(countryCode) && IsEvenHex(currencyCode) && IsEvenHex(date))
    ensures AuthenticateAndAssemble(cmac, sessionKey, amountText, countryCode, currencyCode, date, atcHex)
         == Err(InvalidHexEncoding(NonHexadecimalNumber))
  {
    var input := ArqcInput(amountText, countryCode, currencyCode, date, atcHex);
    var arqc := Arqc(cmac, sessionKey, FromHex(input).value);
    HexLowerDenotes(arqc);
    AllHexIsPlain(atcHex);
    ChipRecordsReject(amountText, countryCode, currencyCode, date, atcHex, HexLower(arqc));
  }

  /** The join of the ten records fails when one of the four detail fields is not
      even-length hex. */
  lemma ChipRecordsReject(amountText: string, countryCode: string, currencyCode: string,
                          date: string, atcHex: string, arqcHex: string)
    requires NoWhitespace(amountText) && NoWhitespace(countryCode) && NoWhitespace(currencyCode)
    requires NoWhitespace(date) && NoWhitespace(atcHex) && NoWhitespace(arqcHex)
    requires !(IsEvenHex(amountText) && IsEvenHex(countryCode) && IsEvenHex(currencyCode) && IsEvenHex(date))
    ensures BuildAll(ChipRecords(amountText, countryCode, currencyCode, date, atcHex, arqcHex))
         == Err(NonHexadecimalNumber)
  {
    ChipRecordsNoWhitespace(amountText, countryCode, currencyCode, date, atcHex, arqcHex);
    var k := if !IsEvenHex(amountText) then 0 else if !IsEvenHex(countryCode) then 2
             else if !IsEvenHex(currencyCode) then 4 else 5;
    BuildAllFails(ChipRecords(amountText, countryCode, currencyCode, date, atcHex, arqcHex), k);
  }

  /** Fields of at most 255 bytes assemble into the encoding of the ten records. */
  lemma AssembleOutput(cmac: MacFunction, sessionKey: seq<Byte>, amountText: string,
                       countryCode: string, currencyCode: string, date: string, atcHex: string)
    requires IsEvenHex(amountText) && IsEvenHex(countryCode) && IsEvenHex(currencyCode)
    requires IsEvenHex(date) && IsEvenHex(atcHex) && |atcHex| == 4
    requires |amountText| <= 510 && |countryCode| <= 510 && |currencyCode| <= 510 && |date| <= 510
    ensures var input := ArqcInput(amountText, countryCode, currencyCode, date, atcHex);
      && FromHex(input).Ok?
      && AuthenticateAndAssemble(cmac, sessionKey, amountText, countryCode, currencyCode, date, atcHex)
         == Ok(EncodeAll(ChipRecords(amountText, countryCode, currencyCode, date, atcHex,
                                     HexLower(Arqc(cmac, sessionKey, FromHex(input).value)))))
  {
    var input := ArqcInput(amountText, countryCode, currencyCode, date, atcHex);
    ArqcInputDecodes(amountText, countryCode, currencyCode, date, atcHex);
    var arqc := Arqc(cmac, sessionKey, FromHex(input).value);
    HexLowerDenotes(arqc);
    ChipRecordsEncode(amountText, countryCode, currencyCode, date, atcHex, HexLower(arqc));
  }

  /** With a valid MDK and ATC, all four details present and whitespace-free text fields,
      `create_chip_data` succeeds exactly when the formatted amount and the three text
      fields are each even-length hex. */
  lemma ChipDataSucceeds(e3: BlockCipher, cmac: MacFunction, mdkHex: string, pan: string,
                         atc: int, details: TransactionDetails)
    requires FromHex(mdkHex).Ok? && |FromHex(mdkHex).value| == 16 && 0 <= atc < 65536
    requires Complete(details) && PlainFields(details)
    ensures CreateChipData(e3, cmac, mdkHex, pan, atc, details).Ok? <==>
      && IsEvenHex(FormatDecimal(details.amount.value, 12))
      && IsEvenHex(details.countryCode.value)
      && IsEvenHex(details.currencyCode.value)
      && IsEvenHex(details.date.value)
  {
    ChipDataUnfold(e3, cmac, mdkHex, pan, atc, details);
    FormatDecimalNoWhitespace(details.amount.value, 12);
    FormatHexWord(atc);
    AssembleSucceeds(cmac, SessionKey(e3, FromHex(mdkHex).value, AtcBytes(atc).value),
                     FormatDecimal(details.amount.value, 12), details.countryCode.value,
                     details.currencyCode.value, details.date.value, FormatHex(atc, 4));
  }

  /** On success the output is the single-byte-length encoding of the ten records, the
      ARQC taken over the decoded ARQC input under the ATC-derived session key. */
  lemma ChipDataOutput(e3: BlockCipher, cmac: MacFunction, mdkHex: string, pan: string,
                       atc: int, details: TransactionDetails)
    requires CreateChipData(e3, cmac, mdkHex, pan, atc, details).Ok?
    requires Complete(details) && PlainFields(details)
    requires |FormatDecimal(details.amount.value, 12)| <= 510 && |details.countryCode.value| <= 510
    requires |details.currencyCode.value| <= 510 && |details.date.value| <= 510
    ensures FromHex(mdkHex).Ok? && |FromHex(mdkHex).value| == 16 && 0 <= atc < 65536
    ensures var amountText := FormatDecimal(details.amount.value, 12);
      var country, currency, date := details.countryCode.value, details.currencyCode.value, details.date.value;
      var input := ArqcInput(amountText, country, currency, date, FormatHex(atc, 4));
      && FromHex(input).Ok?
      && var arqc := Arqc(cmac, SessionKey(e3, FromHex(mdkHex).value, AtcBytes(atc).value), FromHex(input).value);
         CreateChipData(e3, cmac, mdkHex, pan, atc, details).value
           == EncodeAll(ChipRecords(amountText, country, currency, date, FormatHex(atc, 4), HexLower(arqc)))
  {
    ChipDataChecksFirst(e3, cmac, e3, cmac, mdkHex, pan, atc, details);
    ChipDataSucceeds(e3, cmac, mdkHex, pan, atc, details);
    ChipDataUnfold(e3, cmac, mdkHex, pan, atc, details);
    FormatHexWord(atc);
    AssembleOutput(cmac, SessionKey(e3, FromHex(mdkHex).value, AtcBytes(atc).value),
                   FormatDecimal(details.amount.value, 12), details.countryCode.value,
                   details.currencyCode.value, details.date.value, FormatHex(atc, 4));
  }

  /** An amount in `0 .. 999999999999` appears as the first record: `9F0206` followed by
      its twelve zero-padded decimal digits, which read back as the amount. */
  lemma ChipDataStartsWithAmount(e3: BlockCipher, cmac: MacFunction, mdkHex: string, pan: string,
                                 atc: int, details: TransactionDetails)
    requires CreateChipData(e3, cmac, mdkHex, pan, atc, details).Ok?
    requires Complete(details) && PlainFields(details)
    requires 0 <= details.amount.value < 1000000000000
    requires |details.countryCode.value| <= 510
    requires |details.currencyCode.value| <= 510 && |details.date.value| <= 510
    ensures var out := CreateChipData(e3, cmac, mdkHex, pan, atc, details).value;
      var amountText := FormatDecimal(details.amount.value, 12);
      && |amountText| == 12 && IsDigitString(amountText) && TextValue(amountText, 10) == details.amount.value
      && |out| >= 18 && out[..18] == "9F0206" + amountText
  {
    TwelveDigits();
    FormatDecimalFixed(details.amount.value, 12);
    ChipDataOutput(e3, cmac, mdkHex, pan, atc, details);
    var amountText := FormatDecimal(details.amount.value, 12);
    AmountRecordFirst(amountText, details.countryCode.value, details.currencyCode.value,
                      details.date.value, FormatHex(atc, 4),
                      HexLower(Arqc(cmac, SessionKey(e3, FromHex(mdkHex).value, AtcBytes(atc).value),
                                    FromHex(ArqcInput(amountText, details.countryCode.value,
                                                      details.currencyCode.value, details.date.value,
                                                      FormatHex(atc, 4))).value)));
  }

  lemma TwelveDigits()
    ensures Pow(10, 12) == 1000000000000
  {
    assert Pow(10, 0) == 1;
    assert Pow(10, 6) == 1000000;
    assert Pow(10, 12) == 1000000 * Pow(10, 6) by { PowAdd(10, 6, 6); }
  }

  /** The encoded records start with the amount record, `9F0206` and twelve characters. */
  lemma AmountRecordFirst(amountText: string, countryCode: string, currencyCode: string,
                          date: string, atcHex: string, arqcHex: string)
    requires |amountText| == 12
    ensures var out := EncodeAll(ChipRecords(amountText, countryCode, currencyCode, date, atcHex, arqcHex));
      |out| >= 18 && out[..18] == "9F0206" + amountText
  {
    FormatHexSix();
    var records := ChipRecords(amountText, countryCode, currencyCode, date, atcHex, arqcHex);
    var first := Encoding(Tlv("9F02", amountText));
    assert records[0] == Tlv("9F02", amountText);
    assert first == "9F02" + "06" + amountText;
    assert EncodeAll(records) == first + EncodeAll(records[1..]);
  }
}

