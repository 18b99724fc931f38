/** A reader for the chip-data text, the inverse of the single-byte-length TLV encoding:
    a tag of one byte, or of two bytes when the low five bits of its first byte are all
    set (the EMV Book 3 Annex B rule, limited to two-byte tags), then one length byte,
    then that many value bytes, all as hex text. */
module TlvDecoding {
  import opened Results
  import opened Bytes
  import opened PyText
  import opened Emv

  datatype TlvError = TruncatedRecord | MalformedHex

  function PairValue(a: char, b: char): nat
    requires IsHexDigit(a) && IsHexDigit(b)
  {
    HexValue(a) * 16 + HexValue(b)
  }

  /** The number of hex characters of the tag that starts `s`. */
  function TagWidth(s: string): nat
    requires |s| >= 2 && IsHexDigit(s[0]) && IsHexDigit(s[1])
  {
    if PairValue(s[0], s[1]) % 32 == 31 then 4 else 2
  }

  /** Reads the record at the front of `s`, returning it with the text after it. */
  function ParseRecord(s: string): (p: Result<(Tlv, string), TlvError>)
    ensures p.Ok? ==> |p.value.1| < |s| && p.value.1 == s[|s| - |p.value.1|..]
  {
    if |s| < 2 || !IsHexDigit(s[0]) || !IsHexDigit(s[1]) then Err(MalformedHex)
    else
      var t := TagWidth(s);
      if |s| < t + 2 then Err(TruncatedRecord)
      else if !AllHex(s[..t + 2]) then Err(MalformedHex)
      else
        var n := PairValue(s[t], s[t + 1]);
        if |s| < t + 2 + 2 * n then Err(TruncatedRecord)
        else if !AllHex(s[t + 2..t + 2 + 2 * n]) then Err(MalformedHex)
        else Ok((Tlv(s[..t], s[t + 2..t + 2 + 2 * n]), s[t + 2 + 2 * n..]))
  }

  /** Reads records until the text is used up. */
  function ParseTlvs(s: string): Result<seq<Tlv>, TlvError>
    decreases |s|
  {
    if s == [] then Ok([])
    else
      var step :- ParseRecord(s);
      var rest :- ParseTlvs(step.1);
      Ok([step.0] + rest)
  }

  predicate WellFormedTag(tag: string) {
    |tag| >= 2 && AllHex(tag) && |tag| == TagWidth(tag)
  }

  predicate WellFormedRecord(r: Tlv) {
    WellFormedTag(r.tag) && IsEvenHex(r.value) && |r.value| <= 510
  }

  /** Reading one encoded record in front of any text yields that record and then
      whatever reading the text yields. */
  lemma ParseEncoding(r: Tlv, rest: string)
    requires WellFormedRecord(r)
    ensures ParseTlvs(Encoding(r) + rest) == match ParseTlvs(rest)
      case Ok(tail) => Ok([r] + tail)
      case Err(e) => Err(e)
  {
    EncodingLayout(r, rest);
    var s, t, n := Encoding(r) + rest, |r.tag|, |r.value| / 2;
    assert TagWidth(s) == t;
    ParseStep(s, t, n);
  }

  /** One step of the reader on text that starts with a complete record. */
  lemma ParseStep(s: string, t: nat, n: nat)
    requires |s| >= t + 2 + 2 * n && t >= 2 && IsHexDigit(s[0]) && IsHexDigit(s[1])
    requires TagWidth(s) == t && AllHex(s[..t + 2]) && IsHexDigit(s[t]) && IsHexDigit(s[t + 1])
    requires PairValue(s[t], s[t + 1]) == n && AllHex(s[t + 2..t + 2 + 2 * n])
    ensures ParseTlvs(s) == match ParseTlvs(s[t + 2 + 2 * n..])
      case Ok(tail) => Ok([Tlv(s[..t], s[t + 2..t + 2 + 2 * n])] + tail)
      case Err(e) => Err(e)
  {
    RecordAt(s, t, n);
  }

  lemma RecordAt(s: string, t: nat, n: nat)
    requires |s| >= t + 2 + 2 * n && t >= 2 && IsHexDigit(s[0]) && IsHexDigit(s[1])
    requires TagWidth(s) == t && AllHex(s[..t + 2]) && IsHexDigit(s[t]) && IsHexDigit(s[t + 1])
    requires PairValue(s[t], s[t + 1]) == n && AllHex(s[t + 2..t + 2 + 2 * n])
    ensures ParseRecord(s) == Ok((Tlv(s[..t], s[t + 2..t + 2 + 2 * n]), s[t + 2 + 2 * n..]))
  {
  }

  /** Where the parts of an encoded record sit in front of more text. */
  lemma EncodingLayout(r: Tlv, rest: string)
    requires WellFormedRecord(r)
    ensures var s, t, n := Encoding(r) + rest, |r.tag|, |r.value| / 2;
      && |s| >= t + 2 + 2 * n && s[0] == r.tag[0] && s[1] == r.tag[1]
      && s[..t] == r.tag && AllHex(s[..t + 2])
      && IsHexDigit(s[t]) && IsHexDigit(s[t + 1]) && PairValue(s[t], s[t + 1]) == n
      && s[t + 2..t + 2 + 2 * n] == r.value && s[t + 2 + 2 * n..] == rest
  {
    var n := |r.value| / 2;
    LengthDigits(n);
    var len := FormatHex(n, 2);
    assert |r.value| == 2 * n && |r.tag| >= 2 && AllHex(r.tag);
    ConcatLayout(r.tag, len, r.value, rest);
    TextConcat(r.tag, len);
  }

  /** Where the four parts sit in `tag + len + value + rest`, for a two-character `len`. */
  lemma ConcatLayout(tag: string, len: string, value: string, rest: string)
    requires |len| == 2
    ensures var s, t := tag + len + value + rest, |tag|;
      && |s| == t + 2 + |value| + |rest|
      && s[..t] == tag && s[t] == len[0] && s[t + 1] == len[1] && s[..t + 2] == tag + len
      && s[t + 2..t + 2 + |value|] == value && s[t + 2 + |value|..] == rest
  {
    var s, t := tag + len + value + rest, |tag|;
    assert s[..t + 2] == tag + len;
    assert s[..t] == tag;
    assert s[t + 2..t + 2 + |value|] == value;
    assert s[t + 2 + |value|..] == rest;
  }

  /** The two length digits of a byte count read back as that count. */
  lemma LengthDigits(n: nat)
    requires n < 256
    ensures var len := FormatHex(n, 2);
      |len| == 2 && AllHex(len) && PairValue(len[0], len[1]) == n
  {
    FormatHexByte(n);
    var len := FormatHex(n, 2);
    assert len[..1] == [len[0]];
    assert TextValue(len, 16) == TextValue(len[..1], 16) * 16 + HexValue(len[1]);
    assert TextValue(len[..1], 16) == HexValue(len[0]) by {
      assert len[..1][..0] == [];
    }
  }

  /** Reading the concatenated encodings of well-formed records gives back the records,
      in order. */
  lemma {:induction false} ParseEncodeAll(records: seq<Tlv>)
    requires forall i :: 0 <= i < |records| ==> WellFormedRecord(records[i])
    ensures ParseTlvs(EncodeAll(records)) == Ok(records)
  {
    if records != [] {
      ParseEncodeAll(records[1..]);
      ParseEncoding(records[0], EncodeAll(records[1..]));
      assert [records[0]] + records[1..] == records;
    }
  }

  /** The ten DE 55 tags are well formed: 9F02, 9F03, 9F1A, 5F2A, 9F37, 9F36 and 9F26
      are two-byte tags, 95, 9A and 9C one-byte tags. */
  lemma ChipTagsWellFormed()
    ensures WellFormedTag("9F02") && WellFormedTag("9F03") && WellFormedTag("9F1A")
    ensures WellFormedTag("95") && WellFormedTag("5F2A") && WellFormedTag("9A")
    ensures WellFormedTag("9C") && WellFormedTag("9F37") && WellFormedTag("9F36")
    ensures WellFormedTag("9F26")
  {
    assert PairValue('9', 'F') == 0x9F && PairValue('5', 'F') == 0x5F;
    assert PairValue('9', '5') == 0x95 && PairValue('9', 'A') == 0x9A && PairValue('9', 'C') == 0x9C;
  }

  /** The output of `create_chip_data` reads back as exactly ten records, with the tags in
      the order 9F02, 9F03, 9F1A, 95, 5F2A, 9A, 9C, 9F37, 9F36, 9F26, carrying the
      amount, the fixed fields, the details, the ATC in four hex digits and the 8-byte
      ARQC. */
  lemma ChipDataDecodes(e3: BlockCipher, cmac: MacFunction, mdkHex: string, pan: string,
                        atc: int, details: TransactionDetails)
    requires CreateChipData(e3, cmac, mdkHex, pan, atc, details).Ok?
    requires Complete(details) && PlainFields(details)
    requires |FormatDecimal(details.amount.value, 12)| <= 510 && |details.countryCode.value| <= 510
    requires |details.currencyCode.value| <= 510 && |details.date.value| <= 510
    ensures var out := CreateChipData(e3, cmac, mdkHex, pan, atc, details).value;
      && ParseTlvs(out).Ok?
      && var rs := ParseTlvs(out).value;
         && |rs| == 10
         && rs[0] == Tlv("9F02", FormatDecimal(details.amount.value, 12))
         && rs[1] == Tlv("9F03", "000000000000")
         && rs[2] == Tlv("9F1A", details.countryCode.value)
         && rs[3] == Tlv("95", "0000008000")
         && rs[4] == Tlv("5F2A", details.currencyCode.value)
         && rs[5] == Tlv("9A", details.date.value)
         && rs[6] == Tlv("9C", "00")
         && rs[7] == Tlv("9F37", "12345678")
         && rs[8] == Tlv("9F36", FormatHex(atc, 4)) && |rs[8].value| == 4
         && rs[9].tag == "9F26" && |rs[9].value| == 16
  {
    ChipDataOutput(e3, cmac, mdkHex, pan, atc, details);
    ChipDataSucceeds(e3, cmac, mdkHex, pan, atc, details);
    FormatHexWord(atc);
    var amountText := FormatDecimal(details.amount.value, 12);
    var country, currency, date := details.countryCode.value, details.currencyCode.value, details.date.value;
    var input := ArqcInput(amountText, country, currency, date, FormatHex(atc, 4));
    var arqc := Arqc(cmac, SessionKey(e3, FromHex(mdkHex).value, AtcBytes(atc).value), FromHex(input).value);
    HexLowerDenotes(arqc);
    ChipRecordsDecode(amountText, country, currency, date, FormatHex(atc, 4), HexLower(arqc));
    var records := ChipRecords(amountText, country, currency, date, FormatHex(atc, 4), HexLower(arqc));
    assert CreateChipData(e3, cmac, mdkHex, pan, atc, details).value == EncodeAll(records);
  }

  /** The chip data is valid hex text, as the DE 55 test checks first: `bytes.fromhex`
      accepts it, giving one byte per two characters. */
  lemma ChipDataIsHex(e3: BlockCipher, cmac: MacFunction, mdkHex: string, pan: string,
                      atc: int, details: TransactionDetails)
    requires CreateChipData(e3, cmac, mdkHex, pan, atc, details).Ok?
    requires Complete(details) && PlainFields(details)
    requires |FormatDecimal(details.amount.value, 12)| <= 510 && |details.countryCode.value| <= 510
    requires |details.currencyCode.value| <= 510 && |details.date.value| <= 510
    ensures var out := CreateChipData(e3, cmac, mdkHex, pan, atc, details).value;
      FromHex(out).Ok? && |FromHex(out).value| * 2 == |out|
  {
    ChipDataOutput(e3, cmac, mdkHex, pan, atc, details);
    ChipDataSucceeds(e3, cmac, mdkHex, pan, atc, details);
    FormatHexWord(atc);
    var amountText := FormatDecimal(details.amount.value, 12);
    var country, currency, date := details.countryCode.value, details.currencyCode.value, details.date.value;
    var input := ArqcInput(amountText, country, currency, date, FormatHex(atc, 4));
    var arqc := Arqc(cmac, SessionKey(e3, FromHex(mdkHex).value, AtcBytes(atc).value), FromHex(input).value);
    HexLowerDenotes(arqc);
    var records := ChipRecords(amountText, country, currency, date, FormatHex(atc, 4), HexLower(arqc));
    ChipRecordsWellFormed(amountText, country, currency, date, FormatHex(atc, 4), HexLower(arqc));
    forall i | 0 <= i < |records| ensures IsEvenHex(Encoding(records[i])) {
      RecordHex(records[i]);
    }
    EncodeAllHex(records);
    FromHexPlain(EncodeAll(records));
  }

  /** Joining record encodings that are each even-length hex gives even-length hex. */
  lemma {:induction false} EncodeAllHex(records: seq<Tlv>)
    requires forall i :: 0 <= i < |records| ==> IsEvenHex(Encoding(records[i]))
    ensures IsEvenHex(EncodeAll(records))
  {
    if records != [] {
      var tail := records[1..];
      assert forall i :: 0 <= i < |tail| ==> Encoding(tail[i]) == Encoding(records[i + 1]);
      EncodeAllHex(tail);
      assert IsEvenHex(Encoding(records[0]));
      EvenHexConcat(Encoding(records[0]), EncodeAll(tail));
    }
  }

  lemma EvenHexConcat(a: string, b: string)
    requires IsEvenHex(a) && IsEvenHex(b)
    ensures IsEvenHex(a + b)
  {
    TextConcat(a, b);
  }

  /** One well-formed record encodes as even-length hex without whitespace. */
  lemma RecordHex(r: Tlv)
    requires WellFormedRecord(r)
    ensures IsEvenHex(Encoding(r))
  {
    assert |r.tag| % 2 == 0 && AllHex(r.tag);
    EncodingHex(r.tag, r.value);
  }

  lemma EncodingHex(tag: string, value: string)
    requires |tag| % 2 == 0 && AllHex(tag) && IsEvenHex(value) && |value| <= 510
    ensures IsEvenHex(tag + FormatHex(|value| / 2, 2) + value)
  {
    var len := FormatHex(|value| / 2, 2);
    LengthDigits(|value| / 2);
    TextConcat(tag, len);
    TextConcat(tag + len, value);
    AllHexIsPlain(tag + len + value);
  }

  lemma ChipRecordsDecode(amountText: string, countryCode: string, currencyCode: string,
                          date: string, atcHex: string, arqcHex: string)
    requires IsEvenHex(amountText) && IsEvenHex(countryCode) && IsEvenHex(currencyCode)
    requires IsEvenHex(date) && IsEvenHex(atcHex) && IsEvenHex(arqcHex)
    requires |amountText| <= 510 && |countryCode| <= 510 && |currencyCode| <= 510 && |date| <= 510
    requires |atcHex| <= 510 && |arqcHex| <= 510
    ensures var records := ChipRecords(amountText, countryCode, currencyCode, date, atcHex, arqcHex);
      && ParseTlvs(EncodeAll(records)) == Ok(records)
      && |records| == 10
      && records[0] == Tlv("9F02", amountText) && records[1] == Tlv("9F03", "000000000000")
      && records[2] == Tlv("9F1A", countryCode) && records[3] == Tlv("95", "0000008000")
      && records[4] == Tlv("5F2A", currencyCode) && records[5] == Tlv("9A", date)
      && records[6] == Tlv("9C", "00") && records[7] == Tlv("9F37", "12345678")
      && records[8] == Tlv("9F36", atcHex) && records[9] == Tlv("9F26", arqcHex)
  {
    ChipRecordsParse(amountText, countryCode, currencyCode, date, atcHex, arqcHex);
  }

  lemma ChipRecordsParse(amountText: string, countryCode: string, currencyCode: string,
                         date: string, atcHex: string, arqcHex: string)
    requires IsEvenHex(amountText) && IsEvenHex(countryCode) && IsEvenHex(currencyCode)
    requires IsEvenHex(date) && IsEvenHex(atcHex) && IsEvenHex(arqcHex)
    requires |amountText| <= 510 && |countryCode| <= 510 && |currencyCode| <= 510 && |date| <= 510
    requires |atcHex| <= 510 && |arqcHex| <= 510
    ensures var records := ChipRecords(amountText, countryCode, currencyCode, date, atcHex, arqcHex);
      ParseTlvs(EncodeAll(records)) == Ok(records)
  {
    ChipRecordsWellFormed(amountText, countryCode, currencyCode, date, atcHex, arqcHex);
    ParseEncodeAll(ChipRecords(amountText, countryCode, currencyCode, date, atcHex, arqcHex));
  }

  lemma ChipRecordsWellFormed(amountText: string, countryCode: string, currencyCode: string,
                              date: string, atcHex: string, arqcHex: string)
    requires IsEvenHex(amountText) && IsEvenHex(countryCode) && IsEvenHex(currencyCode)
    requires IsEvenHex(date) && IsEvenHex(atcHex) && IsEvenHex(arqcHex)
    requires |amountText| <= 510 && |countryCode| <= 510 && |currencyCode| <= 510 && |date| <= 510
    requires |atcHex| <= 510 && |arqcHex| <= 510
    ensures var rs := ChipRecords(amountText, countryCode, currencyCode, date, atcHex, arqcHex);
      forall i :: 0 <= i < |rs| ==> WellFormedRecord(rs[i])
  {
    ChipTagsWellFormed();
    ChipRecordsEvenHex(amountText, countryCode, currencyCode, date, atcHex, arqcHex);
    ChipRecordsShort(amountText, countryCode, currencyCode, date, atcHex, arqcHex);
  }
}
