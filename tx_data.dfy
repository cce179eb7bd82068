/**
 * The transaction data strings the scripts build before handing them to the
 * SDK: the `ESDTNFTCreate` payload of `create_nft`, with its text attribute
 * tag, and the `exchangeNft` call of `create_and_trade_nft`. Each comes with
 * the parser that reads it back.
 */
module TxData {
  import opened Wrappers
  import opened Numerals
  import opened HexCodec
  import opened Text
  import opened NftRecords

  /** The three numbers written into the attribute tag, in any int range. */
  datatype TagValues = TagValues(nftClass: int, rarity: int, power: int)

  /** `f"tags:class{nft_class};rarity{rarity};power{power}"`: decimal text, no range check. */
  function AttributeTag(nftClass: int, rarity: int, power: int): string {
    "tags:class" + Decimal(nftClass) + ";rarity" + Decimal(rarity) + ";power" + Decimal(power)
  }

  function ParseAfter(prefix: string, field: string): Option<int> {
    if prefix <= field then ParseInt(field[|prefix|..], 10) else None
  }

  /** Reads an attribute tag back into its three numbers. */
  function ParseTag(s: string): Option<TagValues> {
    var fields := Split(s, ';');
    if |fields| != 3 then None
    else
      var nftClass :- ParseAfter("tags:class", fields[0]);
      var rarity :- ParseAfter("rarity", fields[1]);
      var power :- ParseAfter("power", fields[2]);
      Some(TagValues(nftClass, rarity, power))
  }

  lemma DecimalChars(n: int, c: char)
    requires DigitValue(c) < 0 && c != '-'
    ensures c !in Decimal(n)
    ensures IsAscii(Decimal(n))
  {
    var d := NatToDigits(if n < 0 then -n else n, 10);
    assert forall i :: 0 <= i < |d| ==> d[i] as int < 128 by {
      forall i | 0 <= i < |d| ensures d[i] as int < 128 {
        assert 0 <= DigitValue(d[i]);
      }
    }
  }

  lemma ParseAfterDecimal(prefix: string, n: int)
    ensures ParseAfter(prefix, prefix + Decimal(n)) == Some(n)
  {
    assert (prefix + Decimal(n))[|prefix|..] == Decimal(n);
    DecimalRoundTrip(n);
  }

  /** Whatever the decimal texts, the tag is three pieces joined by ';' and starts with "tag". */
  lemma TagLayout(d1: string, d2: string, d3: string)
    ensures "tags:class" + d1 + ";rarity" + d2 + ";power" + d3 ==
      ("tags:class" + d1) + [';'] + ("rarity" + d2) + [';'] + ("power" + d3)
    ensures var t := "tags:class" + d1 + ";rarity" + d2 + ";power" + d3;
      |t| >= 3 && t[0] == 't' && t[1] == 'a' && t[2] == 'g'
  {
    assert ";rarity" == [';'] + "rarity";
    assert ";power" == [';'] + "power";
    var t := "tags:class" + d1 + ";rarity" + d2 + ";power" + d3;
    assert t[..10] == "tags:class";
  }

  /** The tag splits on ';' into its three `name{value}` pieces. */
  lemma TagFields(nftClass: int, rarity: int, power: int)
    ensures Split(AttributeTag(nftClass, rarity, power), ';') ==
      ["tags:class" + Decimal(nftClass), "rarity" + Decimal(rarity), "power" + Decimal(power)]
  {
    var a := "tags:class" + Decimal(nftClass);
    var b := "rarity" + Decimal(rarity);
    var c := "power" + Decimal(power);
    assert ';' !in a by {
      DecimalChars(nftClass, ';');
      assert ';' !in "tags:class";
    }
    assert ';' !in b by {
      DecimalChars(rarity, ';');
      assert ';' !in "rarity";
    }
    assert ';' !in c by {
      DecimalChars(power, ';');
      assert ';' !in "power";
    }
    TagLayout(Decimal(nftClass), Decimal(rarity), Decimal(power));
    SplitThree(a, b, c, ';');
  }

  /** The numbers written into a tag are read back exactly, whatever their range. */
  lemma TagRoundTrip(nftClass: int, rarity: int, power: int)
    ensures ParseTag(AttributeTag(nftClass, rarity, power)) == Some(TagValues(nftClass, rarity, power))
  {
    TagFields(nftClass, rarity, power);
    ParseAfterDecimal("tags:class", nftClass);
    ParseAfterDecimal("rarity", rarity);
    ParseAfterDecimal("power", power);
  }

  lemma TagIsAscii(nftClass: int, rarity: int, power: int)
    ensures IsAscii(AttributeTag(nftClass, rarity, power))
  {
    DecimalChars(nftClass, ';');
    DecimalChars(rarity, ';');
    DecimalChars(power, ';');
    var s1 := "tags:class" + Decimal(nftClass);
    AsciiAppend("tags:class", Decimal(nftClass));
    AsciiAppend(s1, ";rarity");
    AsciiAppend(s1 + ";rarity", Decimal(rarity));
    AsciiAppend(s1 + ";rarity" + Decimal(rarity), ";power");
    AsciiAppend(s1 + ";rarity" + Decimal(rarity) + ";power", Decimal(power));
  }

  /**
   * The attribute bytes a minted NFT carries start with the text "tag", so
   * reading bytes 0, 1, 2 as rarity, class and power, as the extraction does,
   * gives 0x74, 0x61, 0x67 whatever numbers were minted.
   */
  lemma MintedTagReadsAsTraits(nftClass: int, rarity: int, power: int, hash: seq<byte>, name: string)
    requires |hash| > 0
    ensures var attributes := Utf8(AttributeTag(nftClass, rarity, power));
      Extract([NftEntry(Some(attributes), hash, name)]) == [NftRecord(1, Hex(hash), 0x74, 0x61, 0x67)]
  {
    var tag := AttributeTag(nftClass, rarity, power);
    TagLayout(Decimal(nftClass), Decimal(rarity), Decimal(power));
    Utf8AsciiHead(tag);
    var attributes := Utf8(tag);
    assert attributes[0] == 0x74 && attributes[1] == 0x61 && attributes[2] == 0x67 by {
      assert attributes[..3][0] == attributes[0];
      assert attributes[..3][1] == attributes[1];
      assert attributes[..3][2] == attributes[2];
    }
    var e := NftEntry(Some(attributes), hash, name);
    assert [] + [e] == [e];
    ExtractTake([], e);
  }

  /**
   * `hash_hex`: the hard-coded hash argument, lower-case hex of 46 bytes (the
   * ASCII text of an IPFS content identifier). It is one literal in the
   * scripts; it is written here in four pieces only so that its digits can be
   * checked piece by piece.
   */
  const IpfsHashHex: string :=
    "516d53614b32547131523869" + "6d6d463464743267776d4a41" + "6d6f7465336262654d593356" + "4e506d71355462556632"

  lemma IpfsHashHexDigits()
    ensures |IpfsHashHex| == 92 && IsDigits(IpfsHashHex, 16)
  {
    var p0, p1 := "516d53614b32547131523869", "6d6d463464743267776d4a41";
    var p2, p3 := "6d6f7465336262654d593356", "4e506d71355462556632";
    forall i | 0 <= i < |p0| ensures 0 <= DigitValue(p0[i]) < 16 { }
    forall i | 0 <= i < |p1| ensures 0 <= DigitValue(p1[i]) < 16 { }
    forall i | 0 <= i < |p2| ensures 0 <= DigitValue(p2[i]) < 16 { }
    forall i | 0 <= i < |p3| ensures 0 <= DigitValue(p3[i]) < 16 { }
    DigitsAppend(p0, p1, 16);
    DigitsAppend(p0 + p1, p2, 16);
    DigitsAppend(p0 + p1 + p2, p3, 16);
  }

  /** The hash argument decodes to 46 bytes whose hex is the literal again. */
  lemma IpfsHashDecodes()
    ensures UnHex(IpfsHashHex).Some? && |UnHex(IpfsHashHex).value| == 46
    ensures Hex(UnHex(IpfsHashHex).value) == IpfsHashHex
  {
    IpfsHashHexDigits();
    UnHexTotal(IpfsHashHex);
    UnHexRoundTrip(IpfsHashHex);
  }

  /** The data field of the `ESDTNFTCreate` transaction `create_nft` builds. */
  function CreateNftData(nftName: string, ticker: string, nftClass: int, rarity: int, power: int, imgUri: string): string {
    var nameHex := Hex(Utf8(nftName));
    var tickerHex := Hex(Utf8(ticker));
    var quantityHex := FormatHex(1, 2);
    var royaltiesHex := FormatHex(250, 4);
    var attributesHex := Hex(Utf8(AttributeTag(nftClass, rarity, power)));
    var imgUriHex := Hex(Utf8(imgUri));
    "ESDTNFTCreate@" + tickerHex + "@" + quantityHex + "@" + nameHex + "@" + royaltiesHex
      + "@" + IpfsHashHex + "@" + attributesHex + "@" + imgUriHex
  }

  /** The seven arguments of an `ESDTNFTCreate` call, decoded. */
  datatype NftCreateFields = NftCreateFields(
    ticker: seq<byte>, quantity: int, name: seq<byte>, royalties: int,
    hash: seq<byte>, attributes: seq<byte>, imgUri: seq<byte>)

  /** Reads an `ESDTNFTCreate` data field: the function name, then seven hex arguments. */
  function ParseCreateNftData(data: string): Option<NftCreateFields> {
    var fields := Split(data, '@');
    if |fields| != 8 || fields[0] != "ESDTNFTCreate" then None
    else DecodeCreateArgs(fields[1], fields[2], fields[3], fields[4], fields[5], fields[6], fields[7])
  }

  /** Decodes the seven arguments in order; the first that fails to decode makes the whole fail. */
  function DecodeCreateArgs(t: string, q: string, n: string, r: string, h: string, a: string, u: string)
    : Option<NftCreateFields>
  {
    var ticker :- UnHex(t);
    var quantity :- ParseInt(q, 16);
    var name :- UnHex(n);
    var royalties :- ParseInt(r, 16);
    var hash :- UnHex(h);
    var attributes :- UnHex(a);
    var imgUri :- UnHex(u);
    Some(NftCreateFields(ticker, quantity, name, royalties, hash, attributes, imgUri))
  }

  lemma FixedFields()
    ensures FormatHex(1, 2) == "01" && FormatHex(250, 4) == "00fa"
  {
    assert NatToDigits(250, 16) == "fa";
  }

  /**
   * Only unfolds the definition of `CreateNftData`, with the fixed quantity and
   * royalties fields evaluated: the function name and seven hex arguments, each
   * after an '@'. `CreateNftDataFields` builds on it.
   */
  lemma CreateNftDataShape(nftName: string, ticker: string, nftClass: int, rarity: int, power: int, imgUri: string)
    ensures CreateNftData(nftName, ticker, nftClass, rarity, power, imgUri) ==
      "ESDTNFTCreate" + ['@'] + Hex(Utf8(ticker)) + ['@'] + "01" + ['@'] + Hex(Utf8(nftName)) + ['@'] + "00fa"
      + ['@'] + IpfsHashHex + ['@'] + Hex(Utf8(AttributeTag(nftClass, rarity, power))) + ['@'] + Hex(Utf8(imgUri))
  {
    FixedFields();
    assert "ESDTNFTCreate@" == "ESDTNFTCreate" + ['@'];
  }

  /** The payload splits on '@' into the function name and its seven arguments, in order. */
  lemma CreateNftDataFields(nftName: string, ticker: string, nftClass: int, rarity: int, power: int, imgUri: string)
    ensures Split(CreateNftData(nftName, ticker, nftClass, rarity, power, imgUri), '@') ==
      ["ESDTNFTCreate", Hex(Utf8(ticker)), "01", Hex(Utf8(nftName)), "00fa",
       IpfsHashHex, Hex(Utf8(AttributeTag(nftClass, rarity, power))), Hex(Utf8(imgUri))]
  {
    HexHasNo(Utf8(ticker), '@');
    HexHasNo(Utf8(nftName), '@');
    IpfsHashHexDigits();
    DigitsExclude(IpfsHashHex, 16, '@');
    HexHasNo(Utf8(AttributeTag(nftClass, rarity, power)), '@');
    HexHasNo(Utf8(imgUri), '@');
    SplitEight("ESDTNFTCreate", Hex(Utf8(ticker)), "01", Hex(Utf8(nftName)), "00fa",
               IpfsHashHex, Hex(Utf8(AttributeTag(nftClass, rarity, power))), Hex(Utf8(imgUri)), '@');
    CreateNftDataShape(nftName, ticker, nftClass, rarity, power, imgUri);
  }

  /** A payload with the right function name and eight fields is parsed by decoding its arguments. */
  lemma ParseCreateNftDataSplit(data: string, t: string, q: string, n: string, r: string, h: string, a: string, u: string)
    requires Split(data, '@') == ["ESDTNFTCreate", t, q, n, r, h, a, u]
    ensures ParseCreateNftData(data) == DecodeCreateArgs(t, q, n, r, h, a, u)
  {
  }

  /** When every argument decodes, DecodeCreateArgs collects the decoded values in order. */
  lemma DecodeCreateArgsOf(t: string, q: string, n: string, r: string, h: string, a: string, u: string)
    requires UnHex(t).Some? && ParseInt(q, 16).Some? && UnHex(n).Some? && ParseInt(r, 16).Some?
    requires UnHex(h).Some? && UnHex(a).Some? && UnHex(u).Some?
    ensures DecodeCreateArgs(t, q, n, r, h, a, u) == Some(NftCreateFields(UnHex(t).value, ParseInt(q, 16).value,
      UnHex(n).value, ParseInt(r, 16).value, UnHex(h).value, UnHex(a).value, UnHex(u).value))
  {
  }

  /**
   * Splitting the payload and decoding each field recovers the ticker, the
   * quantity 1, the name, the royalties 250, the hash, the tag and the image URI.
   */
  lemma CreateNftDataRoundTrip(nftName: string, ticker: string, nftClass: int, rarity: int, power: int, imgUri: string)
    ensures UnHex(IpfsHashHex).Some?
    ensures ParseCreateNftData(CreateNftData(nftName, ticker, nftClass, rarity, power, imgUri)) ==
      Some(NftCreateFields(Utf8(ticker), 1, Utf8(nftName), 250, UnHex(IpfsHashHex).value,
                           Utf8(AttributeTag(nftClass, rarity, power)), Utf8(imgUri)))
  {
    CreateNftDataFields(nftName, ticker, nftClass, rarity, power, imgUri);
    HexRoundTrip(Utf8(ticker));
    HexRoundTrip(Utf8(nftName));
    HexRoundTrip(Utf8(AttributeTag(nftClass, rarity, power)));
    HexRoundTrip(Utf8(imgUri));
    IpfsHashDecodes();
    FormatHexRoundTrip(1, 2);
    FormatHexRoundTrip(250, 4);
    FixedFields();
    var data := CreateNftData(nftName, ticker, nftClass, rarity, power, imgUri);
    var t, n := Hex(Utf8(ticker)), Hex(Utf8(nftName));
    var a, u := Hex(Utf8(AttributeTag(nftClass, rarity, power))), Hex(Utf8(imgUri));
    ParseCreateNftDataSplit(data, t, "01", n, "00fa", IpfsHashHex, a, u);
    DecodeCreateArgsOf(t, "01", n, "00fa", IpfsHashHex, a, u);
  }

  /** The attribute argument of a minted NFT is the ASCII text of its tag, which parses back to the minted numbers. */
  lemma CreateNftDataAttributes(nftName: string, ticker: string, nftClass: int, rarity: int, power: int, imgUri: string)
    ensures var parsed := ParseCreateNftData(CreateNftData(nftName, ticker, nftClass, rarity, power, imgUri));
      parsed.Some? && AsciiDecode(parsed.value.attributes).Some? &&
      ParseTag(AsciiDecode(parsed.value.attributes).value) == Some(TagValues(nftClass, rarity, power))
  {
    CreateNftDataRoundTrip(nftName, ticker, nftClass, rarity, power, imgUri);
    TagIsAscii(nftClass, rarity, power);
    AsciiRoundTrip(AttributeTag(nftClass, rarity, power));
    TagRoundTrip(nftClass, rarity, power);
  }

  /** `f"exchangeNft@{nonce:02x}"`. */
  function ExchangeNftData(nonce: int): string {
    "exchangeNft@" + FormatHex(nonce, 2)
  }

  /** Reads the nonce argument back from an `exchangeNft` call. */
  function ParseExchangeNftData(data: string): Option<int> {
    var fields := Split(data, '@');
    if |fields| != 2 || fields[0] != "exchangeNft" then None else ParseInt(fields[1], 16)
  }

  /**
   * For a non-negative nonce the argument is lower-case hex of at least two
   * digits (zero-padded), and no '@' follows the function name.
   */
  lemma ExchangeNftDataShape(nonce: nat)
    ensures var data := ExchangeNftData(nonce);
      "exchangeNft@" <= data && |data| >= |"exchangeNft@"| + 2 &&
      IsDigits(data[|"exchangeNft@"|..], 16)
  {
    FormatHexDigits(nonce, 2);
    assert ExchangeNftData(nonce)[|"exchangeNft@"|..] == FormatHex(nonce, 2);
  }

  /** The nonce is recovered from the data, negative values included. */
  lemma ExchangeNftDataRoundTrip(nonce: int)
    ensures ParseExchangeNftData(ExchangeNftData(nonce)) == Some(nonce)
  {
    var h := FormatHex(nonce, 2);
    assert '@' !in h by {
      if nonce >= 0 {
        FormatHexDigits(nonce, 2);
      } else {
        var d := NatToDigits(-nonce, 16);
        assert h == "-" + d;
        assert forall i :: 0 <= i < |h| ==> h[i] != '@' by {
          forall i | 0 <= i < |h| ensures h[i] != '@' {
            if i > 0 { assert h[i] == d[i - 1]; assert DigitValue(d[i - 1]) >= 0; }
          }
        }
      }
    }
    assert ExchangeNftData(nonce) == "exchangeNft" + "@" + h;
    SplitField("exchangeNft", '@');
    SplitAppendField("exchangeNft", h, '@');
    FormatHexRoundTrip(nonce, 2);
  }
}
