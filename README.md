# NFT scripts over the MultiversX SDK: a verified model of their deterministic core

The repository is a pair of near-identical Python scripts, `abiContract.py` and
`assignment1.py`, that mint, list and trade NFTs through a smart contract.
Almost all of their code is SDK wiring. This project models the few
deterministic pieces between those calls, once, with shared definitions:

- **Record extraction** (`query_available_nfts`, after the `nftSupply` query has
  returned its parts). Nested loops walk every NFT entry of every part and skip
  an entry whose attributes are not bytes, are shorter than three bytes, or
  whose hash is missing or empty. Every other entry becomes a record
  `{nonce, token_id, rarity, class, power}`: the nonce is a running counter
  starting at 1, `token_id` is the lower-case hex of the hash, and rarity,
  class and power are attribute bytes 0, 1 and 2.
  `NftRecords.QueryAvailableNfts` is that loop as a method. Its inner loop is
  the method `NftRecords.ExtractPart`. Both are proved against the
  specification function `NftRecords.Extract`. Lemmas about `Extract` state
  the nonce numbering, the skip rules, order and bounds.
- **`find_matching_nft`**: a first-match search over the records on class and
  rarity; power plays no part. `NftMatch.FindMatchingNft` is the loop with its
  early return.
- **Transaction data**:
  - the `ESDTNFTCreate` payload of `create_nft`, with its decimal attribute tag
    `tags:class{c};rarity{r};power{p}`;
  - the `exchangeNft@{nonce:02x}` call of `create_and_trade_nft`.

  Each comes with a parser written for this model: splitting on `@`
  (`Text.Split`, one separator character, empty fields kept) and hex-decoding
  recovers every argument, and the tag, split on `;`, parses back to its three
  numbers.

The Python building blocks are modelled as the scripts use them:

- `str(int)` (`Numerals.Decimal`);
- `format(n, '0{w}x')` with its sign-aware zero padding (`Numerals.FormatHex`);
- `bytes.hex()` (`HexCodec.Hex`);
- `str.encode()`, which is UTF-8 (`Text.Utf8`).

Python integers are unbounded, and so are the model's, with one exception
listed under "Left out": `str()` of an int with more than 4300 decimal digits.

In `assignment1.py` the same code sits lower:

- extraction: `assignment1.py:175-223` (12 lines lower);
- search: `assignment1.py:230-237` (12 lines lower);
- create payload: `assignment1.py:86-106` (12 lines lower);
- exchange string: `assignment1.py:244` (10 lines lower). That script builds
  the string but never sends it; see "Left out".

The table cites the `abiContract.py` copy.

## Model

| member | source | states |
|---|---|---|
| `NftRecords.QueryAvailableNfts` | abiContract.py:163-211 | The returned list is the extraction of all parts flattened in order. Nonces are exactly 1..n. There are never more records than entries. |
| `NftRecords.ExtractPart` | abiContract.py:170-209 | One pass of the inner `for nft in part` loop, with its three `continue`s. It appends the records of the part and continues the nonce counter, so the counter is always one more than the number of records. |
| `NftRecords.Accepts` | abiContract.py:173-190 | The three skip rules: attributes not bytes, shorter than 3 bytes, or hash missing or empty. `ExtractLength` counts one record per accepted entry, `ExtractKeepsAccepted` places each accepted entry's record right after those of earlier entries, and `ExtractSources` shows every record comes from an accepted entry, so a rejected one adds nothing and consumes no nonce. |
| `NftRecords.Flatten` | abiContract.py:166-170 | The outer `for part in parts` loop: the parts, one after another. `FlattenStep` appends part p after the parts before it, and `ExtractBound` shows no entry is lost. |
| `NftRecords.ToRecord` | abiContract.py:177-187 | Rarity, class and power are attribute bytes 0, 1, 2, each in 0..255. `token_id` has length 2·\|hash\|. |
| `NftRecords.TokenIdDecodes` | abiContract.py:187 | `token_id` hex-decodes back to the entry's hash. |
| `NftRecords.Extract` | abiContract.py:166-209 | Never more records than entries. |
| `NftRecords.ExtractNonces` | abiContract.py:164-209 | The k-th record (from 0) carries nonce k+1. |
| `NftRecords.ExtractLength` | abiContract.py:170-209 | The number of records equals the number of entries that pass every skip rule. |
| `NftRecords.ExtractPrefix` | abiContract.py:166-209 | Processing more entries only appends records: earlier output is a prefix of later output. |
| `NftRecords.ExtractKeepsAccepted` | abiContract.py:198-205 | Every accepted entry appears in the output, right after the records of the entries before it, with the nonce that follows theirs. |
| `NftRecords.ExtractKeepsOrder` | abiContract.py:166-209 | An accepted entry adds a record: any longer prefix of the entries has more records than the prefix before it. |
| `NftRecords.ExtractInInputOrder` | abiContract.py:166-209 | For accepted entries i < j, the record of i sits at a lower output index than the record of j, each built from its own entry with the nonce of its position. |
| `NftRecords.ExtractSources` | abiContract.py:173-205 | Every record comes from some accepted entry and equals the record read from that entry's bytes. |
| `NftRecords.ExtractBound` | abiContract.py:166-211 | Flattening keeps every entry, and the output is no longer than the total number of entries across parts. |
| `NftMatch.FindMatchingNft` | abiContract.py:218-225 | Returns None exactly when no record matches on both class and rarity, the empty list included. Otherwise it returns a matching record that no earlier record matches, i.e. the first match. |
| `NftMatch.Matches` | abiContract.py:220-223 | The match condition: equal class and equal rarity, power ignored. `FindMatchingNft` returns the first record satisfying it, or None exactly when none does. |
| `TxData.AttributeTag` | abiContract.py:74 | The decimal text tag. `ParseTag` inverts it (`TagRoundTrip`), `TagFields` gives its three `;`-separated pieces and `MintedTagReadsAsTraits` what extraction reads from it. |
| `TxData.TagFields` | abiContract.py:74 | The tag splits on `;` into exactly its three `name{value}` pieces. |
| `TxData.TagRoundTrip` | abiContract.py:74 | The tag parses back to the class, rarity and power written into it, for every int, with no 1-byte range check (within the 4300-digit limit of `str()` listed under "Left out"). |
| `TxData.MintedTagReadsAsTraits` | abiContract.py:176-179 | Extraction reads bytes 0, 1, 2 of a minted NFT's text tag. Those bytes are `t`, `a`, `g`, so the record has rarity 0x74, class 0x61 and power 0x67, whatever numbers were minted. |
| `TxData.IpfsHashHex` | abiContract.py:81 | The hard-coded `hash_hex`, 92 lower-case hex digits identical to the source literal; `IpfsHashHexDigits` and `IpfsHashDecodes` give its meaning. |
| `TxData.IpfsHashHexDigits` | abiContract.py:81 | The hard-coded `hash_hex` is 92 lower-case hex digits. |
| `TxData.IpfsHashDecodes` | abiContract.py:81 | `hash_hex` decodes to 46 bytes whose hex is `hash_hex` again. |
| `TxData.FixedFields` | abiContract.py:79-80 | The quantity field is `01` and the royalties field is `00fa`. |
| `TxData.CreateNftData` | abiContract.py:74-94 | The `ESDTNFTCreate` payload. `ParseCreateNftData` inverts it (`CreateNftDataRoundTrip`), `CreateNftDataFields` gives its eight `@`-separated fields and `CreateNftDataAttributes` reads the minted numbers back from it. |
| `TxData.CreateNftDataFields` | abiContract.py:77-94 | Splitting the payload on `@` gives exactly 8 fields: the function name and the seven hex arguments, in order. |
| `TxData.CreateNftDataRoundTrip` | abiContract.py:74-94 | Splitting and decoding the payload recovers each of the following: the UTF-8 bytes of the ticker, name, tag and image URI, the quantity 1, the royalties 250 and the hash bytes. |
| `TxData.CreateNftDataAttributes` | abiContract.py:74-82 | The decoded attribute argument is ASCII text that parses back to the minted class, rarity and power. |
| `TxData.ExchangeNftData` | abiContract.py:234 | The `exchangeNft` call data. `ParseExchangeNftData` inverts it for every int (`ExchangeNftDataRoundTrip`); `ExchangeNftDataShape` gives its form for a non-negative nonce. |
| `TxData.ExchangeNftDataShape` | abiContract.py:234 | For a non-negative nonce the data is `exchangeNft@` followed by lower-case hex of at least two digits. |
| `TxData.ExchangeNftDataRoundTrip` | abiContract.py:234 | Splitting on `@` and parsing the hex argument recovers the nonce, negative values included. |
| `HexCodec.Hex` | abiContract.py:187 | `bytes.hex()` gives two lower-case hex digits per byte. |
| `HexCodec.HexRoundTrip` | abiContract.py:187 | Decoding the hex of any byte string gives that byte string back. |
| `HexCodec.UnHexRoundTrip` | abiContract.py:187 | Every text the decoder accepts is the hex of what it decodes to, so hex encoding is onto even-length lower-case hex. |
| `HexCodec.UnHexTotal` | abiContract.py:81 | The decoder accepts every even-length lower-case hex text. |
| `HexCodec.HexHasNo` | abiContract.py:86-94 | Hex text never contains a non-digit such as the `@` separator. |
| `Numerals.Decimal` | abiContract.py:74 | `str(n)`: never empty; `ParseInt` inverts it for every int (`DecimalRoundTrip`), within the digit limit under "Left out". |
| `Numerals.DecimalRoundTrip` | abiContract.py:74 | `str(n)` parses back to n for every int, negative ones included. |
| `Numerals.FormatHex` | abiContract.py:79-80 | `format(n, '0{w}x')` is at least w characters long. |
| `Numerals.FormatHexRoundTrip` | abiContract.py:234 | `format(n, '0{w}x')` parses back to n for every int and width, with the `-` sign counted in the width as Python does. |
| `Numerals.FormatHexDigits` | abiContract.py:79-80 | For n ≥ 0 the padded text consists of lower-case hex digits only. |
| `Text.Utf8` | abiContract.py:77-83 | `str.encode()` gives at least one byte per character. |
| `Text.Utf8Char` | abiContract.py:77-83 | A character encodes to 1 to 4 bytes. It takes one byte exactly when it is ASCII, and that byte is its code point. |
| `Text.AsciiRoundTrip` | abiContract.py:82 | ASCII text encodes to one byte per character and decodes back to itself. |
| `Text.Utf8Append` | abiContract.py:77-83 | Encoding distributes over concatenation. |
| `Text.SplitAppendField` | abiContract.py:86-94 | Appending a separator and a separator-free field to a text adds exactly that field to its split. |

## Left out

- Network and SDK calls are not modelled:
  - module set-up: environment, proxy provider, wallet, signer and ABI loading (abiContract.py:21-42, assignment1.py:24-54);
  - `get_wallet_nonce`, signing, `send_transaction`, and the contract query itself;
  - the SDK-factory transaction build in assignment1.py:248-261.

  The extraction starts from the parts the query returned, given as a parameter.
- print logging and the re-raising of errors as `RuntimeError` are left out.
- `get_your_nft_properties` reads SDK enum discriminants and is not modelled. It returns `[class, rarity, power]` (abiContract.py:144), while extraction reads the bytes in the order rarity, class, power.
- The top-level call `create_and_trade_nft()` without its argument (abiContract.py:310) fails before any logic runs. It is not modelled.
- interactor.py, `createWallet.py` and `sect.py` are not part of this model. They hold only key, wallet-file and transaction-sending SDK calls.
- NftRecords.ExtractPart has no counterpart for the `else` branch at abiContract.py:206-207 (assignment1.py:218-219). That branch cannot be reached: after the three `continue`s, `token_id` is non-empty and rarity, class and power are ints.
- NftRecords.ExtractPart: the inner `for nft in part` loop is its own method, called from the outer loop, instead of sitting nested inside it. Iteration order, the `continue`s and the counter are unchanged.
- A missing hash (`None`) and an empty one are both the empty byte sequence. Python treats both as false, and both are skipped.
- An entry's `attributes` are `None` when the SDK returned anything other than `bytes`. What that other value was is not modelled.
- `Text.Utf8Char` covers Unicode scalar values only. Python strings can also hold lone surrogates, which `str.encode()` rejects; a Dafny `char` cannot hold one.
- The parsers `HexCodec.UnHex`, `Numerals.ParseInt`, `TxData.ParseTag`, `TxData.ParseCreateNftData` and `TxData.ParseExchangeNftData`, and the splitter `Text.Split` they use, are partner definitions used to state round trips. Nothing in the scripts splits or decodes these strings. They accept only lower-case hex, unlike Python's `bytes.fromhex` and `int(s, 16)`.
- TxData.IpfsHashHex is the `hash_hex` literal of abiContract.py:81 and assignment1.py:93. It is written as four adjacent pieces that concatenate to the same text. It spells, in hex, the ASCII of the IPFS identifier in the comment at abiContract.py:286. That correspondence is not stated as a lemma; the model only proves that the literal decodes to 46 bytes.
- TxData.ExchangeNftDataShape: stated for non-negative nonces only. For a negative nonce Python writes `-` followed by the digits, and `TxData.ExchangeNftDataRoundTrip` covers that case.
- There is no round trip between the minted tag and the extracted record. `create_nft` writes a decimal text tag, while extraction reads raw bytes 0 to 2. `TxData.MintedTagReadsAsTraits` states what extraction actually reads from such a tag.
- Numerals.Decimal: has no digit limit. Since CPython 3.11 (and the 3.10.7 and 3.9.14 security releases), `str()` and `f"{n}"` of an int with more than 4300 decimal digits raise `ValueError`. For such a class, rarity or power, `create_nft` ends in its `RuntimeError` (abiContract.py:74, 119-120), while the model returns a text.
- TxData.AttributeTag: builds a tag for every int, including those past the 4300-digit limit above, so `TxData.TagRoundTrip`, `TxData.CreateNftDataRoundTrip` and `TxData.CreateNftDataAttributes` hold for values the script would reject. The hex formats at abiContract.py:79-80 and 234 have no such limit.
- TxData.ExchangeNftData: is what abiContract.py sends. assignment1.py:244 builds the same string and payload but drops them. Its transaction comes from `factory.create_transaction_for_execute(function="exchangeNft", arguments=[nonce])` (assignment1.py:254-261), whose argument encoding is SDK code and not part of this model.
