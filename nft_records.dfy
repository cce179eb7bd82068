/**
 * Turning the `nftSupply` query result into NFT records: the nested loop of
 * `query_available_nfts`, after the query itself has returned its parts.
 */
module NftRecords {
  import opened Wrappers
  import opened Numerals
  import opened HexCodec

  /**
   * One NFT object of the query response. `attributes` is None when the
   * response did not carry bytes; a missing hash is the empty byte sequence.
   * `name` only appears in log lines.
   */
  datatype NftEntry = NftEntry(attributes: Option<seq<byte>>, hash: seq<byte>, name: string)

  /** The dictionary the script appends: nonce, token_id, rarity, class, power. */
  datatype NftRecord = NftRecord(nonce: int, tokenId: string, rarity: int, nftClass: int, power: int)

  /** An entry survives every `continue`: byte attributes of length at least 3, and a non-empty hash. */
  predicate Accepts(e: NftEntry) {
    e.attributes.Some? && |e.attributes.value| >= 3 && |e.hash| > 0
  }

  /** The record built from an accepted entry: bytes 0, 1, 2 are rarity, class, power. */
  function ToRecord(e: NftEntry, nonce: int): (r: NftRecord)
    requires Accepts(e)
    ensures r.nonce == nonce
    ensures 0 <= r.rarity < 256 && 0 <= r.nftClass < 256 && 0 <= r.power < 256
    ensures |r.tokenId| == 2 * |e.hash|
  {
    var attributes := e.attributes.value;
    NftRecord(nonce, Hex(e.hash), attributes[0] as int, attributes[1] as int, attributes[2] as int)
  }

  /** The token id is the hex of the hash and decodes back to it. */
  lemma TokenIdDecodes(e: NftEntry, nonce: int)
    requires Accepts(e)
    ensures UnHex(ToRecord(e, nonce).tokenId) == Some(e.hash)
  {
    HexRoundTrip(e.hash);
  }

  /** The parts of the response, one after another, in order. */
  function Flatten(parts: seq<seq<NftEntry>>): (entries: seq<NftEntry>)
  {
    if parts == [] then [] else Flatten(parts[..|parts| - 1]) + parts[|parts| - 1]
  }

  /**
   * The records extracted from a run of entries: each accepted entry, in order,
   * numbered with the next nonce; rejected entries leave the nonce unchanged.
   */
  function Extract(entries: seq<NftEntry>): (records: seq<NftRecord>)
    ensures |records| <= |entries|
  {
    if entries == [] then []
    else
      var previous := Extract(entries[..|entries| - 1]);
      var e := entries[|entries| - 1];
      if Accepts(e) then previous + [ToRecord(e, |previous| + 1)] else previous
  }

  lemma ExtractAppend(entries: seq<NftEntry>, e: NftEntry)
    ensures Extract(entries + [e]) ==
      if Accepts(e) then Extract(entries) + [ToRecord(e, |Extract(entries)| + 1)] else Extract(entries)
  {
    assert (entries + [e])[..|entries|] == entries;
  }

  /** A rejected entry adds no record and consumes no nonce. */
  lemma ExtractSkip(seen: seq<NftEntry>, nft: NftEntry)
    requires !Accepts(nft)
    ensures Extract(seen + [nft]) == Extract(seen)
  {
    ExtractAppend(seen, nft);
  }

  /** An accepted entry appends the record read from its bytes, with the next nonce. */
  lemma ExtractTake(seen: seq<NftEntry>, nft: NftEntry)
    requires Accepts(nft)
    ensures Extract(seen + [nft]) == Extract(seen) + [NftRecord(|Extract(seen)| + 1, Hex(nft.hash),
      nft.attributes.value[0] as int, nft.attributes.value[1] as int, nft.attributes.value[2] as int)]
  {
    ExtractAppend(seen, nft);
  }

  lemma FlattenStep(parts: seq<seq<NftEntry>>, p: nat)
    requires p < |parts|
    ensures Flatten(parts[..p + 1]) == Flatten(parts[..p]) + parts[p]
  {
    assert parts[..p + 1][..p] == parts[..p];
  }

  /**
   * The inner loop of `query_available_nfts` (`for nft in part`): appends the
   * records of one part, continuing the numbering. `seen` is every entry
   * processed so far.
   */
  method ExtractPart(part: seq<NftEntry>, nfts: seq<NftRecord>, nonce: int, ghost seen: seq<NftEntry>)
    returns (nfts': seq<NftRecord>, nonce': int)
    requires nfts == Extract(seen) && nonce == |nfts| + 1
    ensures nfts' == Extract(seen + part) && nonce' == |nfts'| + 1
  {
    nfts', nonce' := nfts, nonce;
    ghost var done := seen;
    for k := 0 to |part|
      invariant done == seen + part[..k]
      invariant nfts' == Extract(done)
      invariant nonce' == |nfts'| + 1
    {
      var nft := part[k];
      assert done + [nft] == seen + part[..k + 1] by {
        assert part[..k + 1] == part[..k] + [nft];
      }
      if nft.attributes.None? {
        ExtractSkip(done, nft);
        done := done + [nft];
        continue;
      }
      var attributes := nft.attributes.value;
      if |attributes| < 3 {
        ExtractSkip(done, nft);
        done := done + [nft];
        continue;
      }
      var rarity, nftClass, power := attributes[0] as int, attributes[1] as int, attributes[2] as int;
      if |nft.hash| == 0 {
        ExtractSkip(done, nft);
        done := done + [nft];
        continue;
      }
      var tokenId := Hex(nft.hash);
      ExtractTake(done, nft);
      done := done + [nft];
      nfts' := nfts' + [NftRecord(nonce', tokenId, rarity, nftClass, power)];
      nonce' := nonce' + 1;
    }
    assert part[..|part|] == part;
  }

  /** `query_available_nfts` from the point where the parts have been fetched. */
  method QueryAvailableNfts(parts: seq<seq<NftEntry>>) returns (nfts: seq<NftRecord>)
    ensures nfts == Extract(Flatten(parts))
    ensures |nfts| <= TotalEntries(parts)
    ensures forall i :: 0 <= i < |nfts| ==> nfts[i].nonce == i + 1
  {
    nfts := [];
    var nonce := 1;
    for p := 0 to |parts|
      invariant nfts == Extract(Flatten(parts[..p]))
      invariant nonce == |nfts| + 1
    {
      FlattenStep(parts, p);
      nfts, nonce := ExtractPart(parts[p], nfts, nonce, Flatten(parts[..p]));
    }
    assert parts[..|parts|] == parts;
    ExtractBound(parts);
    ExtractNonces(Flatten(parts));
  }

  /** Nonces run 1, 2, ..., n in output order. */
  lemma {:induction false} ExtractNonces(entries: seq<NftEntry>)
    ensures forall i :: 0 <= i < |Extract(entries)| ==> Extract(entries)[i].nonce == i + 1
  {
    if entries != [] {
      var n := |entries|;
      ExtractNonces(entries[..n - 1]);
      assert entries == entries[..n - 1] + [entries[n - 1]];
      ExtractAppend(entries[..n - 1], entries[n - 1]);
    }
  }

  /** Extracting from a longer run of entries only adds records at the end. */
  lemma {:induction false} ExtractPrefix(entries: seq<NftEntry>, i: nat)
    requires i <= |entries|
    ensures Extract(entries[..i]) <= Extract(entries)
    decreases |entries|
  {
    if i < |entries| {
      var n := |entries|;
      var previous := entries[..n - 1];
      assert previous[..i] == entries[..i];
      ExtractPrefix(previous, i);
      assert entries == previous + [entries[n - 1]];
      ExtractAppend(previous, entries[n - 1]);
      assert Extract(previous) <= Extract(entries);
    } else {
      assert entries[..i] == entries;
    }
  }

  /**
   * Every accepted entry is appended: the entry at position i lands right after
   * the records of the entries before it, with the nonce that follows theirs.
   */
  lemma ExtractKeepsAccepted(entries: seq<NftEntry>, i: nat)
    requires i < |entries| && Accepts(entries[i])
    ensures var before := |Extract(entries[..i])|;
      before < |Extract(entries)| && Extract(entries)[before] == ToRecord(entries[i], before + 1)
  {
    var previous, e := entries[..i], entries[i];
    var before := |Extract(previous)|;
    var upTo := Extract(entries[..i + 1]);
    assert upTo == Extract(previous) + [ToRecord(e, before + 1)] by {
      assert entries[..i + 1] == previous + [e];
      ExtractAppend(previous, e);
    }
    assert before < |upTo| && upTo[before] == ToRecord(e, before + 1);
    ExtractPrefix(entries, i + 1);
  }


  /** An accepted entry adds a record, so every longer prefix has more records than the prefix before it. */
  lemma ExtractKeepsOrder(entries: seq<NftEntry>, i: nat, j: nat)
    requires i < j <= |entries| && Accepts(entries[i])
    ensures |Extract(entries[..i])| < |Extract(entries[..j])|
  {
    ExtractKeepsAccepted(entries[..j], i);
    assert entries[..j][..i] == entries[..i];
  }

  /**
   * Accepted entries keep their input order: for accepted entries i < j, the
   * record of i sits at a lower output index than the record of j.
   */
  lemma ExtractInInputOrder(entries: seq<NftEntry>, i: nat, j: nat)
    requires i < j < |entries| && Accepts(entries[i]) && Accepts(entries[j])
    ensures var a, b := |Extract(entries[..i])|, |Extract(entries[..j])|;
      a < b < |Extract(entries)| &&
      Extract(entries)[a] == ToRecord(entries[i], a + 1) && Extract(entries)[b] == ToRecord(entries[j], b + 1)
  {
    ExtractKeepsOrder(entries, i, j);
    ExtractKeepsAccepted(entries, i);
    ExtractKeepsAccepted(entries, j);
  }

  /** Every record comes from an accepted entry and carries that entry's bytes. */
  lemma {:induction false} ExtractSources(entries: seq<NftEntry>, k: nat)
    requires k < |Extract(entries)|
    ensures exists i :: 0 <= i < |entries| && Accepts(entries[i]) && Extract(entries)[k] == ToRecord(entries[i], k + 1)
    decreases |entries|
  {
    var n := |entries|;
    var previous := entries[..n - 1];
    ExtractAppend(previous, entries[n - 1]);
    assert entries == previous + [entries[n - 1]];
    if k < |Extract(previous)| {
      ExtractSources(previous, k);
      var i :| 0 <= i < |previous| && Accepts(previous[i]) && Extract(previous)[k] == ToRecord(previous[i], k + 1);
      assert entries[i] == previous[i];
    } else {
      assert Accepts(entries[n - 1]);
    }
  }

  /** How many entries pass every skip rule. */
  function AcceptedCount(entries: seq<NftEntry>): nat {
    if entries == [] then 0
    else AcceptedCount(entries[..|entries| - 1]) + (if Accepts(entries[|entries| - 1]) then 1 else 0)
  }

  /** One record per accepted entry, no more and no fewer. */
  lemma {:induction false} ExtractLength(entries: seq<NftEntry>)
    ensures |Extract(entries)| == AcceptedCount(entries)
  {
    if entries != [] {
      ExtractLength(entries[..|entries| - 1]);
    }
  }

  function TotalEntries(parts: seq<seq<NftEntry>>): nat {
    if parts == [] then 0 else TotalEntries(parts[..|parts| - 1]) + |parts[|parts| - 1]|
  }

  /** There are never more records than entries across all parts. */
  lemma {:induction false} ExtractBound(parts: seq<seq<NftEntry>>)
    ensures |Flatten(parts)| == TotalEntries(parts)
    ensures |Extract(Flatten(parts))| <= TotalEntries(parts)
  {
    if parts != [] {
      ExtractBound(parts[..|parts| - 1]);
    }
  }
}
