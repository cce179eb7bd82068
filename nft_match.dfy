/** `find_matching_nft`: the first record, in list order, with the wanted class and rarity. */
module NftMatch {
  import opened Wrappers
  import opened NftRecords

  /** The `target_properties` dictionary: only class and rarity are looked up. */
  datatype Target = Target(nftClass: int, rarity: int)

  /** Power plays no part in a match. */
  predicate Matches(r: NftRecord, target: Target) {
    r.nftClass == target.nftClass && r.rarity == target.rarity
  }

  method FindMatchingNft(nfts: seq<NftRecord>, target: Target) returns (found: Option<NftRecord>)
    ensures found.None? <==> forall i :: 0 <= i < |nfts| ==> !Matches(nfts[i], target)
    ensures found.Some? ==>
      exists i :: 0 <= i < |nfts| && nfts[i] == found.value && Matches(nfts[i], target) &&
        (forall j :: 0 <= j < i ==> !Matches(nfts[j], target))
  {
    for i := 0 to |nfts|
      invariant forall j :: 0 <= j < i ==> !Matches(nfts[j], target)
    {
      if Matches(nfts[i], target) {
        return Some(nfts[i]);
      }
    }
    return None;
  }
}
