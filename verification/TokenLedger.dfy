/** Token pairs and their ledger entries in the cache: one call at a time. */
module TokenLedger {
  import opened Prelude
  import opened MemoryCache

  function RefreshKey(jti: string): string { "tessera:refresh:" + jti }
  function AccessKey(jti: string): string { "tessera:access:" + jti }
  function PairKey(userId: string): string { "tessera:tokenpair:" + userId }

  lemma KeysDistinct(i: string, j: string, u: string)
    ensures RefreshKey(i) != AccessKey(j) && RefreshKey(i) != PairKey(u) && AccessKey(j) != PairKey(u)
    ensures i != j ==> RefreshKey(i) != RefreshKey(j)
  {
    assert RefreshKey(i)[8] == 'r' && AccessKey(j)[8] == 'a' && PairKey(u)[8] == 't';
    assert RefreshKey(i)[16..] == i && RefreshKey(j)[16..] == j;
  }

  datatype Pair = Pair(refresh: string, access: string)

  datatype Error = ReusedOrRevoked

  class AuthManager {
    const cache: InMemoryCache
    const refreshTtl: nat
    const accessTtl: nat
    const pairText: Pair -> string

    constructor (cache: InMemoryCache, refreshTtl: nat, accessTtl: nat, pairText: Pair -> string)
      requires refreshTtl > 0 && accessTtl > 0
      ensures this.cache == cache && this.refreshTtl == refreshTtl && this.accessTtl == accessTtl && this.pairText == pairText
    {
      this.cache, this.refreshTtl, this.accessTtl, this.pairText := cache, refreshTtl, accessTtl, pairText;
    }

    /** One refresh: refused exactly when the ledger does not know the token, and then nothing changes; otherwise
        the old entry is gone for good and the new one is live for the whole refresh lifetime. */
    ghost predicate Refreshed(s: Store, s': Store, userId: string, jti: string, next: Pair, now: real, r: Result<Pair, Error>) {
      && r == (if Find(s, RefreshKey(jti), now) == None then Err(ReusedOrRevoked) else Ok(next))
      && (r.Err? ==> Untouched(s, s', {}, now))
      && (r.Ok? ==>
            && Untouched(s, s', {RefreshKey(jti), RefreshKey(next.refresh), AccessKey(next.access), PairKey(userId)}, now)
            && (forall t :: t >= now ==> Find(s', RefreshKey(jti), t) == None)
            && (forall t :: now <= t < now + refreshTtl as real ==>
                  Find(s', RefreshKey(next.refresh), t) == Some(Entry(Text(userId), Some(now + refreshTtl as real))))
            && Find(s', AccessKey(next.access), now) == Some(Entry(Text(userId), Some(now + accessTtl as real)))
            && Find(s', PairKey(userId), now) == Some(Entry(Text(pairText(next)), Some(now + refreshTtl as real))))
    }

    /** The three entries of a pair, for their lifetimes; no other key is touched. */
    ghost predicate PairStored(s: Store, s': Store, userId: string, pair: Pair, now: real) {
      && Find(s', RefreshKey(pair.refresh), now) == Some(Entry(Text(userId), Some(now + refreshTtl as real)))
      && Find(s', AccessKey(pair.access), now) == Some(Entry(Text(userId), Some(now + accessTtl as real)))
      && Find(s', PairKey(userId), now) == Some(Entry(Text(pairText(pair)), Some(now + refreshTtl as real)))
      && Untouched(s, s', {RefreshKey(pair.refresh), AccessKey(pair.access), PairKey(userId)}, now)
    }

    method StorePair(userId: string, pair: Pair, now: real)
      requires cache.Valid() && refreshTtl > 0 && accessTtl > 0
      modifies cache
      ensures cache.Valid()
      ensures PairStored(old(cache.Snapshot()), cache.Snapshot(), userId, pair, now)
    {
      KeysDistinct(pair.refresh, pair.access, userId);
      var _ := cache.Put(RefreshKey(pair.refresh), userId, Some(refreshTtl), now);
      var _ := cache.Put(AccessKey(pair.access), userId, Some(accessTtl), now);
      var _ := cache.Put(PairKey(userId), pairText(pair), Some(refreshTtl), now);
    }

    method RefreshToken(userId: string, jti: string, next: Pair, now: real) returns (r: Result<Pair, Error>)
      requires cache.Valid() && refreshTtl > 0 && accessTtl > 0 && next.refresh != jti
      modifies cache
      ensures cache.Valid()
      ensures Refreshed(old(cache.Snapshot()), cache.Snapshot(), userId, jti, next, now, r)
    {
      var key := RefreshKey(jti);
      var wasPresent := cache.Delete(key, now);
      if !wasPresent {
        return Err(ReusedOrRevoked);
      }
      KeysDistinct(jti, next.access, userId);
      KeysDistinct(jti, next.refresh, userId);
      ghost var mid := cache.Snapshot();
      StorePair(userId, next, now);
      ghost var s := cache.Snapshot();
      assert forall t :: t >= now ==> Find(mid, key, t) == None;
      forall t | t >= now
        ensures Find(s, key, t) == None
        ensures t < now + refreshTtl as real ==>
                  Find(s, RefreshKey(next.refresh), t) == Some(Entry(Text(userId), Some(now + refreshTtl as real)))
      {
        FindLater(s, RefreshKey(next.refresh), now, t);
      }
      return Ok(next);
    }
  }
}
