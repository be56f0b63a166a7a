/** `CanonicalReleaseCache` and `resolve_canonical_release` of
    auraframe/canonical.py: a key-value store from the normalised
    "artist::title" key to the release chosen for it, with lazy eviction of
    entries older than the time-to-live, and the resolver that consults it
    before scoring. The JSON file behind the store is an abstract stored value;
    the clock is a parameter. */
module ReleaseCache {
  import opened Optional
  import opened Canonical
  import opened CanonicalChoice

  /** One stored entry. `Blank` is a falsy entry (an empty dict), which a
      lookup treats as absent and never evicts. A missing "timestamp" reads
      as 0. */
  datatype CacheEntry = Blank | Entry(timestamp: real, candidate: Option<Release>)

  /** The "entries" field of the stored document. */
  datatype EntriesField = Absent | NotADict | Dict(entries: map<string, CacheEntry>)

  /** What the cache file holds, as far as `_load` distinguishes it. */
  datatype Stored =
    | Missing
    | Unparsable
    | NotAnObject
    | Document(version: Option<int>, entriesField: EntriesField)

  /** The in-memory cache document `{"version": v, "entries": {...}}`. */
  datatype CacheDoc = CacheDoc(version: int, entries: map<string, CacheEntry>)

  const EmptyDoc: CacheDoc := CacheDoc(1, map[])

  /** `_load`: a missing, unparsable or non-object file gives the empty
      document; otherwise a missing version defaults to 1 and a missing or
      non-dict "entries" field becomes empty. */
  function Load(stored: Stored): (doc: CacheDoc)
    ensures !stored.Document? ==> doc == EmptyDoc
    ensures stored.Document? && stored.entriesField.Dict? ==> doc.entries == stored.entriesField.entries
    ensures stored.Document? && !stored.entriesField.Dict? ==> doc.entries == map[]
    ensures stored.Document? && stored.version.Some? ==> doc.version == stored.version.value
    ensures stored.Document? && stored.version.None? ==> doc.version == 1
  {
    match stored
    case Document(v, field) =>
      CacheDoc(if v.Some? then v.value else 1, if field.Dict? then field.entries else map[])
    case _ => EmptyDoc
  }

  /** An entry is stale when it is strictly older than the time-to-live. */
  predicate Expired(e: CacheEntry, now: real, ttl: int)
    requires e.Entry?
  {
    now - e.timestamp > ttl as real
  }

  /** What `get` returns for `key` at time `now`. */
  function LookUp(entries: map<string, CacheEntry>, key: string, now: real, ttl: int): (r: Option<Release>)
    ensures r.Some? ==> key in entries && entries[key].Entry? && entries[key].candidate == r
  {
    if key !in entries || entries[key].Blank? then None
    else if Expired(entries[key], now, ttl) then None
    else entries[key].candidate
  }

  /** The entries after `get`: a stale entry for `key` is dropped, nothing else changes. */
  function AfterGet(entries: map<string, CacheEntry>, key: string, now: real, ttl: int): (r: map<string, CacheEntry>)
    ensures forall k :: k != key ==> (k in r <==> k in entries)
    ensures forall k :: k != key && k in r ==> r[k] == entries[k]
  {
    if key in entries && entries[key].Entry? && Expired(entries[key], now, ttl) then entries - {key}
    else entries
  }

  /** The entries after `set`: only `key` is overwritten. */
  function Put(entries: map<string, CacheEntry>, key: string, now: real, candidate: Option<Release>)
    : (r: map<string, CacheEntry>)
    ensures key in r && r[key] == Entry(now, candidate)
    ensures forall k :: k != key ==> (k in r <==> k in entries)
    ensures forall k :: k != key && k in r ==> r[k] == entries[k]
  {
    entries[key := Entry(now, candidate)]
  }

  class CanonicalReleaseCache {
    var version: int
    var entries: map<string, CacheEntry>
    const ttl: int
    /** The document last written to the file by `_save`. */
    var saved: Option<CacheDoc>

    /** `__post_init__`: load the stored document. */
    constructor (stored: Stored, ttl: int)
      ensures CacheDoc(version, entries) == Load(stored)
      ensures this.ttl == ttl && saved == None
    {
      var doc := Load(stored);
      version := doc.version;
      entries := doc.entries;
      this.ttl := ttl;
      saved := None;
    }

    /** `get`: the stored candidate, unless the entry is missing, blank or
        stale; a stale entry is removed and the document saved. */
    method Get(artist: string, title: string, now: real) returns (r: Option<Release>)
      modifies this
      ensures r == LookUp(old(entries), MakeKey(artist, title), now, ttl)
      ensures entries == AfterGet(old(entries), MakeKey(artist, title), now, ttl)
      ensures version == old(version)
      ensures saved == if entries != old(entries) then Some(CacheDoc(version, entries)) else old(saved)
    {
      var key := MakeKey(artist, title);
      if key !in entries || entries[key].Blank? {
        return None;
      }
      var entry := entries[key];
      if now - entry.timestamp > ttl as real {
        entries := entries - {key};
        saved := Some(CacheDoc(version, entries));
        return None;
      }
      r := entry.candidate;
    }

    /** `set`: overwrite the entry for the key with the candidate and the
        current time, then save. */
    method Set(artist: string, title: string, candidate: Option<Release>, now: real)
      modifies this
      ensures version == old(version)
      ensures saved == Some(CacheDoc(version, entries))
      ensures entries == Put(old(entries), MakeKey(artist, title), now, candidate)
    {
      var key := MakeKey(artist, title);
      entries := Put(entries, key, now, candidate);
      saved := Some(CacheDoc(version, entries));
    }
  }

  /** An entry exactly `ttl` old is still served and kept. */
  lemma FreshAtBoundary(entries: map<string, CacheEntry>, key: string, now: real, ttl: int)
    requires key in entries && entries[key].Entry?
    requires now - entries[key].timestamp == ttl as real
    ensures LookUp(entries, key, now, ttl) == entries[key].candidate
    ensures AfterGet(entries, key, now, ttl) == entries
  {
  }

  /** An entry older than `ttl` is not served and is evicted. */
  lemma StaleEvicted(entries: map<string, CacheEntry>, key: string, now: real, ttl: int)
    requires key in entries && entries[key].Entry?
    requires now - entries[key].timestamp > ttl as real
    ensures LookUp(entries, key, now, ttl) == None
    ensures key !in AfterGet(entries, key, now, ttl)
  {
  }

  /** A lookup that serves nothing, or serves the entry, either leaves the
      entries alone or removes exactly the looked-up key. */
  lemma GetChangesOnlyOnStale(entries: map<string, CacheEntry>, key: string, now: real, ttl: int)
    ensures AfterGet(entries, key, now, ttl) != entries
        <==> key in entries && entries[key].Entry? && now - entries[key].timestamp > ttl as real
    ensures LookUp(entries, key, now, ttl).Some? ==> AfterGet(entries, key, now, ttl) == entries
  {
    if key in entries && entries[key].Entry? && Expired(entries[key], now, ttl) {
      assert key !in AfterGet(entries, key, now, ttl);
    }
  }

  /** `set` then `get` at the same instant returns what was set. */
  lemma SetThenGet(entries: map<string, CacheEntry>, key: string, now: real, ttl: int, c: Option<Release>)
    requires ttl >= 0
    ensures LookUp(Put(entries, key, now, c), key, now, ttl) == c
    ensures AfterGet(Put(entries, key, now, c), key, now, ttl) == Put(entries, key, now, c)
  {
  }

  /** A negative time-to-live makes even a fresh entry stale. */
  lemma NegativeTtlNeverServes(entries: map<string, CacheEntry>, key: string, now: real, ttl: int, c: Option<Release>)
    requires ttl < 0
    ensures LookUp(Put(entries, key, now, c), key, now, ttl) == None
  {
  }

  /** The release a falsy result reads as: `best.get("album") or ""` on `{}`. */
  function AlbumOf(r: Option<Release>): string {
    if r.Some? then r.value.album else ""
  }

  /** `[primary]` extended with the truthy alternates. */
  function ResolveCandidates(primary: Release, alternates: seq<Option<Release>>): (cs: seq<Option<Release>>)
    ensures Truthy(cs) == [primary] + Truthy(alternates)
  {
    var kept := Truthy(alternates);
    var cs := seq(|kept|, i requires 0 <= i < |kept| => Some(kept[i]));
    AllTruthy(cs, kept);
    assert ([Some(primary)] + cs)[1..] == cs;
    [Some(primary)] + cs
  }

  /** Candidates that are all present keep every one of them. */
  lemma {:induction false} AllTruthy(cs: seq<Option<Release>>, kept: seq<Release>)
    requires |cs| == |kept| && forall i :: 0 <= i < |cs| ==> cs[i] == Some(kept[i])
    ensures Truthy(cs) == kept
  {
    if cs != [] {
      AllTruthy(cs[1..], kept[1..]);
    }
  }

  /** `use_cache`: a cache is given and the primary has an artist or a title. */
  predicate UsesCache(hasCache: bool, primary: Release) {
    hasCache && (primary.artist != "" || primary.title != "")
  }

  /** A cached candidate is served when it is truthy and its album carries no
      suspicious token. */
  predicate Serves(cached: Option<Release>) {
    cached.Some? && !HasSuspiciousTokens(cached.value.album)
  }

  /** `resolve_canonical_release`, with `now` the clock reading used by both
      the lookup and the write. */
  method ResolveCanonicalRelease(primary: Release, alternates: seq<Option<Release>>,
                                 cache: CanonicalReleaseCache?, now: real)
    returns (best: Option<Release>, score: real)
    modifies cache
    ensures cache != null ==> cache.version == old(cache.version)
    ensures var key := MakeKey(primary.artist, primary.title);
      if !UsesCache(cache != null, primary) then
        IsBestChoice(ResolveCandidates(primary, alternates), Some(primary), best, score)
        && (cache != null ==> cache.entries == old(cache.entries) && cache.saved == old(cache.saved))
      else
        var cached := LookUp(old(cache.entries), key, now, cache.ttl);
        var afterGet := AfterGet(old(cache.entries), key, now, cache.ttl);
        if Serves(cached) then
          best == cached && score == Score(cached.value, primary, true) + CacheBonus
          && cache.entries == afterGet == old(cache.entries) && cache.saved == old(cache.saved)
        else
          IsBestChoice(ResolveCandidates(primary, alternates), Some(primary), best, score)
          && cache.entries == (if HasSuspiciousTokens(AlbumOf(best)) then afterGet
                               else Put(afterGet, key, now, best))
          && cache.saved == (if !HasSuspiciousTokens(AlbumOf(best)) then Some(CacheDoc(cache.version, cache.entries))
                             else if afterGet != old(cache.entries) then Some(CacheDoc(cache.version, afterGet))
                             else old(cache.saved))
  {
    var useCache := UsesCache(cache != null, primary);
    var cached: Option<Release> := None;
    if useCache {
      cached := cache.Get(primary.artist, primary.title, now);
      if Serves(cached) {
        score := Score(cached.value, primary, true) + CacheBonus;
        return cached, score;
      }
    }
    best, score := ChooseBestRelease(ResolveCandidates(primary, alternates), Some(primary));
    if useCache && !HasSuspiciousTokens(AlbumOf(best)) {
      cache.Set(primary.artist, primary.title, best, now);
    }
  }

  /** The primary is always a truthy candidate, so the resolver never returns
      the empty result on the scoring path. */
  lemma ResolveChoosesSomething(primary: Release, alternates: seq<Option<Release>>,
                                best: Option<Release>, score: real)
    requires IsBestChoice(ResolveCandidates(primary, alternates), Some(primary), best, score)
    ensures best.Some?
  {
  }

  /** After a write, a second resolution at the same instant is a cache hit on
      the written release: the key is the primary's, not the winner's. */
  lemma WrittenChoiceIsServed(entries: map<string, CacheEntry>, primary: Release, best: Option<Release>,
                              now: real, ttl: int)
    requires ttl >= 0
    requires best.Some? && !HasSuspiciousTokens(AlbumOf(best))
    ensures var key := MakeKey(primary.artist, primary.title);
            Serves(LookUp(Put(entries, key, now, best), key, now, ttl))
            && LookUp(Put(entries, key, now, best), key, now, ttl) == best
  {
    SetThenGet(entries, MakeKey(primary.artist, primary.title), now, ttl, best);
  }
}
