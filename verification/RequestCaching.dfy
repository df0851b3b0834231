/** The cache of responses to recent requests. Each entry owns a one-shot timer that removes
whatever is stored under the entry's key when it fires. */
module RequestCaching {
  import opened JsonValues
  import opened Options

  /** The session and the id of a request. */
  type Key = (string, string)

  /** The timer sources attached to the main loop, each known by the entry that owns it. */
  class MainLoop {
    var sources: set<CacheEntry>

    constructor ()
      ensures sources == {}
    {
      sources := {};
    }
  }

  class CacheEntry {
    const sessionId: string
    const requestId: string
    const response: Json
    var timedOut: bool

    /** Arms the timer. */
    constructor (loop: MainLoop, sessionId: string, requestId: string, response: Json)
      modifies loop
      ensures this.sessionId == sessionId && this.requestId == requestId && this.response == response
      ensures !timedOut && loop.sources == old(loop.sources) + {this}
    {
      this.sessionId, this.requestId, this.response := sessionId, requestId, response;
      timedOut := false;
      new;
      loop.sources := loop.sources + {this};
    }

    /** Runs when the last owner lets go of the entry: a timer that has not fired is destroyed. */
    method Dispose(loop: MainLoop)
      modifies loop
      ensures loop.sources == if timedOut then old(loop.sources) else old(loop.sources) - {this}
    {
      if !timedOut { loop.sources := loop.sources - {this}; }
    }
  }

  // ---------- The two-level map ----------

  type Buckets = map<string, map<string, CacheEntry>>

  function KeyOf(e: CacheEntry): Key {
    (e.sessionId, e.requestId)
  }

  predicate Holds(cache: Buckets, key: Key) {
    key.0 in cache && key.1 in cache[key.0]
  }

  /** The entry is what the cache has under the entry's own key. */
  predicate IsStored(cache: Buckets, e: CacheEntry) {
    Holds(cache, KeyOf(e)) && cache[e.sessionId][e.requestId] == e
  }

  /** Every entry is under its own key, and no session is kept without requests. */
  ghost predicate WellKeyed(cache: Buckets) {
    && (forall s :: s in cache ==> cache[s] != map[])
    && (forall s, r :: s in cache && r in cache[s] ==> KeyOf(cache[s][r]) == (s, r))
  }

  /** The two levels read as one. */
  ghost function Flat(cache: Buckets): map<Key, Json> {
    map key | key in FlatKeys(cache) :: cache[key.0][key.1].response
  }

  ghost function FlatKeys(cache: Buckets): set<Key> {
    set s, r | s in cache && r in cache[s] :: (s, r)
  }

  function Bucket(cache: Buckets, s: string): map<string, CacheEntry> {
    if s in cache then cache[s] else map[]
  }

  function Inserted(cache: Buckets, entry: CacheEntry): Buckets {
    cache[entry.sessionId := Bucket(cache, entry.sessionId)[entry.requestId := entry]]
  }

  function Erased(cache: Buckets, key: Key): Buckets {
    if !Holds(cache, key) then cache
    else if cache[key.0] - {key.1} == map[] then cache - {key.0}
    else cache[key.0 := cache[key.0] - {key.1}]
  }

  lemma FlatHolds(cache: Buckets, key: Key)
    ensures key in Flat(cache) <==> Holds(cache, key)
    ensures Holds(cache, key) ==> Flat(cache)[key] == cache[key.0][key.1].response
  {
    if Holds(cache, key) { assert (key.0, key.1) in FlatKeys(cache); }
  }

  lemma InsertedHolds(cache: Buckets, entry: CacheEntry, key: Key)
    ensures Holds(Inserted(cache, entry), key) <==> key == KeyOf(entry) || Holds(cache, key)
    ensures Holds(Inserted(cache, entry), key) ==>
              Inserted(cache, entry)[key.0][key.1] ==
              if key == KeyOf(entry) then entry else cache[key.0][key.1]
  {}

  lemma ErasedHolds(cache: Buckets, gone: Key, key: Key)
    ensures Holds(Erased(cache, gone), key) <==> key != gone && Holds(cache, key)
    ensures Holds(Erased(cache, gone), key) ==> Erased(cache, gone)[key.0][key.1] == cache[key.0][key.1]
  {
    if Holds(cache, gone) && key.0 == gone.0 && key.1 != gone.1 && Holds(cache, key) {
      assert key.1 in cache[gone.0] - {gone.1};
    }
  }

  lemma FlatInserted(cache: Buckets, entry: CacheEntry)
    ensures Flat(Inserted(cache, entry)) == Flat(cache)[KeyOf(entry) := entry.response]
  {
    var after, wanted := Flat(Inserted(cache, entry)), Flat(cache)[KeyOf(entry) := entry.response];
    forall key: Key
      ensures key in after <==> key in wanted
      ensures key in after ==> after[key] == wanted[key]
    {
      FlatHolds(cache, key);
      FlatHolds(Inserted(cache, entry), key);
      InsertedHolds(cache, entry, key);
    }
  }

  lemma FlatErased(cache: Buckets, gone: Key)
    ensures Flat(Erased(cache, gone)) == Flat(cache) - {gone}
  {
    var after, wanted := Flat(Erased(cache, gone)), Flat(cache) - {gone};
    forall key: Key
      ensures key in after <==> key in wanted
      ensures key in after ==> after[key] == wanted[key]
    {
      FlatHolds(cache, key);
      FlatHolds(Erased(cache, gone), key);
      ErasedHolds(cache, gone, key);
    }
  }

  ghost function EntriesOf(cache: Buckets): set<CacheEntry> {
    set s, r | s in cache && r in cache[s] :: cache[s][r]
  }

  lemma EntriesHold(cache: Buckets, e: CacheEntry)
    requires WellKeyed(cache)
    ensures e in EntriesOf(cache) <==> IsStored(cache, e)
  {}

  /** The entry the cache has under a key, as a set of at most one. */
  function Under(cache: Buckets, key: Key): set<CacheEntry> {
    if Holds(cache, key) then {cache[key.0][key.1]} else {}
  }

  lemma UnderIsByKey(cache: Buckets, key: Key)
    requires WellKeyed(cache)
    ensures forall e :: e in EntriesOf(cache) ==> (KeyOf(e) == key <==> e in Under(cache, key))
    ensures Under(cache, key) <= EntriesOf(cache)
  {
    forall e | e in EntriesOf(cache) ensures KeyOf(e) == key <==> e in Under(cache, key) {
      EntriesHold(cache, e);
    }
  }

  lemma UnderOwnKey(cache: Buckets, entry: CacheEntry)
    requires WellKeyed(cache) && entry in EntriesOf(cache)
    ensures Under(cache, KeyOf(entry)) == {entry}
  {
    EntriesHold(cache, entry);
  }

  lemma EntriesInserted(cache: Buckets, entry: CacheEntry)
    requires WellKeyed(cache)
    ensures WellKeyed(Inserted(cache, entry))
    ensures EntriesOf(Inserted(cache, entry)) == EntriesOf(cache) - Under(cache, KeyOf(entry)) + {entry}
  {
    InsertedWellKeyed(cache, entry);
    UnderIsByKey(cache, KeyOf(entry));
    forall e
      ensures e in EntriesOf(Inserted(cache, entry)) <==>
              e in EntriesOf(cache) - Under(cache, KeyOf(entry)) + {entry}
    {
      EntriesHold(cache, e);
      EntriesHold(Inserted(cache, entry), e);
      InsertedHolds(cache, entry, KeyOf(e));
    }
  }

  lemma EntriesErased(cache: Buckets, gone: Key)
    requires WellKeyed(cache)
    ensures WellKeyed(Erased(cache, gone))
    ensures EntriesOf(Erased(cache, gone)) == EntriesOf(cache) - Under(cache, gone)
  {
    ErasedWellKeyed(cache, gone);
    UnderIsByKey(cache, gone);
    forall e ensures e in EntriesOf(Erased(cache, gone)) <==> e in EntriesOf(cache) - Under(cache, gone) {
      EntriesHold(cache, e);
      EntriesHold(Erased(cache, gone), e);
      ErasedHolds(cache, gone, KeyOf(e));
    }
  }

  lemma InsertedWellKeyed(cache: Buckets, entry: CacheEntry)
    requires WellKeyed(cache)
    ensures WellKeyed(Inserted(cache, entry))
  {
    var after := Inserted(cache, entry);
    forall s | s in after ensures after[s] != map[] {
      if s == entry.sessionId { assert entry.requestId in after[s]; }
    }
    forall s, r | s in after && r in after[s] ensures KeyOf(after[s][r]) == (s, r) {
      InsertedHolds(cache, entry, (s, r));
    }
  }

  lemma ErasedWellKeyed(cache: Buckets, gone: Key)
    requires WellKeyed(cache)
    ensures WellKeyed(Erased(cache, gone))
  {
    var after := Erased(cache, gone);
    forall s, r | s in after && r in after[s] ensures KeyOf(after[s][r]) == (s, r) {
      ErasedHolds(cache, gone, (s, r));
    }
  }

  // ---------- The cache ----------

  class RequestCache {
    const loop: MainLoop
    var cache: Buckets

    ghost function Contents(): map<Key, Json>
      reads this
    {
      Flat(cache)
    }

    /** Stored entries and armed timers correspond one to one, each entry under its own key, and
        no session is kept without requests. */
    ghost predicate Valid()
      reads this, loop, loop.sources
    {
      && WellKeyed(cache)
      && loop.sources == EntriesOf(cache)
      && forall e :: e in loop.sources ==> !e.timedOut
    }

    constructor (loop: MainLoop)
      requires loop.sources == {}
      ensures Valid() && Contents() == map[] && this.loop == loop
    {
      this.loop := loop;
      cache := map[];
    }

    method AddResponse(sessionId: string, requestId: string, response: Json)
      requires Valid()
      modifies this, loop
      ensures Valid()
      ensures Contents() == old(Contents())[(sessionId, requestId) := response]
      // The timer of a replaced entry is destroyed; every other timer stays as it was.
      ensures forall e :: e in old(loop.sources) ==>
                (e in loop.sources <==> KeyOf(e) != (sessionId, requestId))
    {
      hide Inserted, Flat, WellKeyed, EntriesOf, Under;
      var entry := new CacheEntry(loop, sessionId, requestId, response);
      UnderIsByKey(cache, KeyOf(entry));
      FlatInserted(cache, entry);
      EntriesInserted(cache, entry);
      Assign(entry);
    }

    /** Stores an entry under its key; the entry it replaces has no other owner. */
    method Assign(entry: CacheEntry)
      modifies this, loop
      ensures cache == Inserted(old(cache), entry)
      ensures loop.sources == old(loop.sources) - set e | e in Under(old(cache), KeyOf(entry)) && !e.timedOut
    {
      var requests: map<string, CacheEntry> := if entry.sessionId in cache then cache[entry.sessionId] else map[];
      cache := cache[entry.sessionId := requests[entry.requestId := entry]];
      if entry.requestId in requests {
        requests[entry.requestId].Dispose(loop);
      }
    }

    method GetCachedResponse(sessionId: string, requestId: string) returns (response: Option<Json>)
      ensures response.Some? <==> (sessionId, requestId) in Contents()
      ensures response.Some? ==> response.value == Contents()[(sessionId, requestId)]
    {
      FlatHolds(cache, (sessionId, requestId));
      if sessionId !in cache { return None; }
      var requests := cache[sessionId];
      if requestId !in requests { return None; }
      response := Some(requests[requestId].response);
    }

    /** What an entry's timeout signal is connected to: erases whatever is under the key. */
    method EraseKey(sessionId: string, requestId: string)
      modifies this, loop
      ensures cache == Erased(old(cache), (sessionId, requestId))
      ensures loop.sources ==
              old(loop.sources) - set e | e in Under(old(cache), (sessionId, requestId)) && !e.timedOut
    {
      if sessionId !in cache { return; }
      var requests := cache[sessionId];
      if requestId !in requests { return; }
      var erased := requests[requestId];
      requests := requests - {requestId};
      cache := cache[sessionId := requests];
      if requests == map[] {
        cache := cache - {sessionId};
      }
      erased.Dispose(loop);
    }

    /** The main loop runs the callback of an armed timer, which is then gone for good. */
    method Fire(entry: CacheEntry)
      requires Valid() && entry in loop.sources
      modifies this, loop, entry
      ensures Valid()
      ensures Contents() == old(Contents()) - {KeyOf(entry)}
      ensures loop.sources == old(loop.sources) - {entry}
    {
      hide Erased, Flat, WellKeyed, EntriesOf, Under;
      ghost var before := cache;
      UnderOwnKey(before, entry);
      entry.timedOut := true;
      EraseKey(entry.sessionId, entry.requestId);
      loop.sources := loop.sources - {entry};
      FlatErased(before, KeyOf(entry));
      EntriesErased(before, KeyOf(entry));
    }
  }
}
