/** Duplicate requests: what the handler does around each remote procedure with the cache of
responses, over whole runs of requests and timer expiries. */
module Replay {
  import opened JsonValues
  import opened Options
  import opened RequestCaching
  import opened RpcMethods
  import opened Text
  import Transactions

  type Cache = map<Key, Json>

  /** A request together with what its method would answer if it ran, and the requests the
      method would in turn hand to the handler while it runs: the steps of a transaction, numbered
      with the unique id that was made for it. */
  datatype Call = Call(request: Json, uniqueId: string, nested: seq<Call>, response: Json)

  /** The cache afterwards, the response sent, and the requests whose methods were run. */
  datatype Served = Served(cache: Cache, response: Json, executed: seq<Json>)

  // ---------- Keys ----------

  /** The key a request is looked up under: its id and the session in its parameters. */
  function LookupKey(request: Json): Option<Key> {
    match (StringMember(request, "id"), RequestSession(request))
    case (Some(id), Some(sessionId)) => Some((sessionId, id))
    case _ => None
  }

  /** The key a response is stored under: the session of its result, or else the request's. */
  function StoreKey(request: Json, response: Json): Option<Key> {
    match StringMember(request, "id")
    case None => None
    case Some(id) =>
      match (ResponseSession(response), RequestSession(request))
      case (Some(sessionId), _) => Some((sessionId, id))
      case (None, Some(sessionId)) => Some((sessionId, id))
      case (None, None) => None
  }

  /** Responses are found again under the key they were stored under because no method reports
      a session other than its request's. */
  lemma StoredWhereLookedUp(request: Json, response: Json)
    requires Answers(request, response) && LookupKey(request).Some?
    ensures StoreKey(request, response) == LookupKey(request)
  {
    EveryMethodEchoes(request, response);
  }

  /** The key in plain terms: the text or the number under "id", and the session in the parameters. */
  lemma {:induction false} KeyInPlainTerms(ms: seq<Member>, ps: seq<Member>, sessionId: string, id: string, n: nat)
    requires Has(ms, "id") && (Get(ms, "id") == Str(id) || (Get(ms, "id") == Int(n) && id == Decimal(n)))
    requires Has(ms, "params") && Get(ms, "params") == Obj(ps)
    requires Has(ps, "sessionId") && Get(ps, "sessionId") == Str(sessionId)
    ensures LookupKey(Obj(ms)) == Some((sessionId, id))
  {}

  /** Without an id or without a session there is none. */
  lemma {:induction false} NoKeyInPlainTerms(ms: seq<Member>)
    requires !Has(ms, "id") || !Has(ms, "params") ||
             (Get(ms, "params").Obj? && !Has(Get(ms, "params").members, "sessionId"))
    ensures LookupKey(Obj(ms)).None?
  {}

  // ---------- Serving one request ----------

  function Recorded(cache: Cache, request: Json, response: Json): Cache {
    match StoreKey(request, response)
    case None => cache
    case Some(key) => if key in cache then cache else cache[key := response]
  }

  function Serve(cache: Cache, call: Call): Served
    decreases call
  {
    var key := LookupKey(call.request);
    if key.Some? && key.value in cache then Served(cache, cache[key.value], [])
    else
      var inner := ServeAll(cache, call.nested);
      Served(Recorded(inner.0, call.request, call.response), call.response, [call.request] + inner.1)
  }

  function ServeAll(cache: Cache, calls: seq<Call>): (Cache, seq<Json>)
    decreases calls
  {
    if calls == [] then (cache, [])
    else
      var first := Serve(cache, calls[0]);
      var rest := ServeAll(first.cache, calls[1..]);
      (rest.0, first.executed + rest.1)
  }

  // ---------- The handler's hooks ----------

  class ServerMethods {
    const cache: RequestCache

    constructor (cache: RequestCache)
      ensures this.cache == cache
    {
      this.cache := cache;
    }

    /** Whether to go on with the method; if not, the response to send instead. */
    method PreProcess(request: Json) returns (proceed: bool, response: Json)
      ensures var key := LookupKey(request);
              && (proceed <==> key.None? || key.value !in cache.Contents())
              && (!proceed ==> response == cache.Contents()[key.value])
    {
      response := Null;
      var requestId := StringMember(request, "id");
      if requestId.None? { return true, Null; }
      var params := ObjectMember(request, "params");
      if params.None? { return true, Null; }
      var sessionId := StringMember(params.value, "sessionId");
      if sessionId.None? { return true, Null; }
      var found := cache.GetCachedResponse(sessionId.value, requestId.value);
      if found.None? { return true, Null; }
      return false, found.value;
    }

    method PostProcess(request: Json, response: Json)
      requires cache.Valid()
      modifies cache, cache.loop
      ensures cache.Valid()
      ensures cache.Contents() == Recorded(old(cache.Contents()), request, response)
    {
      hide StringMember, ObjectMember, Flat, WellKeyed, EntriesOf;
      var requestId := StringMember(request, "id");
      if requestId.None? { return; }
      var sessionId := None;
      var result := ObjectMember(response, "result");
      if result.Some? { sessionId := StringMember(result.value, "sessionId"); }
      if sessionId.None? {
        var params := ObjectMember(request, "params");
        if params.None? { return; }
        sessionId := StringMember(params.value, "sessionId");
        if sessionId.None? { return; }
      }
      var found := cache.GetCachedResponse(sessionId.value, requestId.value);
      if found.None? {
        cache.AddResponse(sessionId.value, requestId.value, response);
      }
    }

    /** The handler around one request, running the method only when nothing is cached;
        `executed` are the requests whose methods it ran. */
    method Process(call: Call) returns (response: Json, ghost executed: seq<Json>)
      requires cache.Valid()
      modifies cache, cache.loop
      ensures cache.Valid()
      ensures var served := Serve(old(cache.Contents()), call);
              && cache.Contents() == served.cache && response == served.response
              && executed == served.executed
      decreases call
    {
      var proceed, cached := PreProcess(call.request);
      if !proceed { return cached, []; }
      ghost var inner := ProcessAll(call.nested);
      PostProcess(call.request, call.response);
      return call.response, [call.request] + inner;
    }

    /** The requests a method hands to the handler while it runs, one after the other. */
    method ProcessAll(calls: seq<Call>) returns (ghost executed: seq<Json>)
      requires cache.Valid()
      modifies cache, cache.loop
      ensures cache.Valid()
      ensures ServeAll(old(cache.Contents()), calls) == (cache.Contents(), executed)
      decreases calls
    {
      if calls == [] { return []; }
      var _, first := Process(calls[0]);
      ghost var rest := ProcessAll(calls[1..]);
      executed := first + rest;
    }
  }

  // ---------- While a response is cached ----------

  /** A cached response stays, and no request with its key is run, however deeply nested. */
  lemma {:induction false} CachedIsNotRun(cache: Cache, call: Call, key: Key)
    requires key in cache
    ensures var served := Serve(cache, call);
            && key in served.cache && served.cache[key] == cache[key]
            && (forall r :: r in served.executed ==> LookupKey(r) != Some(key))
            && (LookupKey(call.request) == Some(key) ==> served == Served(cache, cache[key], []))
    decreases call, 0
  {
    CachedAreNotRun(cache, call.nested, key);
  }

  lemma {:induction false} CachedAreNotRun(cache: Cache, calls: seq<Call>, key: Key)
    requires key in cache
    ensures var served := ServeAll(cache, calls);
            && key in served.0 && served.0[key] == cache[key]
            && forall r :: r in served.1 ==> LookupKey(r) != Some(key)
    decreases calls, 1
  {
    if calls == [] {
    } else {
      CachedIsNotRun(cache, calls[0], key);
      CachedAreNotRun(Serve(cache, calls[0]).cache, calls[1..], key);
    }
  }

  // ---------- Whole runs ----------

  datatype Event = Request(call: Call) | Fire(key: Key)

  function CacheAfter(cache: Cache, events: seq<Event>): Cache
    decreases events
  {
    if events == [] then cache else CacheAfter(AfterEvent(cache, events[0]), events[1..])
  }

  function AfterEvent(cache: Cache, event: Event): Cache {
    match event
    case Request(call) => Serve(cache, call).cache
    case Fire(key) => cache - {key}
  }

  /** All requests whose methods are run, in order. */
  function ExecutedIn(cache: Cache, events: seq<Event>): seq<Json>
    decreases events
  {
    if events == [] then []
    else match events[0]
      case Request(call) => Serve(cache, call).executed + ExecutedIn(Serve(cache, call).cache, events[1..])
      case Fire(key) => ExecutedIn(cache - {key}, events[1..])
  }

  /** The i-th request of a run and how it is served. */
  function ServedAt(cache: Cache, events: seq<Event>, i: nat): Served
    requires i < |events| && events[i].Request?
  {
    Serve(CacheAfter(cache, events[..i]), events[i].call)
  }

  lemma {:induction false} CachedUntilFired(cache: Cache, events: seq<Event>, key: Key)
    requires key in cache && Fire(key) !in events
    ensures key in CacheAfter(cache, events) && CacheAfter(cache, events)[key] == cache[key]
    ensures forall r :: r in ExecutedIn(cache, events) ==> LookupKey(r) != Some(key)
    decreases events
  {
    if events == [] {
    } else {
      match events[0] {
        case Request(call) =>
          CachedIsNotRun(cache, call, key);
          CachedUntilFired(Serve(cache, call).cache, events[1..], key);
        case Fire(other) =>
          CachedUntilFired(cache - {other}, events[1..], key);
      }
    }
  }

  /** No nested request has the key or is recorded under it. */
  ghost predicate Apart(calls: seq<Call>, key: Key)
    decreases calls
  {
    forall i :: 0 <= i < |calls| ==>
      && LookupKey(calls[i].request) != Some(key)
      && StoreKey(calls[i].request, calls[i].response) != Some(key)
      && Apart(calls[i].nested, key)
  }

  lemma {:induction false} ApartLeavesKey(cache: Cache, calls: seq<Call>, key: Key)
    requires Apart(calls, key) && key !in cache
    ensures key !in ServeAll(cache, calls).0
    ensures forall r :: r in ServeAll(cache, calls).1 ==> LookupKey(r) != Some(key)
    decreases calls
  {
    if calls == [] {
    } else {
      ApartLeavesKey(cache, calls[0].nested, key);
      assert forall i :: 0 <= i < |calls[1..]| ==> calls[1..][i] == calls[i + 1];
      ApartLeavesKey(Serve(cache, calls[0]).cache, calls[1..], key);
    }
  }

  /** The replay theorem. A request that is not cached is run once; until the timer of its
      response fires, every request with its session and id gets that first response, and
      nothing with that key is run again. */
  lemma {:induction false} ReplaysUntilFired(cache: Cache, first: Call, events: seq<Event>, key: Key)
    requires LookupKey(first.request) == Some(key) && key !in cache
    requires Answers(first.request, first.response) && Apart(first.nested, key)
    requires Fire(key) !in events
    ensures var started := Serve(cache, first);
            && started.response == first.response
            && started.executed[0] == first.request
            && (forall r :: r in started.executed[1..] ==> LookupKey(r) != Some(key))
            && (forall r :: r in ExecutedIn(started.cache, events) ==> LookupKey(r) != Some(key))
            && (forall i :: 0 <= i < |events| && events[i].Request? &&
                            LookupKey(events[i].call.request) == Some(key) ==>
                  ServedAt(started.cache, events, i).response == first.response)
  {
    var started := Serve(cache, first);
    ApartLeavesKey(cache, first.nested, key);
    StoredWhereLookedUp(first.request, first.response);
    CachedUntilFired(started.cache, events, key);
    forall i | 0 <= i < |events| && events[i].Request? && LookupKey(events[i].call.request) == Some(key)
      ensures ServedAt(started.cache, events, i).response == first.response
    {
      CachedUntilFired(started.cache, events[..i], key);
    }
  }

  /** Once its timer has fired, a request is run again. */
  lemma {:induction false} FiredRunsAgain(cache: Cache, call: Call, key: Key)
    requires LookupKey(call.request) == Some(key)
    ensures var again := Serve(AfterEvent(cache, Fire(key)), call);
            again.executed[0] == call.request && again.response == call.response
  {}

  /** A request is recorded when its method is done: one with its key that the method makes in the
      meantime is run as well. */
  lemma {:induction false} RecordedWhenDone(cache: Cache, call: Call, inner: Call, key: Key)
    requires LookupKey(call.request) == Some(key) && LookupKey(inner.request) == Some(key) && key !in cache
    requires call.nested == [inner] && inner.nested == []
    ensures Serve(cache, call).executed == [call.request, inner.request]
  {
    assert ServeAll(cache, []) == (cache, []);
    assert Serve(cache, inner).executed == [inner.request];
    var after := Serve(cache, inner).cache;
    assert call.nested[1..] == [] && ServeAll(after, []) == (after, []);
    assert ServeAll(cache, call.nested).1 == [inner.request];
  }

  /** The same for a request that named no session and was given one: it is stored under the session of
      its answer, and when the client, now in that session, sends it again it is not run. */
  lemma {:induction false} NewSessionReplays(cache: Cache, first: Call, events: seq<Event>, sessionId: string,
                                             id: string, i: nat)
    requires StringMember(first.request, "id") == Some(id) && RequestSession(first.request).None?
    requires ResponseSession(first.response) == Some(sessionId)
    requires Apart(first.nested, (sessionId, id)) && (sessionId, id) !in cache
    requires Fire((sessionId, id)) !in events
    requires i < |events| && events[i].Request?
    requires StringMember(events[i].call.request, "id") == Some(id)
    requires RequestSession(events[i].call.request) == Some(sessionId)
    ensures var started := Serve(cache, first);
            && started.response == first.response && started.executed[0] == first.request
            && ServedAt(started.cache, events, i).response == first.response
            && ServedAt(started.cache, events, i).executed == []
  {
    var key, started := (sessionId, id), Serve(cache, first);
    ApartLeavesKey(cache, first.nested, key);
    CachedUntilFired(started.cache, events[..i], key);
    CachedIsNotRun(CacheAfter(started.cache, events[..i]), events[i].call, key);
  }

  // ---------- What a run never leaves in the cache ----------

  /** Every cached response names the session it is cached under, or none. */
  ghost predicate CacheEchoes(cache: Cache) {
    forall key :: key in cache && ResponseSession(cache[key]).Some? ==>
      ResponseSession(cache[key]) == Some(key.0)
  }

  lemma {:induction false} ServeEchoes(cache: Cache, call: Call)
    requires CacheEchoes(cache) && Answers(call.request, call.response)
    ensures CacheEchoes(Serve(cache, call).cache)
    ensures Echoes(call.request, Serve(cache, call).response)
    decreases call, 0
  {
    EveryMethodEchoes(call.request, call.response);
    ServeAllEchoes(cache, call.nested);
  }

  lemma {:induction false} ServeAllEchoes(cache: Cache, calls: seq<Call>)
    requires CacheEchoes(cache)
    ensures CacheEchoes(ServeAll(cache, calls).0)
    decreases calls, 1
  {
    if calls == [] {
    } else {
      NestedEchoes(cache, calls[0]);
      ServeAllEchoes(Serve(cache, calls[0]).cache, calls[1..]);
    }
  }

  lemma {:induction false} NestedEchoes(cache: Cache, call: Call)
    requires CacheEchoes(cache)
    ensures CacheEchoes(Serve(cache, call).cache)
    decreases call, 0
  {
    ServeAllEchoes(cache, call.nested);
  }

  // ---------- The steps of transactions ----------

  /** The unique ids of a transaction and of the transactions among its steps. */
  function UniqueIds(call: Call): set<string>
    decreases call
  {
    (if call.nested == [] then {} else {call.uniqueId}) + UniqueIdsAll(call.nested)
  }

  function UniqueIdsAll(calls: seq<Call>): set<string>
    decreases calls
  {
    if calls == [] then {} else UniqueIds(calls[0]) + UniqueIdsAll(calls[1..])
  }

  /** A request and all the requests below it, in the order in which their methods are called. */
  function Requests(call: Call): seq<Json>
    decreases call
  {
    [call.request] + RequestsAll(call.nested)
  }

  function RequestsAll(calls: seq<Call>): seq<Json>
    decreases calls
  {
    if calls == [] then [] else Requests(calls[0]) + RequestsAll(calls[1..])
  }

  /** The steps of every transaction, at any depth, carry its unique id and their position, and no
      two transactions have the same one. */
  ghost predicate Numbered(call: Call)
    decreases call
  {
    && (call.nested != [] ==> call.uniqueId !in UniqueIdsAll(call.nested))
    && Steps(call.nested, call.uniqueId, 0)
  }

  ghost predicate Steps(calls: seq<Call>, uniqueId: string, from: nat)
    decreases calls
  {
    calls != [] ==>
      && StringMember(calls[0].request, "id") == Some(Transactions.SubId(uniqueId, from))
      && Numbered(calls[0]) && UniqueIds(calls[0]) !! UniqueIdsAll(calls[1..])
      && Steps(calls[1..], uniqueId, from + 1)
  }

  /** The id of a step of one of some transactions. */
  ghost predicate IsStepId(id: string, uniqueIds: set<string>) {
    exists u, i: nat :: u in uniqueIds && id == Transactions.SubId(u, i)
  }

  predicate Generated(uniqueIds: set<string>) {
    forall u :: u in uniqueIds ==> '_' !in u
  }

  /** No cached response belongs to a step of one of some transactions. */
  ghost predicate NoneCached(cache: Cache, uniqueIds: set<string>) {
    forall key :: key in cache ==> !IsStepId(key.1, uniqueIds)
  }

  /** Nor to a step of this one, from a position on. */
  ghost predicate NoneCachedFrom(cache: Cache, uniqueId: string, from: nat) {
    forall key, i: nat :: key in cache && i >= from ==> key.1 != Transactions.SubId(uniqueId, i)
  }

  lemma StepIdsApart(id: string, us: set<string>, vs: set<string>)
    requires Generated(us) && Generated(vs) && us !! vs && IsStepId(id, us)
    ensures !IsStepId(id, vs)
  {
    var u, i: nat :| u in us && id == Transactions.SubId(u, i);
    if v, j: nat :| v in vs && id == Transactions.SubId(v, j) {
      Transactions.SubIdInjective(u, i, v, j);
    }
  }

  /** What a request leaves in the cache is recorded under its own id or under a step's. */
  lemma {:induction false} ServeAdds(cache: Cache, call: Call, key: Key)
    requires Numbered(call) && key in Serve(cache, call).cache && key !in cache
    ensures StringMember(call.request, "id") == Some(key.1) || IsStepId(key.1, UniqueIds(call))
    decreases call, 0
  {
    if key in ServeAll(cache, call.nested).0 {
      ServeAllAdds(cache, call.nested, call.uniqueId, 0, key);
    }
  }

  lemma {:induction false} ServeAllAdds(cache: Cache, calls: seq<Call>, uniqueId: string, from: nat, key: Key)
    requires Steps(calls, uniqueId, from) && key in ServeAll(cache, calls).0 && key !in cache
    ensures IsStepId(key.1, {uniqueId} + UniqueIdsAll(calls)) && calls != []
    decreases calls, 1
  {
    if calls == [] {
      assert false;
    } else {
      var first := Serve(cache, calls[0]).cache;
      if key in first {
        ServeAdds(cache, calls[0], key);
        if IsStepId(key.1, UniqueIds(calls[0])) {
          var u, i: nat :| u in UniqueIds(calls[0]) && key.1 == Transactions.SubId(u, i);
          assert u in {uniqueId} + UniqueIdsAll(calls);
        }
      } else {
        ServeAllAdds(first, calls[1..], uniqueId, from + 1, key);
        var u, i: nat :| u in {uniqueId} + UniqueIdsAll(calls[1..]) && key.1 == Transactions.SubId(u, i);
        assert u in {uniqueId} + UniqueIdsAll(calls);
      }
    }
  }

  /** The request's id is no step's. */
  ghost predicate OwnId(request: Json, uniqueIds: set<string>) {
    forall id :: StringMember(request, "id") == Some(id) ==> !IsStepId(id, uniqueIds)
  }

  /** A request leaves nothing that could answer a step of transactions other than its own. */
  lemma {:induction false} OthersStayUncached(cache: Cache, call: Call, uniqueIds: set<string>)
    requires Numbered(call) && Generated(UniqueIds(call)) && Generated(uniqueIds)
    requires UniqueIds(call) !! uniqueIds && NoneCached(cache, uniqueIds)
    requires OwnId(call.request, uniqueIds)
    ensures NoneCached(Serve(cache, call).cache, uniqueIds)
  {
    forall key | key in Serve(cache, call).cache ensures !IsStepId(key.1, uniqueIds) {
      if key !in cache {
        ServeAdds(cache, call, key);
        if IsStepId(key.1, UniqueIds(call)) { StepIdsApart(key.1, UniqueIds(call), uniqueIds); }
      }
    }
  }

  /** A request that is not replayed has its method run, and so have all the requests below it. */
  lemma {:induction false} RunsWhole(cache: Cache, call: Call)
    requires Numbered(call) && Generated(UniqueIds(call)) && NoneCached(cache, UniqueIds(call))
    requires LookupKey(call.request).Some? ==> LookupKey(call.request).value !in cache
    ensures Serve(cache, call).executed == Requests(call)
    decreases call, 0
  {
    if call.nested == [] {
    } else {
      assert call.uniqueId in UniqueIds(call);
      SubsetUncached(cache, UniqueIdsAll(call.nested), UniqueIds(call));
      StepsAlwaysRun(cache, call.nested, call.uniqueId, 0);
    }
  }

  lemma SubsetUncached(cache: Cache, some: set<string>, all: set<string>)
    requires some <= all && NoneCached(cache, all)
    ensures NoneCached(cache, some)
  {
    forall key | key in cache ensures !IsStepId(key.1, some) {
      if u, i: nat :| u in some && key.1 == Transactions.SubId(u, i) {
        assert u in all;
      }
    }
  }

  /** Every step of a transaction is run, and every step of the transactions among them; none is
      answered from the cache. */
  lemma {:induction false} StepsAlwaysRun(cache: Cache, calls: seq<Call>, uniqueId: string, from: nat)
    requires Steps(calls, uniqueId, from) && uniqueId !in UniqueIdsAll(calls)
    requires Generated({uniqueId} + UniqueIdsAll(calls))
    requires NoneCachedFrom(cache, uniqueId, from) && NoneCached(cache, UniqueIdsAll(calls))
    ensures ServeAll(cache, calls).1 == RequestsAll(calls)
    decreases calls, 1
  {
    if calls == [] {
    } else {
      var first, rest := calls[0], calls[1..];
      SubsetUncached(cache, UniqueIds(first), UniqueIdsAll(calls));
      SubsetUncached(cache, UniqueIdsAll(rest), UniqueIdsAll(calls));
      RunsWhole(cache, first);
      StepLeavesOthers(cache, first, uniqueId, from, UniqueIdsAll(rest));
      StepsAlwaysRun(Serve(cache, first).cache, rest, uniqueId, from + 1);
    }
  }

  lemma {:induction false} StepLeavesOthers(cache: Cache, step: Call, uniqueId: string, from: nat, others: set<string>)
    requires StringMember(step.request, "id") == Some(Transactions.SubId(uniqueId, from)) && Numbered(step)
    requires '_' !in uniqueId && Generated(UniqueIds(step)) && Generated(others)
    requires uniqueId !in UniqueIds(step) + others && UniqueIds(step) !! others
    requires NoneCachedFrom(cache, uniqueId, from) && NoneCached(cache, others)
    ensures NoneCachedFrom(Serve(cache, step).cache, uniqueId, from + 1)
    ensures NoneCached(Serve(cache, step).cache, others)
  {
    var id := Transactions.SubId(uniqueId, from);
    assert IsStepId(id, {uniqueId});
    StepIdsApart(id, {uniqueId}, others);
    OthersStayUncached(cache, step, others);
    forall key, i: nat | key in Serve(cache, step).cache && i >= from + 1
      ensures key.1 != Transactions.SubId(uniqueId, i)
    {
      if key !in cache && key.1 == Transactions.SubId(uniqueId, i) {
        ServeAdds(cache, step, key);
        assert IsStepId(key.1, {uniqueId});
        StepIdsApart(key.1, {uniqueId}, UniqueIds(step));
        Transactions.SubIdInjective(uniqueId, i, uniqueId, from);
      }
    }
  }

  // ---------- Transactions as they are run ----------

  /** What the method of a request would do and answer, with the cache as it is. */
  type Methods = (Cache, Json) -> Call

  function CallFor(methods: Methods, cache: Cache, request: Json): Call {
    methods(cache, request).(request := request)
  }

  /** The handler with its cache, as the loop of a transaction uses it. */
  function CachedHandler(methods: Methods, succeeds: Json -> bool): (Cache, Json) -> Transactions.Answer<Cache> {
    (cache: Cache, request: Json) =>
      var served := Serve(cache, CallFor(methods, cache, request));
      var fields := if served.response.Obj? then served.response.members else [];
      Transactions.Answer(served.cache, fields, succeeds(served.response))
  }

  /** The calls a run of the loop hands to that handler. */
  function CallsOf(methods: Methods, start: Cache, trace: seq<Transactions.Exchange<Cache>>): seq<Call> {
    seq(|trace|, i requires 0 <= i < |trace| =>
      CallFor(methods, Transactions.StateAfter(start, trace[..i]), trace[i].request))
  }

  lemma {:induction false} ServeAllConcat(cache: Cache, xs: seq<Call>, ys: seq<Call>)
    ensures var front := ServeAll(cache, xs);
            var back := ServeAll(front.0, ys);
            ServeAll(cache, xs + ys) == (back.0, front.1 + back.1)
    decreases xs
  {
    if xs == [] {
      assert xs + ys == ys && [] + ServeAll(cache, ys).1 == ServeAll(cache, ys).1;
    } else {
      assert (xs + ys)[0] == xs[0] && (xs + ys)[1..] == xs[1..] + ys;
      var first := Serve(cache, xs[0]);
      ServeAllConcat(first.cache, xs[1..], ys);
      var middle := ServeAll(first.cache, xs[1..]);
      var back := ServeAll(middle.0, ys);
      assert first.executed + (middle.1 + back.1) == (first.executed + middle.1) + back.1;
    }
  }

  lemma {:induction false} NoneServed(cache: Cache)
    ensures ServeAll(cache, []).0 == cache
  {}

  lemma {:induction false} ServeOne(cache: Cache, call: Call)
    ensures ServeAll(cache, [call]).0 == Serve(cache, call).cache
  {
    assert [call][1..] == [] && ServeAll(Serve(cache, call).cache, []) == (Serve(cache, call).cache, []);
  }

  lemma {:induction false} CallServed(start: Cache, calls: seq<Call>, n: nat)
    requires n < |calls|
    ensures ServeAll(start, calls[..n + 1]).0 == Serve(ServeAll(start, calls[..n]).0, calls[n]).cache
  {
    hide Serve, ServeAll;
    assert calls[..n + 1] == calls[..n] + [calls[n]];
    ServeAllConcat(start, calls[..n], [calls[n]]);
    ServeOne(ServeAll(start, calls[..n]).0, calls[n]);
  }

  lemma ExchangeServed(methods: Methods, succeeds: Json -> bool, start: Cache, operations: seq<Json>,
                       sessionId: string, uniqueId: string, trace: seq<Transactions.Exchange<Cache>>, n: nat)
    requires Transactions.ServerRun(CachedHandler(methods, succeeds), start, operations, sessionId, uniqueId, trace)
    requires n < |trace|
    ensures Transactions.StateAfter(start, trace[..n + 1]) ==
            Serve(Transactions.StateAfter(start, trace[..n]), CallsOf(methods, start, trace)[n]).cache
  {
    hide Serve, Transactions.ServerRequest;
    var before := Transactions.StateAfter(start, trace[..n]);
    assert trace[..n + 1][n] == trace[n];
    assert trace[n].answer == CachedHandler(methods, succeeds)(before, trace[n].request);
  }

  /** The loop leaves the cache that serving its calls one after the other leaves. */
  lemma {:induction false} LoopServesCalls(methods: Methods, succeeds: Json -> bool, start: Cache,
                                           operations: seq<Json>, sessionId: string, uniqueId: string,
                                           trace: seq<Transactions.Exchange<Cache>>, n: nat)
    requires Transactions.ServerRun(CachedHandler(methods, succeeds), start, operations, sessionId, uniqueId, trace)
    requires n <= |trace|
    ensures ServeAll(start, CallsOf(methods, start, trace)[..n]).0 == Transactions.StateAfter(start, trace[..n])
    decreases n
  {
    if n == 0 {
      NoneServed(start);
    } else {
      hide ServeAll, CallsOf, Transactions.ServerRun, Transactions.StateAfter;
      LoopServesCalls(methods, succeeds, start, operations, sessionId, uniqueId, trace, n - 1);
      CallServed(start, CallsOf(methods, start, trace), n - 1);
      ExchangeServed(methods, succeeds, start, operations, sessionId, uniqueId, trace, n - 1);
    }
  }

  /** The loop numbers its steps. */
  lemma {:induction false} LoopNumbersSteps(methods: Methods, succeeds: Json -> bool, start: Cache,
                                            operations: seq<Json>, sessionId: string, uniqueId: string,
                                            trace: seq<Transactions.Exchange<Cache>>, from: nat)
    requires Transactions.ServerRun(CachedHandler(methods, succeeds), start, operations, sessionId, uniqueId, trace)
    requires from <= |trace| && OwnTransactions(CallsOf(methods, start, trace))
    ensures Steps(CallsOf(methods, start, trace)[from..], uniqueId, from)
    decreases |trace| - from
  {
    var calls := CallsOf(methods, start, trace);
    if from == |trace| {
    } else {
      LoopNumbersSteps(methods, succeeds, start, operations, sessionId, uniqueId, trace, from + 1);
      Transactions.RequestIsNumbered(operations[from], from, sessionId, uniqueId,
                                     Transactions.Responses(trace[..from]));
      assert calls[from..][0] == calls[from] && calls[from..][1..] == calls[from + 1..];
      ApartFromRest(calls, from);
    }
  }

  /** Transactions among the calls are numbered, and no two of them have the same unique id. */
  ghost predicate OwnTransactions(calls: seq<Call>) {
    && (forall i :: 0 <= i < |calls| ==> Numbered(calls[i]))
    && (forall i, j :: 0 <= i < j < |calls| ==> UniqueIds(calls[i]) !! UniqueIds(calls[j]))
  }

  lemma {:induction false} UniqueIdsOfSome(calls: seq<Call>, u: string)
    ensures u in UniqueIdsAll(calls) <==> exists i :: 0 <= i < |calls| && u in UniqueIds(calls[i])
  {
    if calls == [] {
    } else {
      UniqueIdsOfSome(calls[1..], u);
      assert forall i :: 0 < i < |calls| ==> calls[i] == calls[1..][i - 1];
      if i :| 0 <= i < |calls[1..]| && u in UniqueIds(calls[1..][i]) { assert u in UniqueIds(calls[i + 1]); }
    }
  }

  lemma ApartFromRest(calls: seq<Call>, i: nat)
    requires OwnTransactions(calls) && i < |calls|
    ensures UniqueIds(calls[i]) !! UniqueIdsAll(calls[i + 1..])
  {
    forall u | u in UniqueIds(calls[i]) ensures u !in UniqueIdsAll(calls[i + 1..]) {
      UniqueIdsOfSome(calls[i + 1..], u);
    }
  }

  /** Every request the loop makes is run, none is answered from the cache, and neither is any request
      below them: whatever the operations are, and however far the loop gets. */
  lemma {:induction false} TransactionRunsItsSteps(methods: Methods, succeeds: Json -> bool, start: Cache,
                                                   operations: seq<Json>, sessionId: string, uniqueId: string,
                                                   trace: seq<Transactions.Exchange<Cache>>)
    requires Transactions.ServerRun(CachedHandler(methods, succeeds), start, operations, sessionId, uniqueId, trace)
    requires var calls := CallsOf(methods, start, trace);
             && OwnTransactions(calls) && uniqueId !in UniqueIdsAll(calls)
             && Generated({uniqueId} + UniqueIdsAll(calls)) && NoneCached(start, {uniqueId} + UniqueIdsAll(calls))
    ensures var calls := CallsOf(methods, start, trace);
            && ServeAll(start, calls) == (Transactions.StateAfter(start, trace), RequestsAll(calls))
            && forall request, response :: Numbered(Call(request, uniqueId, calls, response))
  {
    var calls := CallsOf(methods, start, trace);
    LoopServesCalls(methods, succeeds, start, operations, sessionId, uniqueId, trace, |trace|);
    assert calls[..|trace|] == calls && trace[..|trace|] == trace;
    LoopNumbersSteps(methods, succeeds, start, operations, sessionId, uniqueId, trace, 0);
    assert calls[0..] == calls;
    SubsetUncached(start, UniqueIdsAll(calls), {uniqueId} + UniqueIdsAll(calls));
    forall key, i: nat | key in start ensures key.1 != Transactions.SubId(uniqueId, i) {
      if key.1 == Transactions.SubId(uniqueId, i) { assert IsStepId(key.1, {uniqueId} + UniqueIdsAll(calls)); }
    }
    StepsAlwaysRun(start, calls, uniqueId, 0);
  }

  // ---------- Whole runs with transactions ----------

  /** Steps are numbered with the unique ids made for their transactions, which contain no
      underscore and are all different, and no request from outside has a step's id. */
  ghost predicate LawfulRun(events: seq<Event>) {
    && (forall i :: 0 <= i < |events| && events[i].Request? ==>
          Numbered(events[i].call) && Generated(UniqueIds(events[i].call)))
    && (forall i, j :: 0 <= i < j < |events| && events[i].Request? && events[j].Request? ==>
          UniqueIds(events[i].call) !! UniqueIds(events[j].call))
    && (forall i, j :: 0 <= i < |events| && 0 <= j < |events| && events[i].Request? && events[j].Request? ==>
          OwnId(events[i].call.request, UniqueIds(events[j].call)))
  }

  lemma {:induction false} CacheAfterConcat(cache: Cache, es: seq<Event>, fs: seq<Event>)
    ensures CacheAfter(cache, es + fs) == CacheAfter(CacheAfter(cache, es), fs)
    decreases es
  {
    if es == [] {
      assert es + fs == fs;
    } else {
      assert (es + fs)[0] == es[0] && (es + fs)[1..] == es[1..] + fs;
      CacheAfterConcat(AfterEvent(cache, es[0]), es[1..], fs);
    }
  }

  /** The steps still to come are never in the cache. */
  lemma {:induction false} StepsStayNew(events: seq<Event>, i: nat, j: nat)
    requires LawfulRun(events) && i <= j < |events| && events[j].Request?
    ensures NoneCached(CacheAfter(map[], events[..i]), UniqueIds(events[j].call))
    decreases i
  {
    if i == 0 {
      assert events[..0] == [];
    } else {
      StepsStayNew(events, i - 1, j);
      var before, event, us := CacheAfter(map[], events[..i - 1]), events[i - 1], UniqueIds(events[j].call);
      CacheAfterNext(events, i - 1);
      match event {
        case Request(call) => OthersStayUncached(before, call, us);
        case Fire(_) =>
      }
    }
  }

  lemma CacheAfterNext(events: seq<Event>, i: nat)
    requires i < |events|
    ensures CacheAfter(map[], events[..i + 1]) == AfterEvent(CacheAfter(map[], events[..i]), events[i])
  {
    CacheBetween(events, i, i + 1);
    assert events[i + 1..i + 1] == [];
  }

  /** Over every run from the empty cache, a transaction that is not itself replayed has every step
      run, down to the steps of transactions among them: none is ever answered by another request's
      cached response. */
  lemma EveryStepRuns(events: seq<Event>, i: nat)
    requires LawfulRun(events) && i < |events| && events[i].Request?
    ensures var cache, call := CacheAfter(map[], events[..i]), events[i].call;
            (LookupKey(call.request).Some? && LookupKey(call.request).value in cache) ||
            Serve(cache, call).executed == Requests(call)
  {
    var cache, call := CacheAfter(map[], events[..i]), events[i].call;
    StepsStayNew(events, i, i);
    if LookupKey(call.request).None? || LookupKey(call.request).value !in cache { RunsWhole(cache, call); }
  }

  /** The requests below one from outside keep away from its key. */
  lemma {:induction false} StepsAreApart(calls: seq<Call>, uniqueId: string, from: nat, all: set<string>, key: Key)
    requires Steps(calls, uniqueId, from) && !IsStepId(key.1, all)
    requires (calls != [] ==> uniqueId in all) && UniqueIdsAll(calls) <= all
    ensures Apart(calls, key)
    decreases calls
  {
    if calls == [] {
    } else {
      var first, rest := calls[0], calls[1..];
      assert key.1 != Transactions.SubId(uniqueId, from);
      StepsAreApart(first.nested, first.uniqueId, 0, all, key);
      StepsAreApart(rest, uniqueId, from + 1, all, key);
      assert forall i :: 0 < i < |calls| ==> calls[i] == rest[i - 1];
    }
  }

  /** The replay theorem over whole runs: what is not cached is run, and until its timer fires
      all later requests with its key get its response. */
  lemma ReplaysOverRun(events: seq<Event>, i: nat, key: Key, j: nat)
    requires LawfulRun(events) && i < j < |events| && events[i].Request? && events[j].Request?
    requires var call := events[i].call;
             Answers(call.request, call.response) && LookupKey(call.request) == Some(key)
    requires key !in CacheAfter(map[], events[..i])
    requires LookupKey(events[j].call.request) == Some(key)
    requires Fire(key) !in events[i + 1..j]
    ensures ServedAt(map[], events, i).response == events[i].call.response
    ensures var served := ServedAt(map[], events, j);
            served.response == events[i].call.response && served.executed == []
  {
    var call, cache := events[i].call, CacheAfter(map[], events[..i]);
    StepsAreApart(call.nested, call.uniqueId, 0, UniqueIds(call), key);
    ApartLeavesKey(cache, call.nested, key);
    StoredWhereLookedUp(call.request, call.response);
    CacheBetween(events, i, j);
    CachedUntilFired(Serve(cache, call).cache, events[i + 1..j], key);
    CachedIsNotRun(CacheAfter(map[], events[..j]), events[j].call, key);
  }

  /** So it is over whole runs for a request that named no session and was given one. */
  lemma NewSessionOverRun(events: seq<Event>, i: nat, sessionId: string, id: string, j: nat)
    requires LawfulRun(events) && i < j < |events| && events[i].Request? && events[j].Request?
    requires var call := events[i].call;
             && StringMember(call.request, "id") == Some(id) && RequestSession(call.request).None?
             && ResponseSession(call.response) == Some(sessionId)
    requires (sessionId, id) !in CacheAfter(map[], events[..i])
    requires StringMember(events[j].call.request, "id") == Some(id)
    requires RequestSession(events[j].call.request) == Some(sessionId)
    requires Fire((sessionId, id)) !in events[i + 1..j]
    ensures ServedAt(map[], events, i).response == events[i].call.response
    ensures var served := ServedAt(map[], events, j);
            served.response == events[i].call.response && served.executed == []
  {
    var key, call, cache := (sessionId, id), events[i].call, CacheAfter(map[], events[..i]);
    StepsAreApart(call.nested, call.uniqueId, 0, UniqueIds(call), key);
    ApartLeavesKey(cache, call.nested, key);
    CacheBetween(events, i, j);
    CachedUntilFired(Serve(cache, call).cache, events[i + 1..j], key);
    CachedIsNotRun(CacheAfter(map[], events[..j]), events[j].call, key);
  }

  lemma CacheBetween(events: seq<Event>, i: nat, j: nat)
    requires i < j <= |events|
    ensures CacheAfter(map[], events[..j]) ==
            CacheAfter(AfterEvent(CacheAfter(map[], events[..i]), events[i]), events[i + 1..j])
  {
    var rest := events[i..j];
    assert events[..j] == events[..i] + rest;
    assert rest[0] == events[i] && rest[1..] == events[i + 1..j];
    CacheAfterConcat(map[], events[..i], rest);
  }
}
