/** Messages arriving on connections: how a connection gets its session and keeps it. */
module MessageLoop {
  import opened Connections
  import opened JsonValues
  import opened Options
  import opened RpcMethods
  import R = Replay

  // ---------- One message ----------

  /** The request with the connection's session put in, unless it names a session itself. */
  function InjectSessionId(request: Json, sessionId: string): Result<Json> {
    if !request.Obj? && request != Null then Fail(Uncaught)
    else
      var fields := if request.Obj? then request.members else [];
      var params := Get(fields, "params");
      if StringMember(params, "sessionId").Some? then Ok(request)
      else if !params.Obj? && params != Null then Fail(Uncaught)
      else Ok(Obj(Put(fields, "params",
                      Obj(Put(if params.Obj? then params.members else [], "sessionId", Str(sessionId))))))
  }

  /** The session the connection is to have after a response; no session for an error. */
  function SessionAfter(response: Json, sessionId: string): Result<string> {
    if !response.Obj? && response != Null then Fail(Uncaught)
    else if ObjectMember(response, "error").Some? then Ok("")
    else Ok(ResponseSession(response).GetOr(sessionId))
  }

  /** A message: its payload if it parses, and what its method would do and answer were it run. */
  datatype Message = Message(payload: Option<Json>, uniqueId: string, nested: seq<R.Call>, answer: Json)

  datatype ServerState = ServerState(registry: Registry, live: set<Handle>, cache: R.Cache)

  function BoundSession(r: Registry, h: Handle): string {
    if h in r.reverse then r.reverse[h] else ""
  }

  /** The request the handler sees for a message, if it gets that far. */
  function EffectiveRequest(s: ServerState, h: Handle, message: Message): Result<Json> {
    if message.payload.None? then Fail(Uncaught)
    else
      var sessionId := BoundSession(s.registry, h);
      if sessionId != "" then InjectSessionId(message.payload.value, sessionId) else Ok(message.payload.value)
  }

  function ServedFor(s: ServerState, request: Json, message: Message): R.Served {
    R.Serve(s.cache, R.Call(request, message.uniqueId, message.nested, message.answer))
  }

  function AfterMessage(s: ServerState, h: Handle, message: Message, secure: bool): ServerState {
    match EffectiveRequest(s, h, message)
    case Fail(_) => s
    case Ok(request) =>
      var served := ServedFor(s, request, message);
      match SessionAfter(served.response, BoundSession(s.registry, h))
      case Fail(_) => s.(cache := served.cache)
      case Ok(sessionId) =>
        s.(cache := served.cache, registry := Stored(s.registry, s.live, h, secure, sessionId))
  }

  /** What is sent back; an exception on the way leaves the message without an answer. */
  function Answered(s: ServerState, h: Handle, message: Message): Option<Json> {
    match EffectiveRequest(s, h, message)
    case Fail(_) => None
    case Ok(request) =>
      var response := ServedFor(s, request, message).response;
      if SessionAfter(response, BoundSession(s.registry, h)).Fail? then None else Some(response)
  }

  /** One message on the transport; the response is sent unless an exception cut it short. */
  method ProcessMessage(transport: WebSocketTransport, server: R.ServerMethods, live: set<Handle>,
                        hdl: Handle, secure: bool, message: Message)
    returns (response: Option<Json>)
    requires server.cache.Valid()
    modifies transport, server.cache, server.cache.loop
    ensures server.cache.Valid()
    ensures var before := ServerState(old(transport.Value()), live, old(server.cache.Contents()));
            && ServerState(transport.Value(), live, server.cache.Contents()) ==
               AfterMessage(before, hdl, message, secure)
            && response == Answered(before, hdl, message)
  {
    var sessionId := "";
    if hdl in transport.connectionsReverse { sessionId := transport.connectionsReverse[hdl]; }
    if message.payload.None? { return None; }
    var request := message.payload.value;
    if sessionId != "" {
      var injected := InjectSessionId(request, sessionId);
      if injected.Fail? { return None; }
      request := injected.value;
    }
    var answer, _ := server.Process(R.Call(request, message.uniqueId, message.nested, message.answer));
    var newSessionId := SessionAfter(answer, sessionId);
    if newSessionId.Fail? { return None; }
    transport.StoreConnection(live, hdl, secure, newSessionId.value);
    return Some(answer);
  }

  // ---------- Whole runs, one message at a time ----------

  datatype Event =
    | Open(h: Handle)
    | Expire(h: Handle)
    | Close(h: Handle)
    | Arrive(h: Handle, message: Message)
    | Timeout(key: (string, string))

  /** A session that a method makes up for a request without one is not in use. */
  predicate AnswersNew(r: Registry, request: Json, answer: Json) {
    RequestSession(request).None? && ResponseSession(answer).Some? ==>
      ResponseSession(answer).value !in r.connections
  }

  /** A message comes in on a live connection, and whatever methods it runs answer as the
      remote procedures do, with new sessions for requests that name none. */
  ghost predicate Possible(s: ServerState, e: Event) {
    match e
    case Arrive(h, message) =>
      && h in s.live
      && (EffectiveRequest(s, h, message).Ok? ==>
            && Answers(EffectiveRequest(s, h, message).value, message.answer)
            && AnswersNew(s.registry, EffectiveRequest(s, h, message).value, message.answer))
    case _ => true
  }

  function After(s: ServerState, e: Event, kinds: Kinds): ServerState {
    match e
    case Open(h) => s.(live := s.live + {h})
    case Expire(h) => s.(live := s.live - {h})
    case Close(h) => s.(registry := Unbound(s.registry, h))
    case Arrive(h, message) => AfterMessage(s, h, message, kinds(h))
    case Timeout(key) => s.(cache := s.cache - {key})
  }

  ghost predicate Inv(s: ServerState, kinds: Kinds) {
    Connections.Inv(s.registry, kinds) && R.CacheEchoes(s.cache)
  }

  predicate Bound(s: ServerState, h: Handle, sessionId: string) {
    h in s.registry.reverse && s.registry.reverse[h] == sessionId
  }

  /** The three ways a connection can lose the session it is bound to: it closes, a message on
      it names another session, or a message on another connection names this one. */
  ghost predicate Releases(s: ServerState, e: Event, h: Handle, sessionId: string) {
    match e
    case Close(g) => g == h
    case Arrive(g, message) =>
      && message.payload.Some?
      && RequestSession(message.payload.value).Some?
      && (g == h) != (RequestSession(message.payload.value) == Some(sessionId))
    case _ => false
  }

  lemma InjectedNamesSession(request: Json, sessionId: string)
    requires InjectSessionId(request, sessionId).Ok?
    ensures RequestSession(InjectSessionId(request, sessionId).value) ==
            Some(RequestSession(request).GetOr(sessionId))
  {
    var fields := if request.Obj? then request.members else [];
    var params := Get(fields, "params");
    if StringMember(params, "sessionId").None? {
      var inner := Put(if params.Obj? then params.members else [], "sessionId", Str(sessionId));
      PutThenGet(if params.Obj? then params.members else [], "sessionId", Str(sessionId), "sessionId");
      PutThenGet(fields, "params", Obj(inner), "params");
    } else if !Has(fields, "params") {
      GetMissing(fields, "params");
    }
  }

  /** Injection adds the session and nothing else: every other member, and every other parameter, is the
      request's own. */
  lemma InjectedKeepsRest(ms: seq<Member>, sessionId: string, key: string)
    requires Get(ms, "params").Obj? || Get(ms, "params").Null?
    ensures var j := InjectSessionId(Obj(ms), sessionId);
            && j.Ok? && j.value.Obj?
            && (key != "params" ==>
                  Get(j.value.members, key) == Get(ms, key) && (Has(j.value.members, key) <==> Has(ms, key)))
            && (key != "sessionId" ==>
                  var own := if Get(ms, "params").Obj? then Get(ms, "params").members else [];
                  var params := Get(j.value.members, "params");
                  params.Obj? && Get(params.members, key) == Get(own, key))
  {
    var own := if Get(ms, "params").Obj? then Get(ms, "params").members else [];
    var inner := Obj(Put(own, "sessionId", Str(sessionId)));
    PutThenGet(own, "sessionId", Str(sessionId), key);
    PutThenGet(ms, "params", inner, key);
    PutThenGet(ms, "params", inner, "params");
  }

  /** The session a message leads to: its own if it names one, else the connection's, and for
      an unbound connection a session that is not in use. */
  lemma MessageSession(s: ServerState, h: Handle, message: Message)
    requires R.CacheEchoes(s.cache)
    requires EffectiveRequest(s, h, message).Ok?
    requires var request := EffectiveRequest(s, h, message).value;
             Answers(request, message.answer) && AnswersNew(s.registry, request, message.answer)
    ensures var request := EffectiveRequest(s, h, message).value;
            var bound := BoundSession(s.registry, h);
            var named := RequestSession(message.payload.value);
            var after := SessionAfter(ServedFor(s, request, message).response, bound);
            after.Ok? ==>
              || after.value in {"", bound}
              || Some(after.value) == named
              || (bound == "" && named.None? && after.value !in s.registry.connections)
  {
    var request := EffectiveRequest(s, h, message).value;
    R.ServeEchoes(s.cache, R.Call(request, message.uniqueId, message.nested, message.answer));
    if BoundSession(s.registry, h) != "" {
      InjectedNamesSession(message.payload.value, BoundSession(s.registry, h));
    }
  }

  lemma StepKeepsInv(s: ServerState, e: Event, kinds: Kinds)
    requires Inv(s, kinds) && Possible(s, e)
    ensures Inv(After(s, e, kinds), kinds)
  {
    match e {
      case Close(h) => CloseKeepsInv(s.registry, h, kinds);
      case Arrive(h, message) =>
        if EffectiveRequest(s, h, message).Ok? {
          var request := EffectiveRequest(s, h, message).value;
          R.ServeEchoes(s.cache, R.Call(request, message.uniqueId, message.nested, message.answer));
          var after := SessionAfter(ServedFor(s, request, message).response, BoundSession(s.registry, h));
          if after.Ok? { StoreKeepsInv(s.registry, s.live, h, after.value, kinds); }
        }
      case Open(_) =>
      case Expire(_) =>
      case Timeout(_) =>
    }
  }

  /** Storing a connection for another session, or the same one again, leaves a binding alone. */
  lemma StoreElsewhere(r: Registry, live: set<Handle>, g: Handle, secure: bool, named: string,
                       h: Handle, sessionId: string)
    requires Bijective(r) && g in live && h in r.reverse && r.reverse[h] == sessionId
    requires (g == h) == (named == sessionId)
    ensures var r' := Stored(r, live, g, secure, named);
            h in r'.reverse && r'.reverse[h] == sessionId
  {
    if named != "" { StoredIsRebound(r, live, g, secure, named); }
  }

  lemma ArriveIsSticky(s: ServerState, g: Handle, message: Message, kinds: Kinds, h: Handle, sessionId: string)
    requires Inv(s, kinds) && Possible(s, Arrive(g, message))
    requires sessionId != "" && Bound(s, h, sessionId) && !Releases(s, Arrive(g, message), h, sessionId)
    ensures Bound(AfterMessage(s, g, message, kinds(g)), h, sessionId)
  {
    if EffectiveRequest(s, g, message).Ok? {
      var request := EffectiveRequest(s, g, message).value;
      var after := SessionAfter(ServedFor(s, request, message).response, BoundSession(s.registry, g));
      MessageSession(s, g, message);
      if after.Ok? && after.value != "" {
        assert s.registry.connections[sessionId] == h;
        StoreElsewhere(s.registry, s.live, g, kinds(g), after.value, h, sessionId);
      }
    }
  }

  /** A bound connection keeps its session through every step but the three that release it. */
  lemma StepIsSticky(s: ServerState, e: Event, kinds: Kinds, h: Handle, sessionId: string)
    requires Inv(s, kinds) && Possible(s, e)
    requires sessionId != "" && Bound(s, h, sessionId) && !Releases(s, e, h, sessionId)
    ensures Bound(After(s, e, kinds), h, sessionId)
  {
    match e {
      case Close(g) => assert s.registry.connections[sessionId] == h;
      case Arrive(g, message) => ArriveIsSticky(s, g, message, kinds, h, sessionId);
      case Open(_) =>
      case Expire(_) =>
      case Timeout(_) =>
    }
  }

  /** A message that is answered with an error, or with a result that
      names no session, changes nothing in the registry. */
  lemma SilentAnswerChangesNothing(s: ServerState, h: Handle, message: Message, kinds: Kinds)
    requires Inv(s, kinds)
    requires EffectiveRequest(s, h, message).Ok?
    requires var response := ServedFor(s, EffectiveRequest(s, h, message).value, message).response;
             ObjectMember(response, "error").Some? || ResponseSession(response).None?
    ensures AfterMessage(s, h, message, kinds(h)).registry == s.registry
  {
    if h in s.registry.reverse {
      var bound := BoundSession(s.registry, h);
      assert bound in s.registry.connections && s.registry.connections[bound] == h;
      assert s.registry.secure[bound := kinds(h)] == s.registry.secure;
    }
  }

  /** A message whose payload does not parse changes nothing and is not answered. */
  lemma NoiseChangesNothing(s: ServerState, h: Handle, message: Message, secure: bool)
    requires message.payload.None?
    ensures AfterMessage(s, h, message, secure) == s && Answered(s, h, message) == None
  {}

  /** A response that is neither an object nor null ends in an exception: nothing is sent or bound. */
  lemma OddResponseUnanswered(s: ServerState, h: Handle, message: Message, secure: bool)
    requires EffectiveRequest(s, h, message).Ok?
    requires var response := ServedFor(s, EffectiveRequest(s, h, message).value, message).response;
             response != Null && !response.Obj?
    ensures Answered(s, h, message) == None && AfterMessage(s, h, message, secure).registry == s.registry
  {}

  /** A message on a connection without a session is handled as it came. */
  lemma UnboundIsNotInjected(s: ServerState, h: Handle, message: Message)
    requires h !in s.registry.reverse && message.payload.Some?
    ensures EffectiveRequest(s, h, message) == Ok(message.payload.value)
  {}

  /** A message answered with a session binds its connection to that session. */
  lemma AnswerBinds(s: ServerState, h: Handle, message: Message, kinds: Kinds, sessionId: string)
    requires Bijective(s.registry) && h in s.live && sessionId != ""
    requires EffectiveRequest(s, h, message).Ok?
    requires var response := ServedFor(s, EffectiveRequest(s, h, message).value, message).response;
             && response.Obj? && !Has(response.members, "error")
             && Has(response.members, "result") && Get(response.members, "result").Obj?
             && Has(Get(response.members, "result").members, "sessionId")
             && Get(Get(response.members, "result").members, "sessionId") == Str(sessionId)
    ensures var r := AfterMessage(s, h, message, kinds(h)).registry;
            && h in r.reverse && r.reverse[h] == sessionId
            && sessionId in r.connections && r.connections[sessionId] == h
            && sessionId in r.secure && r.secure[sessionId] == kinds(h)
    ensures Answered(s, h, message) == Some(ServedFor(s, EffectiveRequest(s, h, message).value, message).response)
  {
    StoreBinds(s.registry, s.live, h, kinds(h), sessionId, "", h + 1);
  }

  /** A client's first request names no session and is answered with a new one. Sent again on the same
      connection before its timer fires, it gets the same answer and nothing changes: its method is not
      run a second time. */
  lemma FirstRequestResent(s: ServerState, h: Handle, message: Message, kinds: Kinds, id: string, sessionId: string)
    requires Inv(s, kinds) && h in s.live && h !in s.registry.reverse && sessionId != ""
    requires message.payload.Some? && message.payload.value.Obj? && message.nested == []
    requires var ms := message.payload.value.members;
             && Has(ms, "id") && Get(ms, "id") == Str(id)
             && (Get(ms, "params").Obj? || Get(ms, "params").Null?) && RequestSession(Obj(ms)).None?
    requires message.answer.Obj? && !Has(message.answer.members, "error")
    requires ResponseSession(message.answer) == Some(sessionId)
    requires Get(message.answer.members, "result").Obj?
    requires Get(Get(message.answer.members, "result").members, "sessionId") == Str(sessionId)
    requires (sessionId, id) !in s.cache
    ensures var once := AfterMessage(s, h, message, kinds(h));
            && Bound(once, h, sessionId)
            && Answered(s, h, message) == Some(message.answer)
            && Answered(once, h, message) == Some(message.answer)
            && AfterMessage(once, h, message, kinds(h)) == once
            && EffectiveRequest(once, h, message).Ok?
            && ServedFor(once, EffectiveRequest(once, h, message).value, message).executed == []
  {
    var ms := message.payload.value.members;
    var once := AfterMessage(s, h, message, kinds(h));
    UnboundIsNotInjected(s, h, message);
    assert R.ServeAll(s.cache, []) == (s.cache, []);
    var first := ServedFor(s, Obj(ms), message);
    assert first.response == message.answer && first.cache == s.cache[(sessionId, id) := message.answer];
    AnswerBinds(s, h, message, kinds, sessionId);
    assert once.cache == first.cache && BoundSession(once.registry, h) == sessionId;
    InjectedKeepsRest(ms, sessionId, "id");
    InjectedNamesSession(Obj(ms), sessionId);
    var again := EffectiveRequest(once, h, message).value;
    assert R.LookupKey(again) == Some((sessionId, id));
    StoreKeepsInv(s.registry, s.live, h, sessionId, kinds);
    SameSessionStored(once.registry, once.live, h, kinds(h), sessionId);
  }

  lemma SameSessionStored(r: Registry, live: set<Handle>, h: Handle, secure: bool, sessionId: string)
    requires sessionId in r.connections && r.connections[sessionId] == h
    requires h in r.reverse && r.reverse[h] == sessionId
    requires sessionId in r.secure && r.secure[sessionId] == secure
    ensures Stored(r, live, h, secure, sessionId) == r
  {
    assert r.secure[sessionId := secure] == r.secure;
  }

  /** What the other events do. */
  lemma EventsInPlainTerms(s: ServerState, kinds: Kinds, h: Handle, key: (string, string))
    ensures After(s, Event.Open(h), kinds) == s.(live := s.live + {h})
    ensures After(s, Event.Expire(h), kinds) == s.(live := s.live - {h})
    ensures After(s, Timeout(key), kinds) == s.(cache := s.cache - {key})
    ensures var closed := After(s, Event.Close(h), kinds);
            closed.live == s.live && closed.cache == s.cache && h !in closed.registry.reverse
  {}

  ghost predicate Run(s: ServerState, events: seq<Event>, kinds: Kinds, end: ServerState)
    decreases events
  {
    if events == [] then end == s
    else Possible(s, events[0]) && Run(After(s, events[0], kinds), events[1..], kinds, end)
  }

  /** No event of the run releases the connection's session. */
  ghost predicate NeverReleased(s: ServerState, events: seq<Event>, kinds: Kinds, h: Handle, sessionId: string)
    decreases events
  {
    events != [] ==>
      !Releases(s, events[0], h, sessionId) &&
      NeverReleased(After(s, events[0], kinds), events[1..], kinds, h, sessionId)
  }

  /** Session binding is sticky over whole runs: a connection ends a run with the session it
      was bound to unless it named another, another connection claimed it, or it closed. */
  lemma {:induction false} BindingIsSticky(s: ServerState, events: seq<Event>, kinds: Kinds, end: ServerState,
                                           h: Handle, sessionId: string)
    requires Inv(s, kinds) && Run(s, events, kinds, end)
    requires sessionId != "" && Bound(s, h, sessionId)
    requires NeverReleased(s, events, kinds, h, sessionId)
    ensures Inv(end, kinds) && Bound(end, h, sessionId)
    decreases events
  {
    if events == [] {
    } else {
      StepKeepsInv(s, events[0], kinds);
      StepIsSticky(s, events[0], kinds, h, sessionId);
      BindingIsSticky(After(s, events[0], kinds), events[1..], kinds, end, h, sessionId);
    }
  }

  const EMPTY_STATE := ServerState(EMPTY_REGISTRY, {}, map[])

  lemma {:induction false} RunKeepsInv(s: ServerState, events: seq<Event>, kinds: Kinds, end: ServerState)
    requires Inv(s, kinds) && Run(s, events, kinds, end)
    ensures Inv(end, kinds)
    decreases events
  {
    if events == [] {
    } else {
      StepKeepsInv(s, events[0], kinds);
      RunKeepsInv(After(s, events[0], kinds), events[1..], kinds, end);
    }
  }

  /** From the start: a connection that has a session at some point of a run has it at the end,
      unless it is released in between, and it is the one the session's messages go to. */
  lemma {:induction false} BoundFromThenOn(before: seq<Event>, after: seq<Event>, kinds: Kinds, midway: ServerState,
                                           end: ServerState, h: Handle, sessionId: string)
    requires Run(EMPTY_STATE, before, kinds, midway) && Run(midway, after, kinds, end)
    requires sessionId != "" && Bound(midway, h, sessionId)
    requires NeverReleased(midway, after, kinds, h, sessionId)
    ensures Bound(end, h, sessionId)
    ensures sessionId in end.registry.connections && end.registry.connections[sessionId] == h
    ensures sessionId in end.registry.secure && end.registry.secure[sessionId] == kinds(h)
  {
    EmptyInv(kinds);
    RunKeepsInv(EMPTY_STATE, before, kinds, midway);
    BindingIsSticky(midway, after, kinds, end, h, sessionId);
  }
}
