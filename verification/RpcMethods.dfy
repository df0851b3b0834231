/** The remote procedures: which session each of them reports back. */
module RpcMethods {
  import opened JsonValues
  import opened Options

  datatype Method =
    | Connect | Create | Invoke | Subscribe | Unsubscribe | Release | Ref | Unref
    | KeepAlive | Describe | RunTransaction | Ping | CloseSession

  /** What a call meets outside this model: a fresh identifier, whether the media layer refuses,
      and the members other than the session that a successful call puts in its result. */
  datatype World = World(newId: string, refuses: bool, results: seq<Member>)

  function RequireParams(params: Json): Result<Json> {
    if params == Null then Fail(InvalidParams) else Ok(params)
  }

  function RequireString(params: Json, key: string): Result<string> {
    match StringMember(params, key) case Some(s) => Ok(s) case None => Fail(InvalidParams)
  }

  function GetOrCreateSessionId(params: Json, newId: string): string {
    StringMember(params, "sessionId").GetOr(newId)
  }

  function Media(world: World): Result<seq<Member>> {
    if world.refuses then Fail(MediaFailure) else Ok(world.results)
  }

  function WithSessionId(results: seq<Member>, sessionId: string): Json {
    Obj(Put(results, "sessionId", Str(sessionId)))
  }

  /** The result member of the response, or the error that takes its place. */
  function Call(m: Method, params: Json, world: World): Result<Json> {
    match m
    case Connect =>
      if params == Null then Ok(WithSessionId(world.results, world.newId))
      else if StringMember(params, "sessionId").Some? then
        var results :- Media(world);
        Ok(WithSessionId(results, StringMember(params, "sessionId").value))
      else Ok(WithSessionId(world.results, world.newId))
    case Create =>
      var _ :- RequireParams(params);
      var _ :- RequireString(params, "type");
      var results :- Media(world);
      Ok(WithSessionId(results, GetOrCreateSessionId(params, world.newId)))
    case Invoke =>
      var _ :- RequireParams(params);
      var _ :- RequireString(params, "operation");
      var _ :- RequireString(params, "object");
      var results :- Media(world);
      Ok(WithSessionId(results, GetOrCreateSessionId(params, world.newId)))
    case Subscribe =>
      var _ :- RequireParams(params);
      var _ :- RequireString(params, "type");
      var _ :- RequireString(params, "object");
      var results :- Media(world);
      Ok(WithSessionId(results, GetOrCreateSessionId(params, world.newId)))
    case Unsubscribe =>
      var _ :- RequireParams(params);
      var _ :- RequireString(params, "object");
      var _ :- RequireString(params, "subscription");
      var sessionId :- RequireString(params, "sessionId");
      Ok(WithSessionId([], sessionId))
    case Release =>
      var _ :- RequireParams(params);
      var _ :- RequireString(params, "object");
      var _ :- Media(world);
      Ok(WithSessionId([], GetOrCreateSessionId(params, world.newId)))
    case Ref =>
      var _ :- RequireParams(params);
      var _ :- RequireString(params, "object");
      var sessionId :- RequireString(params, "sessionId");
      var _ :- Media(world);
      Ok(WithSessionId([], sessionId))
    case Unref =>
      var _ :- RequireParams(params);
      var _ :- RequireString(params, "object");
      var sessionId :- RequireString(params, "sessionId");
      var _ :- Media(world);
      Ok(WithSessionId([], sessionId))
    case KeepAlive =>
      var _ :- RequireParams(params);
      var sessionId :- RequireString(params, "sessionId");
      var _ :- Media(world);
      Ok(WithSessionId([], sessionId))
    case Describe =>
      var _ :- RequireParams(params);
      var _ :- RequireString(params, "object");
      var results :- Media(world);
      Ok(WithSessionId(results, GetOrCreateSessionId(params, world.newId)))
    case RunTransaction =>
      var _ :- RequireParams(params);
      var results :- Media(world);
      Ok(WithSessionId(results, GetOrCreateSessionId(params, world.newId)))
    case Ping =>
      var session := match StringMember(params, "sessionId")
        case Some(sessionId) => Put([], "sessionId", Str(sessionId))
        case None => [];
      Ok(Obj(Put(session, "value", Str("pong"))))
    case CloseSession =>
      var _ :- RequireParams(params);
      var _ :- RequireString(params, "sessionId");
      Ok(Null)
  }

  // ---------- Which calls succeed, and with which session ----------

  /** The members a method cannot do without. */
  function Needs(m: Method): set<string> {
    match m
    case Connect => {}
    case Create => {"type"}
    case Invoke => {"object", "operation"}
    case Subscribe => {"object", "type"}
    case Unsubscribe => {"object", "sessionId", "subscription"}
    case Release => {"object"}
    case Ref => {"object", "sessionId"}
    case Unref => {"object", "sessionId"}
    case KeepAlive => {"sessionId"}
    case Describe => {"object"}
    case RunTransaction => {}
    case Ping => {}
    case CloseSession => {"sessionId"}
  }

  /** A call fails for want of parameters, which only connecting and pinging can do without, or of one
      of the members it needs, or because the media layer refuses. */
  lemma CallFailsExactly(m: Method, params: Json, world: World)
    ensures Call(m, params, world).Fail? <==>
            || (params == Null && m !in {Connect, Ping})
            || (exists key :: key in Needs(m) && StringMember(params, key).None?)
            || (world.refuses && m !in {Unsubscribe, Ping, CloseSession} &&
                (m == Connect ==> StringMember(params, "sessionId").Some?))
  {
    assert StringMember(Null, "sessionId").None?;
    hide StringMember, Put;
    if !exists key :: key in Needs(m) && StringMember(params, key).None? {
      assert forall key :: key in Needs(m) ==> StringMember(params, key).Some?;
      var all := {"type", "object", "operation", "subscription", "sessionId"};
      assert forall key :: key in all && key in Needs(m) ==> StringMember(params, key).Some?;
    }
  }

  /** Without a session, those methods that do not need one report the one made up for them, but for
      pinging, which reports none. */
  lemma CallMintsSession(m: Method, params: Json, world: World)
    requires StringMember(params, "sessionId").None? && Call(m, params, world).Ok?
    ensures m in {Connect, Create, Invoke, Subscribe, Release, Describe, RunTransaction, Ping}
    ensures StringMember(Call(m, params, world).value, "sessionId") ==
            if m == Ping then None else Some(world.newId)
  {
    var sessionId := Str(world.newId);
    PutThenGet(world.results, "sessionId", sessionId, "sessionId");
    PutThenGet([], "sessionId", sessionId, "sessionId");
    PutThenGet([], "value", Str("pong"), "sessionId");
  }

  /** What a method puts in its result is there, next to the session. */
  lemma {:induction false} CallKeepsResults(m: Method, params: Json, world: World, key: string)
    requires Call(m, params, world).Ok? && key != "sessionId"
    requires m in {Connect, Create, Invoke, Subscribe, Describe, RunTransaction}
    ensures var result := Call(m, params, world).value;
            result.Obj? && Get(result.members, key) == Get(world.results, key)
  {
    PutThenGet(world.results, "sessionId", Str(world.newId), key);
    PutThenGet(world.results, "sessionId", Str(StringMember(params, "sessionId").GetOr("")), key);
  }

  lemma PingAnswersPong(params: Json, world: World)
    ensures Call(Ping, params, world).Ok? && StringMember(Call(Ping, params, world).value, "value") == Some("pong")
  {
    var session := match StringMember(params, "sessionId")
      case Some(sessionId) => Put([], "sessionId", Str(sessionId))
      case None => [];
    PutThenGet(session, "value", Str("pong"), "value");
  }

  // ---------- Requests and responses ----------

  /** The session a request names in its parameters. */
  function RequestSession(request: Json): Option<string> {
    match ObjectMember(request, "params")
    case Some(params) => StringMember(params, "sessionId")
    case None => None
  }

  /** The session a response names in its result. */
  function ResponseSession(response: Json): Option<string> {
    match ObjectMember(response, "result")
    case Some(result) => StringMember(result, "sessionId")
    case None => None
  }

  /** A response names the session of its request or none at all. */
  predicate Echoes(request: Json, response: Json) {
    RequestSession(request).Some? && ResponseSession(response).Some? ==>
      ResponseSession(response) == RequestSession(request)
  }

  /** The response wraps what some remote procedure made of the request. */
  ghost predicate Answers(request: Json, response: Json) {
    && response.Obj?
    && (Has(response.members, "result") ==>
          exists m, world, params ::
            && ObjectMember(request, "params").GetOr(Null) == params
            && Call(m, params, world) == Ok(Get(response.members, "result")))
  }

  /** Called with a session, every method that succeeds reports that session back, but for the
      one that closes it, which reports none. */
  lemma CallEchoes(m: Method, params: Json, world: World)
    requires StringMember(params, "sessionId").Some? && Call(m, params, world).Ok?
    ensures StringMember(Call(m, params, world).value, "sessionId") ==
            if m == CloseSession then None else StringMember(params, "sessionId")
  {
    var sessionId := Str(StringMember(params, "sessionId").value);
    PutThenGet(world.results, "sessionId", sessionId, "sessionId");
    PutThenGet([], "sessionId", sessionId, "sessionId");
    PutThenGet(Put([], "sessionId", sessionId), "value", Str("pong"), "sessionId");
  }

  /** The echo lemma: no response ever names another session than its request's. */
  lemma EveryMethodEchoes(request: Json, response: Json)
    requires Answers(request, response)
    ensures Echoes(request, response)
  {
    if ResponseSession(response).Some? && RequestSession(request).Some? {
      var m, world, params :|
        && ObjectMember(request, "params").GetOr(Null) == params
        && Call(m, params, world) == Ok(Get(response.members, "result"));
      CallEchoes(m, params, world);
    }
  }

  /** Where a request and a response name a session. */
  lemma {:induction false} SessionsInPlainTerms(ms: seq<Member>, ps: seq<Member>, sessionId: string)
    requires Has(ps, "sessionId") && Get(ps, "sessionId") == Str(sessionId)
    ensures Has(ms, "params") && Get(ms, "params") == Obj(ps) ==> RequestSession(Obj(ms)) == Some(sessionId)
    ensures Has(ms, "result") && Get(ms, "result") == Obj(ps) ==> ResponseSession(Obj(ms)) == Some(sessionId)
  {}

  lemma {:induction false} NoSessionInPlainTerms(ms: seq<Member>)
    ensures (!Has(ms, "params") || (Get(ms, "params").Obj? && !Has(Get(ms, "params").members, "sessionId"))) ==>
              RequestSession(Obj(ms)).None?
    ensures (!Has(ms, "result") || (Get(ms, "result").Obj? && !Has(Get(ms, "result").members, "sessionId"))) ==>
              ResponseSession(Obj(ms)).None?
  {}
}
