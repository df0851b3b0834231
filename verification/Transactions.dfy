/** Transactions: a batch of operations run in order on the server, later ones referring to
the results of earlier ones. */
module Transactions {
  import opened JsonValues
  import opened Options
  import opened References
  import opened Text

  /** What the request handler makes of one request: the server's next state, the members of
      the response object, and whether the request succeeded. */
  datatype Answer<S> = Answer(state: S, fields: seq<Member>, success: bool)

  datatype Exchange<S> = Exchange(request: Json, answer: Answer<S>)

  datatype Reply = Completed(members: seq<Member>) | Thrown(error: Error)

  // ---------- Identifiers ----------

  function SubId(uniqueId: string, i: nat): string {
    uniqueId + ['_'] + Decimal(i)
  }

  /** No two operations of any two transactions share an id. */
  lemma SubIdInjective(u: string, i: nat, v: string, j: nat)
    requires '_' !in u && '_' !in v
    requires SubId(u, i) == SubId(v, j)
    ensures u == v && i == j
  {
    CutOnce(u, Decimal(i), v, Decimal(j), '_');
    DecimalInjective(i, j);
  }

  // ---------- One operation ----------

  /** The operation with its session and a fresh id filled in, before references are looked at;
      fails when the operation's own id is not its position. */
  function Prepare(operation: Json, i: nat, sessionId: string, uniqueId: string): Result<(seq<Member>, seq<Member>)> {
    if !operation.Obj? && operation != Null then Fail(Uncaught)
    else
      var fields := if operation.Obj? then operation.members else [];
      var params := Get(fields, "params");
      if !params.Obj? && params != Null then Fail(Uncaught)
      else
        var withSession := Put(if params.Obj? then params.members else [], "sessionId", Str(sessionId));
        var id := Get(fields, "id");
        if !ConvertibleToUInt(id) || AsUInt(id) != i then Fail(MalformedTransaction)
        else Ok((Put(fields, "id", Str(SubId(uniqueId, i))), withSession))
  }

  /** The request the server runs for the i-th operation, given the responses so far. */
  function ServerRequest(operation: Json, i: nat, sessionId: string, uniqueId: string,
                         responses: seq<Json>): Result<Json>
  {
    var prepared :- Prepare(operation, i, sessionId, uniqueId);
    var params :- Inject(Obj(prepared.1), responses);
    Ok(Obj(Put(prepared.0, "params", params)))
  }

  /** It carries the transaction's id and its own position. */
  lemma RequestIsNumbered(operation: Json, i: nat, sessionId: string, uniqueId: string, responses: seq<Json>)
    requires ServerRequest(operation, i, sessionId, uniqueId, responses).Ok?
    ensures var request := ServerRequest(operation, i, sessionId, uniqueId, responses).value;
            StringMember(request, "id") == Some(SubId(uniqueId, i))
  {
    var fields := if operation.Obj? then operation.members else [];
    var numbered := Put(fields, "id", Str(SubId(uniqueId, i)));
    var params := Inject(Obj(Prepare(operation, i, sessionId, uniqueId).value.1), responses).value;
    PutThenGet(fields, "id", Str(SubId(uniqueId, i)), "id");
    PutThenGet(numbered, "params", params, "id");
  }

  /** A response as the transaction keeps it: with the operation's position as its id. */
  function Kept<S>(answer: Answer<S>, i: nat): Json {
    Obj(Put(answer.fields, "id", Int(i)))
  }

  function Responses<S>(trace: seq<Exchange<S>>): seq<Json> {
    seq(|trace|, i requires 0 <= i < |trace| => Kept(trace[i].answer, i))
  }

  function StateAfter<S>(start: S, trace: seq<Exchange<S>>): S {
    if trace == [] then start else trace[|trace| - 1].answer.state
  }

  /** A run of the server over a list of operations: each request is built from the responses
      before it, handled in the state the one before left, and only the last may have failed. */
  ghost predicate ServerRun<S>(handle: (S, Json) -> Answer<S>, start: S, operations: seq<Json>,
                               sessionId: string, uniqueId: string, trace: seq<Exchange<S>>)
  {
    |trace| <= |operations| &&
    forall i :: 0 <= i < |trace| ==>
      && ServerRequest(operations[i], i, sessionId, uniqueId, Responses(trace[..i])) == Ok(trace[i].request)
      && trace[i].answer == handle(StateAfter(start, trace[..i]), trace[i].request)
      && (i + 1 < |trace| ==> trace[i].answer.success)
  }

  ghost predicate Halted<S>(operations: seq<Json>, trace: seq<Exchange<S>>) {
    |trace| == |operations| || (trace != [] && !trace[|trace| - 1].answer.success)
  }

  // ---------- A client that sends the operations one at a time ----------

  /** The members other than the session id with every reference replaced by the value of an
      earlier reply; the session id is not looked at. */
  function SubstituteOthers(ms: seq<Member>, sessionId: string, replies: seq<Json>): Result<seq<Member>> {
    if ms == [] then Ok([])
    else
      var first :- if ms[0] == Member("sessionId", Str(sessionId)) then Ok(ms[0].value)
                   else Inject(ms[0].value, replies);
      var rest :- SubstituteOthers(ms[1..], sessionId, replies);
      Ok([Member(ms[0].key, first)] + rest)
  }

  function ClientRequest(operation: Json, i: nat, sessionId: string, uniqueId: string,
                         replies: seq<Json>): Result<Json>
  {
    var prepared :- Prepare(operation, i, sessionId, uniqueId);
    var members :- SubstituteOthers(prepared.1, sessionId, replies);
    Ok(Obj(Put(prepared.0, "params", Obj(members))))
  }

  /** Sends the operations from the i-th on, each on its own, keeping every reply as it came;
      stops after the first reply that failed, or when an operation cannot be sent. */
  function Client<S>(handle: (S, Json) -> Answer<S>, state: S, operations: seq<Json>, i: nat,
                     sessionId: string, uniqueId: string, replies: seq<Json>)
    : (seq<Exchange<S>>, Option<Error>)
    requires i <= |operations|
    decreases |operations| - i
  {
    if i == |operations| then ([], None)
    else match ClientRequest(operations[i], i, sessionId, uniqueId, replies)
      case Fail(error) => ([], Some(error))
      case Ok(request) =>
        var answer := handle(state, request);
        var exchange := Exchange(request, answer);
        if !answer.success then ([exchange], None)
        else
          var rest := Client(handle, answer.state, operations, i + 1, sessionId, uniqueId,
                             replies + [Obj(answer.fields)]);
          ([exchange] + rest.0, rest.1)
  }

  lemma {:induction false} SubstituteOthersIsInject(ms: seq<Member>, sessionId: string, replies: seq<Json>)
    requires !IsReference(Str(sessionId))
    ensures SubstituteOthers(ms, sessionId, replies) == InjectMembers(ms, replies)
  {
    if ms == [] {
    } else {
      SubstituteOthersIsInject(ms[1..], sessionId, replies);
    }
  }

  function Replies<S>(trace: seq<Exchange<S>>): seq<Json> {
    seq(|trace|, i requires 0 <= i < |trace| => Obj(trace[i].answer.fields))
  }

  lemma RequestsAgree<S>(operation: Json, i: nat, sessionId: string, uniqueId: string, trace: seq<Exchange<S>>)
    requires !IsReference(Str(sessionId))
    ensures ClientRequest(operation, i, sessionId, uniqueId, Replies(trace)) ==
            ServerRequest(operation, i, sessionId, uniqueId, Responses(trace))
  {
    forall k | 0 <= k < |trace| ensures ResultValue(Replies(trace)[k]) == ResultValue(Responses(trace)[k]) {
      PutThenGet(trace[k].answer.fields, "id", Int(k), "result");
    }
    var prepared := Prepare(operation, i, sessionId, uniqueId);
    if prepared.Ok? {
      SubstituteOthersIsInject(prepared.value.1, sessionId, Replies(trace));
      InjectMembersSeesOnlyValues(prepared.value.1, Replies(trace), Responses(trace));
    }
  }

  /** How a run is over: it halted, or its next operation cannot be made into a request. */
  ghost predicate Ended<S>(operations: seq<Json>, sessionId: string, uniqueId: string,
                           trace: seq<Exchange<S>>, outcome: Option<Error>)
  {
    match outcome
    case None => Halted(operations, trace)
    case Some(error) =>
      && |trace| < |operations| && !Halted(operations, trace)
      && ServerRequest(operations[|trace|], |trace|, sessionId, uniqueId, Responses(trace)) == Fail(error)
  }

  /** The refinement: a run that is over is what the client sees when it sends the same
      operations on its own, from any point of the run on. */
  lemma {:induction false} RunIsClient<S>(handle: (S, Json) -> Answer<S>, start: S, operations: seq<Json>,
                                          sessionId: string, uniqueId: string, trace: seq<Exchange<S>>,
                                          outcome: Option<Error>, k: nat)
    requires !IsReference(Str(sessionId))
    requires ServerRun(handle, start, operations, sessionId, uniqueId, trace)
    requires Ended(operations, sessionId, uniqueId, trace, outcome)
    requires k <= |trace| && (k > 0 && k == |trace| ==> trace[k - 1].answer.success || k == |operations|)
    ensures Client(handle, StateAfter(start, trace[..k]), operations, k, sessionId, uniqueId, Replies(trace[..k])) ==
            (trace[k..], outcome)
    decreases |trace| - k
  {
    var state, replies := StateAfter(start, trace[..k]), Replies(trace[..k]);
    if k == |trace| {
      assert trace[..k] == trace && trace[k..] == [];
      if k < |operations| { RequestsAgree(operations[k], k, sessionId, uniqueId, trace); }
    } else {
      RequestsAgree(operations[k], k, sessionId, uniqueId, trace[..k]);
      assert ClientRequest(operations[k], k, sessionId, uniqueId, replies) == Ok(trace[k].request);
      assert trace[k].answer == handle(state, trace[k].request);
      OneExchange(trace, k);
      if trace[k].answer.success {
        assert StateAfter(start, trace[..k + 1]) == trace[k].answer.state;
        RunIsClient(handle, start, operations, sessionId, uniqueId, trace, outcome, k + 1);
        assert Client(handle, state, operations, k, sessionId, uniqueId, replies) ==
               ([trace[k]] + trace[k + 1..], outcome);
      } else {
        assert trace[k..] == [trace[k]] && Halted(operations, trace) && outcome.None?;
      }
    }
  }

  lemma OneExchange<S>(trace: seq<Exchange<S>>, k: nat)
    requires k < |trace|
    ensures Replies(trace[..k + 1]) == Replies(trace[..k]) + [Obj(trace[k].answer.fields)]
    ensures trace[k..] == [trace[k]] + trace[k + 1..]
  {}

  lemma {:induction false} RunIsClientThroughout<S>(handle: (S, Json) -> Answer<S>, start: S, operations: seq<Json>,
                                                    sessionId: string, uniqueId: string, trace: seq<Exchange<S>>,
                                                    outcome: Option<Error>)
    requires ServerRun(handle, start, operations, sessionId, uniqueId, trace)
    requires Ended(operations, sessionId, uniqueId, trace, outcome)
    ensures !IsReference(Str(sessionId)) ==>
              Client(handle, start, operations, 0, sessionId, uniqueId, []) == (trace, outcome)
  {
    if !IsReference(Str(sessionId)) {
      RunIsClient(handle, start, operations, sessionId, uniqueId, trace, outcome, 0);
      assert trace[..0] == [] && trace[0..] == trace && Replies(trace[..0]) == [];
    }
  }

  /** A session id that is itself a reference is looked up before there is any response, so such
      a transaction runs nothing at all, whatever its operations are. */
  lemma ReferenceSessionRunsNothing<S>(handle: (S, Json) -> Answer<S>, start: S, operations: seq<Json>,
                                       sessionId: string, uniqueId: string, trace: seq<Exchange<S>>)
    requires IsReference(Str(sessionId))
    requires ServerRun(handle, start, operations, sessionId, uniqueId, trace)
    ensures trace == []
  {
    if trace != [] {
      assert Responses(trace[..0]) == [];
      FirstRequestFails(operations[0], sessionId, uniqueId);
    }
  }

  lemma FirstRequestFails(operation: Json, sessionId: string, uniqueId: string)
    requires IsReference(Str(sessionId))
    ensures ServerRequest(operation, 0, sessionId, uniqueId, []).Fail?
  {
    var prepared := Prepare(operation, 0, sessionId, uniqueId);
    if prepared.Ok? {
      var ms := prepared.value.1;
      var params := Get(if operation.Obj? then operation.members else [], "params");
      PutIsThere(if params.Obj? then params.members else [], "sessionId", Str(sessionId));
      var i :| 0 <= i < |ms| && ms[i] == Member("sessionId", Str(sessionId));
      ResolvesBackwards(IndexText(ms[i].value), []);
      MembersPointwise(ms, []);
    }
  }

  /** The reference met first among the members that are not the session id. */
  function FirstOfOthers(ms: seq<Member>, sessionId: string): Option<string> {
    if ms == [] then None
    else if ms[0] == Member("sessionId", Str(sessionId)) then FirstOfOthers(ms[1..], sessionId)
    else
      var first := FirstReference(ms[0].value);
      if first.Some? then first else FirstOfOthers(ms[1..], sessionId)
  }

  lemma {:induction false} BareOthers(ms: seq<Member>, sessionId: string)
    ensures SubstituteOthers(ms, sessionId, []) ==
            var first := FirstOfOthers(ms, sessionId);
            if first.Some? then Fail(BareError(first.value)) else Ok(ms)
  {
    if ms == [] {
    } else {
      BareInjection(ms[0].value);
      BareOthers(ms[1..], sessionId);
      assert ms == [Member(ms[0].key, ms[0].value)] + ms[1..];
    }
  }

  /** Both turn the first operation down alike: its id or its shape is wrong, or another of its
      parameters holds a reference that is as wrong as the first one the server meets. */
  predicate TurnedDownAlike(operation: Json, sessionId: string, uniqueId: string) {
    var prepared := Prepare(operation, 0, sessionId, uniqueId);
    || prepared.Fail?
    || (var first, other := FirstOfMembers(prepared.value.1), FirstOfOthers(prepared.value.1, sessionId);
        first.Some? && other.Some? && BareError(first.value) == BareError(other.value))
  }

  lemma TurnedDownExactly(operation: Json, sessionId: string, uniqueId: string)
    requires IsReference(Str(sessionId))
    ensures ClientRequest(operation, 0, sessionId, uniqueId, []) ==
            ServerRequest(operation, 0, sessionId, uniqueId, []) <==>
            TurnedDownAlike(operation, sessionId, uniqueId)
  {
    FirstRequestFails(operation, sessionId, uniqueId);
    var prepared := Prepare(operation, 0, sessionId, uniqueId);
    if prepared.Ok? {
      BareMembers(prepared.value.1);
      BareOthers(prepared.value.1, sessionId);
    }
  }

  /** The run is what the client sees unless the session id is a reference, which the server resolves
      and the client does not, and the first operation is not turned down by both alike. */
  predicate AgreesWithClient(operations: seq<Json>, sessionId: string, uniqueId: string) {
    || !IsReference(Str(sessionId))
    || operations == []
    || TurnedDownAlike(operations[0], sessionId, uniqueId)
  }

  /** Exactly when a run is what the client sees. */
  lemma {:induction false} RunIsClientExactly<S>(handle: (S, Json) -> Answer<S>, start: S, operations: seq<Json>,
                                                 sessionId: string, uniqueId: string, trace: seq<Exchange<S>>,
                                                 outcome: Option<Error>)
    requires ServerRun(handle, start, operations, sessionId, uniqueId, trace)
    requires Ended(operations, sessionId, uniqueId, trace, outcome)
    ensures Client(handle, start, operations, 0, sessionId, uniqueId, []) == (trace, outcome) <==>
            AgreesWithClient(operations, sessionId, uniqueId)
  {
    if !IsReference(Str(sessionId)) {
      RunIsClientThroughout(handle, start, operations, sessionId, uniqueId, trace, outcome);
    } else {
      ReferenceSessionRunsNothing(handle, start, operations, sessionId, uniqueId, trace);
      if operations != [] {
        assert Responses(trace) == [];
        FirstRequestFails(operations[0], sessionId, uniqueId);
        TurnedDownExactly(operations[0], sessionId, uniqueId);
      }
    }
  }

  /** An operation without parameters: the client sends it, and the server has no response to take
      the session from. */
  lemma ReferenceSessionDisagrees(uniqueId: string)
    ensures !AgreesWithClient([Obj([Member("id", Int(0))])], "newref:0", uniqueId)
  {
    var sessionId, fields := "newref:0", [Member("id", Int(0))];
    assert fields[1..] == [];
    var ms := [Member("sessionId", Str(sessionId))];
    assert ms[1..] == [];
    assert Get(fields, "params") == Null && Get(fields, "id") == Int(0);
    assert Prepare(Obj(fields), 0, sessionId, uniqueId).value.1 == ms;
    assert FirstOfOthers(ms, sessionId) == None;
    assert sessionId[..|NEW_REF|] == NEW_REF;
  }

  // ---------- The loop ----------

  method Transaction<S>(handle: (S, Json) -> Answer<S>, start: S, params: Json,
                        freshSession: string, uniqueId: string)
    returns (state: S, reply: Reply, ghost trace: seq<Exchange<S>>)
    ensures (!params.Obj? || ObjectMember(params, "operations").None? || !Get(params.members, "operations").Arr?) ==>
              reply == Thrown(InvalidParams) && state == start
    ensures params.Obj? && ObjectMember(params, "operations").Some? && Get(params.members, "operations").Arr? ==>
              var operations := Get(params.members, "operations").items;
              var sessionId := StringMember(params, "sessionId").GetOr(freshSession);
              && ServerRun(handle, start, operations, sessionId, uniqueId, trace)
              && Ended(operations, sessionId, uniqueId, trace, if reply.Completed? then None else Some(reply.error))
              && (Client(handle, start, operations, 0, sessionId, uniqueId, []) ==
                  (trace, if reply.Completed? then None else Some(reply.error)) <==>
                  AgreesWithClient(operations, sessionId, uniqueId))
              && state == StateAfter(start, trace)
              && (reply.Completed? ==>
                    reply.members == Put(Put([], "value", Arr(Responses(trace))), "sessionId", Str(sessionId)))
  {
    hide Client, AgreesWithClient, Prepare, Inject, Put;
    state, trace := start, [];
    if !params.Obj? { reply := Thrown(InvalidParams); return; }
    var sessionId := StringMember(params, "sessionId").GetOr(freshSession);
    var found := ObjectMember(params, "operations");
    if found.None? || !found.value.Arr? { reply := Thrown(InvalidParams); return; }
    var operations := found.value.items;
    var responses: seq<Json> := [];
    var i := 0;
    while i < |operations|
      invariant i == |trace| <= |operations|
      invariant responses == Responses(trace)
      invariant state == StateAfter(start, trace)
      invariant ServerRun(handle, start, operations, sessionId, uniqueId, trace)
      invariant i > 0 ==> trace[i - 1].answer.success
    {
      var prepared := Prepare(operations[i], i, sessionId, uniqueId);
      if prepared.Fail? {
        RunIsClientExactly(handle, start, operations, sessionId, uniqueId, trace, Some(prepared.error));
        reply := Thrown(prepared.error);
        return;
      }
      var injected := InjectRefs(Obj(prepared.value.1), responses);
      if injected.Fail? {
        RunIsClientExactly(handle, start, operations, sessionId, uniqueId, trace, Some(injected.error));
        reply := Thrown(injected.error);
        return;
      }
      var request := Obj(Put(prepared.value.0, "params", injected.value));
      var answer := handle(state, request);
      ExtendRun(handle, start, operations, sessionId, uniqueId, trace, request);
      state := answer.state;
      responses := responses + [Kept(answer, i)];
      trace := trace + [Exchange(request, answer)];
      i := i + 1;
      if !answer.success { break; }
    }
    RunIsClientExactly(handle, start, operations, sessionId, uniqueId, trace, None);
    reply := Completed(Put(Put([], "value", Arr(responses)), "sessionId", Str(sessionId)));
  }

  lemma ExtendRun<S>(handle: (S, Json) -> Answer<S>, start: S, operations: seq<Json>, sessionId: string,
                     uniqueId: string, trace: seq<Exchange<S>>, request: Json)
    requires ServerRun(handle, start, operations, sessionId, uniqueId, trace)
    requires |trace| < |operations| && (trace != [] ==> trace[|trace| - 1].answer.success)
    requires ServerRequest(operations[|trace|], |trace|, sessionId, uniqueId, Responses(trace)) == Ok(request)
    ensures var exchange := Exchange(request, handle(StateAfter(start, trace), request));
            && ServerRun(handle, start, operations, sessionId, uniqueId, trace + [exchange])
            && Responses(trace + [exchange]) == Responses(trace) + [Kept(exchange.answer, |trace|)]
  {
    hide ServerRequest, StateAfter, Kept;
    var longer := trace + [Exchange(request, handle(StateAfter(start, trace), request))];
    assert Responses(longer) == Responses(trace) + [Kept(longer[|trace|].answer, |trace|)];
    assert longer[..|trace|] == trace;
    forall i | 0 <= i < |trace| ensures longer[i] == trace[i] && longer[..i] == trace[..i] {}
  }

  // ---------- What is sent, read off the operation ----------

  function MembersOf(j: Json): seq<Member> {
    if j.Obj? then j.members else []
  }

  /** The request made from an operation carries everything the operation does: its own members but
      for the id, and its own parameters with their references replaced, next to the session. */
  lemma {:induction false} RequestCarriesOperation(operation: Json, i: nat, sessionId: string, uniqueId: string,
                                                   responses: seq<Json>, key: string)
    requires ServerRequest(operation, i, sessionId, uniqueId, responses).Ok?
    ensures var request := ServerRequest(operation, i, sessionId, uniqueId, responses).value;
            var own, sent := MembersOf(Get(MembersOf(operation), "params")), Get(MembersOf(request), "params");
            && request.Obj? && sent.Obj?
            && (key !in {"id", "params"} ==>
                  Get(request.members, key) == Get(MembersOf(operation), key) &&
                  (Has(request.members, key) <==> Has(MembersOf(operation), key)))
            && Get(request.members, "id") == Str(uniqueId + "_" + Decimal(i))
            && (key != "sessionId" ==>
                  && (Has(sent.members, key) <==> Has(own, key))
                  && (Has(own, key) ==> Inject(Get(own, key), responses) == Ok(Get(sent.members, key))))
            && (!("newref:" < sessionId) ==> Get(sent.members, "sessionId") == Str(sessionId))
  {
    hide Inject, Decimal;
    var fields := MembersOf(operation);
    var own := MembersOf(Get(fields, "params"));
    var withSession := Put(own, "sessionId", Str(sessionId));
    var numbered := Put(fields, "id", Str(SubId(uniqueId, i)));
    var params := Inject(Obj(withSession), responses).value;
    PutThenGet(own, "sessionId", Str(sessionId), key);
    PutThenGet(own, "sessionId", Str(sessionId), "sessionId");
    PutThenGet(fields, "id", Str(SubId(uniqueId, i)), key);
    PutThenGet(fields, "id", Str(SubId(uniqueId, i)), "id");
    PutThenGet(numbered, "params", params, key);
    PutThenGet(numbered, "params", params, "id");
    PutThenGet(numbered, "params", params, "params");
    MembersInjected(withSession, responses, key);
    MembersInjected(withSession, responses, "sessionId");
    if !("newref:" < sessionId) { OtherStringsStay(sessionId, responses); }
  }

  /** Every request of a run carries its operation, with references to the results before it. */
  lemma {:induction false} StepCarriesOperation<S>(handle: (S, Json) -> Answer<S>, start: S, operations: seq<Json>,
                                                   sessionId: string, uniqueId: string, trace: seq<Exchange<S>>,
                                                   i: nat, key: string)
    requires ServerRun(handle, start, operations, sessionId, uniqueId, trace) && i < |trace|
    ensures var operation, request := operations[i], trace[i].request;
            var own, sent := MembersOf(Get(MembersOf(operation), "params")), Get(MembersOf(request), "params");
            && request.Obj? && sent.Obj?
            && (key !in {"id", "params"} ==>
                  Get(request.members, key) == Get(MembersOf(operation), key) &&
                  (Has(request.members, key) <==> Has(MembersOf(operation), key)))
            && (key != "sessionId" ==>
                  && (Has(sent.members, key) <==> Has(own, key))
                  && (Has(own, key) ==> Inject(Get(own, key), Responses(trace[..i])) == Ok(Get(sent.members, key))))
            && (!("newref:" < sessionId) ==> Get(sent.members, "sessionId") == Str(sessionId))
  {
    RequestCarriesOperation(operations[i], i, sessionId, uniqueId, Responses(trace[..i]), key);
  }

  /** An operation whose id is not its position is refused: another number, a string, an array, an
      object, or none at all past the first one. */
  lemma {:induction false} WrongIdRefused(ms: seq<Member>, i: nat, sessionId: string, uniqueId: string,
                                          responses: seq<Json>)
    requires Get(ms, "params").Obj? || Get(ms, "params").Null?
    requires match Get(ms, "id")
             case Int(n) => n != i
             case Null => i > 0
             case Bool(b) => i != if b then 1 else 0
             case Real(x) => x < 0.0 || x > 4294967295.0 || x.Floor != i
             case _ => true
    ensures ServerRequest(Obj(ms), i, sessionId, uniqueId, responses) == Fail(MalformedTransaction)
  {}

  /** One whose id is its position is only turned down for its parameters. */
  lemma {:induction false} RightIdAccepted(ms: seq<Member>, i: nat, sessionId: string, uniqueId: string,
                                           responses: seq<Json>)
    requires Get(ms, "params").Obj? || Get(ms, "params").Null?
    requires i < 0x1_0000_0000
    requires match Get(ms, "id")
             case Int(n) => n == i
             case Null => i == 0
             case Bool(b) => i == if b then 1 else 0
             case Real(x) => 0.0 <= x <= 4294967295.0 && x.Floor == i
             case _ => false
    ensures var params := Obj(Put(MembersOf(Get(ms, "params")), "sessionId", Str(sessionId)));
            var request := ServerRequest(Obj(ms), i, sessionId, uniqueId, responses);
            && (request.Ok? <==> Inject(params, responses).Ok?)
            && (request.Fail? ==> Inject(params, responses) == Fail(request.error))
  {}

  /** An operation that is no object, or whose parameters are none, ends in an exception that is not
      caught. */
  lemma WrongShapeUncaught(operation: Json, i: nat, sessionId: string, uniqueId: string, responses: seq<Json>)
    requires operation != Null && (operation.Obj? ==>
               Get(operation.members, "params") != Null && !Get(operation.members, "params").Obj?)
    ensures ServerRequest(operation, i, sessionId, uniqueId, responses) == Fail(Uncaught)
  {}

  /** A response is kept as it came, under its position. */
  lemma {:induction false} ResponsesAreKept<S>(trace: seq<Exchange<S>>, i: nat, key: string)
    requires i < |trace|
    ensures var kept := Responses(trace)[i];
            && kept.Obj? && Get(kept.members, "id") == Int(i)
            && (key != "id" ==>
                  && Get(kept.members, key) == Get(trace[i].answer.fields, key)
                  && (Has(kept.members, key) <==> Has(trace[i].answer.fields, key)))
  {
    PutThenGet(trace[i].answer.fields, "id", Int(i), key);
    PutThenGet(trace[i].answer.fields, "id", Int(i), "id");
  }
}
