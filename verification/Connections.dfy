/** The registry that ties sessions to websocket connections. */
module Connections {
  import opened Options

  /** The owner a connection handle refers to; handles of one owner are one handle. */
  type Handle = nat

  datatype Registry = Registry(connections: map<string, Handle>,
                               reverse: map<Handle, string>,
                               secure: map<string, bool>)

  const EMPTY_REGISTRY := Registry(map[], map[], map[])

  // ---------- What holds in every reachable state ----------

  /** The two maps are mutually inverse: partial bijections of sessions and handles. */
  ghost predicate Bijective(r: Registry) {
    && (forall s :: s in r.connections ==> r.connections[s] in r.reverse && r.reverse[r.connections[s]] == s)
    && (forall h :: h in r.reverse ==> r.reverse[h] in r.connections && r.connections[r.reverse[h]] == h)
  }

  /** The server a connection was accepted by: every handle is of one kind for good. */
  type Kinds = Handle -> bool

  /** Every bound session is marked with the kind of the handle it is bound to. */
  ghost predicate Routed(r: Registry, kinds: Kinds) {
    forall s :: s in r.connections ==> s in r.secure && r.secure[s] == kinds(r.connections[s])
  }

  ghost predicate Inv(r: Registry, kinds: Kinds) {
    Bijective(r) && Routed(r, kinds)
  }

  /** What locking a handle yields: its owner while that lives, and the same nothing for all
      expired handles. */
  function Lock(live: set<Handle>, h: Handle): Option<Handle> {
    if h in live then Some(h) else None
  }

  // ---------- Specifications of the updates ----------

  /** One side of a bijection with both ends of a new pair freed before it is added. */
  function Rebound<K, V(==)>(m: map<K, V>, k: K, v: V): map<K, V> {
    (map x | x in m && x != k && m[x] != v :: m[x])[k := v]
  }

  function Unbound(r: Registry, h: Handle): Registry {
    if h !in r.reverse then r
    else Registry(r.connections - {r.reverse[h]}, r.reverse - {h}, r.secure - {r.reverse[h]})
  }

  /** The registry after storing a connection, statement by statement. */
  function Stored(r: Registry, live: set<Handle>, h: Handle, secure: bool, sessionId: string): Registry {
    if sessionId == "" then r
    else
      var taken := sessionId in r.connections && Lock(live, r.connections[sessionId]) != Lock(live, h);
      var r1 := if taken then Registry(r.connections - {sessionId}, r.reverse - {r.connections[sessionId]},
                                       r.secure - {sessionId})
                else r;
      var moved := h in r1.reverse && r1.reverse[h] != sessionId;
      var r2 := if moved then r1.(connections := r1.connections - {r1.reverse[h]}, reverse := r1.reverse - {h})
                else r1;
      var needsWrite := sessionId !in r.connections || taken || h !in r1.reverse || moved;
      var r3 := if needsWrite then r2.(connections := r2.connections[sessionId := h],
                                       reverse := r2.reverse[h := sessionId])
                else r2;
      r3.(secure := r3.secure[sessionId := secure])
  }

  /** The session's handle and the new handle have both expired, so they look the same. */
  predicate LooksTheSame(r: Registry, live: set<Handle>, h: Handle, sessionId: string) {
    sessionId in r.connections && r.connections[sessionId] != h &&
    r.connections[sessionId] !in live && h !in live
  }

  lemma StoredConnections(r: Registry, live: set<Handle>, h: Handle, secure: bool, sessionId: string)
    requires Bijective(r) && sessionId != "" && !LooksTheSame(r, live, h, sessionId)
    ensures Stored(r, live, h, secure, sessionId).connections == Rebound(r.connections, sessionId, h)
  {
    var after, rebound := Stored(r, live, h, secure, sessionId).connections, Rebound(r.connections, sessionId, h);
    forall s ensures s in after <==> s in rebound {
      if h in r.reverse { assert r.connections[r.reverse[h]] == h; }
    }
  }

  lemma StoredReverse(r: Registry, live: set<Handle>, h: Handle, secure: bool, sessionId: string)
    requires Bijective(r) && sessionId != "" && !LooksTheSame(r, live, h, sessionId)
    ensures Stored(r, live, h, secure, sessionId).reverse == Rebound(r.reverse, h, sessionId)
  {
    var after, rebound := Stored(r, live, h, secure, sessionId).reverse, Rebound(r.reverse, h, sessionId);
    forall k ensures k in after <==> k in rebound {}
  }

  /** Storing a connection rebinds the session to it and frees both its old ends. */
  lemma StoredIsRebound(r: Registry, live: set<Handle>, h: Handle, secure: bool, sessionId: string)
    requires Bijective(r) && sessionId != "" && !LooksTheSame(r, live, h, sessionId)
    ensures var r' := Stored(r, live, h, secure, sessionId);
            && r'.connections == Rebound(r.connections, sessionId, h)
            && r'.reverse == Rebound(r.reverse, h, sessionId)
  {
    hide Stored, Rebound, LooksTheSame;
    StoredConnections(r, live, h, secure, sessionId);
    StoredReverse(r, live, h, secure, sessionId);
  }

  lemma ReboundBijective(r: Registry, h: Handle, sessionId: string, r': Registry)
    requires Bijective(r)
    requires r'.connections == Rebound(r.connections, sessionId, h)
    requires r'.reverse == Rebound(r.reverse, h, sessionId)
    ensures Bijective(r')
  {}

  /** The bijection survives exactly when the expired handles are told apart. */
  lemma StoreKeepsBijectionExactly(r: Registry, live: set<Handle>, h: Handle, secure: bool, sessionId: string)
    requires Bijective(r)
    ensures Bijective(Stored(r, live, h, secure, sessionId)) <==>
            sessionId == "" || !LooksTheSame(r, live, h, sessionId)
  {
    if sessionId != "" {
      if LooksTheSame(r, live, h, sessionId) {
        var r' := Stored(r, live, h, secure, sessionId);
        var stale := r.connections[sessionId];
        assert stale in r'.reverse && r'.reverse[stale] == sessionId && r'.connections[sessionId] == h;
      } else {
        StoredIsRebound(r, live, h, secure, sessionId);
        ReboundBijective(r, h, sessionId, Stored(r, live, h, secure, sessionId));
      }
    }
  }

  /** A live connection that is stored for a session is bound to it, flagged with its kind, and the
      ends it and the session had before are free; all other bindings stay. */
  lemma StoreBinds(r: Registry, live: set<Handle>, h: Handle, secure: bool, sessionId: string,
                   s: string, g: Handle)
    requires Bijective(r) && sessionId != "" && h in live && s != sessionId && g != h
    ensures var r' := Stored(r, live, h, secure, sessionId);
            && sessionId in r'.connections && r'.connections[sessionId] == h
            && h in r'.reverse && r'.reverse[h] == sessionId
            && sessionId in r'.secure && r'.secure[sessionId] == secure
            && (s in r'.connections <==> s in r.connections && r.connections[s] != h)
            && (s in r'.connections ==> r'.connections[s] == r.connections[s])
            && (g in r'.reverse <==> g in r.reverse && r.reverse[g] != sessionId)
            && (g in r'.reverse ==> r'.reverse[g] == r.reverse[g])
            && (s in r'.secure <==> s in r.secure)
            && (s in r'.secure ==> r'.secure[s] == r.secure[s])
  {
    StoredIsRebound(r, live, h, secure, sessionId);
  }

  /** No session, no change. */
  lemma NothingToStore(r: Registry, live: set<Handle>, h: Handle, secure: bool)
    ensures Stored(r, live, h, secure, "") == r
  {}

  /** Closing a connection frees it and its session, flag included, and nothing else. */
  lemma CloseFrees(r: Registry, h: Handle, s: string, g: Handle)
    requires h in r.reverse && s != r.reverse[h] && g != h
    ensures var r', sessionId := Unbound(r, h), r.reverse[h];
            && h !in r'.reverse && sessionId !in r'.connections && sessionId !in r'.secure
            && (s in r'.connections <==> s in r.connections) && (s in r'.secure <==> s in r.secure)
            && (s in r.connections ==> r'.connections[s] == r.connections[s])
            && (s in r.secure ==> r'.secure[s] == r.secure[s])
            && (g in r'.reverse <==> g in r.reverse) && (g in r.reverse ==> r'.reverse[g] == r.reverse[g])
  {}

  lemma StoreKeepsInv(r: Registry, live: set<Handle>, h: Handle, sessionId: string, kinds: Kinds)
    requires Inv(r, kinds) && h in live
    ensures Inv(Stored(r, live, h, kinds(h), sessionId), kinds)
  {
    StoreKeepsBijectionExactly(r, live, h, kinds(h), sessionId);
    if sessionId != "" {
      StoredIsRebound(r, live, h, kinds(h), sessionId);
      var r' := Stored(r, live, h, kinds(h), sessionId);
      forall s | s in r'.connections ensures s in r'.secure && r'.secure[s] == kinds(r'.connections[s]) {
        if s != sessionId { assert s in r.connections && s in r.secure; }
      }
    }
  }

  lemma CloseKeepsInv(r: Registry, h: Handle, kinds: Kinds)
    requires Inv(r, kinds)
    ensures Inv(Unbound(r, h), kinds)
    ensures h !in Unbound(r, h).reverse
    ensures Unbound(r, h).connections == map s | s in r.connections && r.connections[s] != h :: r.connections[s]
  {}

  // ---------- Flags left behind ----------

  /** Flags and bindings stay in step exactly unless a connection moves to another session:
      moving leaves the flag of the session it had. */
  lemma StoreKeepsFlagsExactly(r: Registry, live: set<Handle>, h: Handle, secure: bool, sessionId: string)
    requires Bijective(r) && h in live && r.secure.Keys == r.connections.Keys
    ensures var r' := Stored(r, live, h, secure, sessionId);
            r'.secure.Keys == r'.connections.Keys <==>
            !(sessionId != "" && h in r.reverse && r.reverse[h] != sessionId)
  {
    if sessionId != "" {
      StoredIsRebound(r, live, h, secure, sessionId);
      var r' := Stored(r, live, h, secure, sessionId);
      assert r'.secure.Keys == r.secure.Keys + {sessionId};
      if h in r.reverse && r.reverse[h] != sessionId {
        assert r.reverse[h] in r'.secure.Keys && r.reverse[h] !in r'.connections.Keys;
      } else {
        forall s | s in r.connections && s != sessionId ensures r.connections[s] != h {}
        assert r'.connections.Keys == r.connections.Keys + {sessionId};
      }
    }
  }

  /** One connection moves from session "a" to session "b", and the flag of "a" is left behind. */
  lemma MovingLeavesAFlag()
    ensures var r := Registry(map["a" := 0], map[0 := "a"], map["a" := false]);
            var r' := Stored(r, {0}, 0, false, "b");
            Bijective(r) && "a" in r'.secure && "a" !in r'.connections
  {}

  /** Two expired handles look the same, and both end up bound to session "a". */
  lemma ExpiredHandlesAreConfused()
    ensures var r := Registry(map["a" := 0], map[0 := "a"], map["a" := false]);
            var r' := Stored(r, {}, 1, false, "a");
            Bijective(r) && !Bijective(r')
  {
    var r := Registry(map["a" := 0], map[0 := "a"], map["a" := false]);
    var r' := Stored(r, {}, 1, false, "a");
    assert r'.reverse[0] == "a" && r'.connections["a"] == 1;
  }

  // ---------- Whole runs ----------

  /** Everything that can happen between two locked sections of the transport. */
  datatype Event =
    | Open(h: Handle)
    | Expire(h: Handle)
    | Store(h: Handle, sessionId: string)
    | Close(h: Handle)

  datatype State = State(registry: Registry, live: set<Handle>)

  /** A connection is stored while the message it sent is handled, so while it lives. */
  predicate Possible(s: State, e: Event) {
    e.Store? ==> e.h in s.live
  }

  function After(s: State, e: Event, kinds: Kinds): State {
    match e
    case Open(h) => s.(live := s.live + {h})
    case Expire(h) => s.(live := s.live - {h})
    case Store(h, sessionId) => s.(registry := Stored(s.registry, s.live, h, kinds(h), sessionId))
    case Close(h) => s.(registry := Unbound(s.registry, h))
  }

  /** What the events do to the handles that live and to the registry. */
  lemma EventsInPlainTerms(s: State, kinds: Kinds, h: Handle, sessionId: string)
    ensures After(s, Open(h), kinds) == State(s.registry, s.live + {h})
    ensures After(s, Expire(h), kinds) == State(s.registry, s.live - {h})
    ensures After(s, Close(h), kinds).live == s.live && h !in After(s, Close(h), kinds).registry.reverse
    ensures After(s, Store(h, sessionId), kinds).live == s.live
    ensures Bijective(s.registry) && h in s.live && sessionId != "" ==>
              var r := After(s, Store(h, sessionId), kinds).registry;
              h in r.reverse && r.reverse[h] == sessionId && sessionId in r.secure && r.secure[sessionId] == kinds(h)
  {
    if Bijective(s.registry) && h in s.live && sessionId != "" {
      StoreBinds(s.registry, s.live, h, kinds(h), sessionId, "", h + 1);
    }
  }

  ghost predicate Run(s: State, events: seq<Event>, kinds: Kinds, end: State)
    decreases events
  {
    if events == [] then end == s
    else Possible(s, events[0]) && Run(After(s, events[0], kinds), events[1..], kinds, end)
  }

  /** In every reachable state the maps are mutually inverse and every session is routed to the
      server that owns its connection, whatever the interleaving. */
  lemma {:induction false} RunKeepsInv(s: State, events: seq<Event>, kinds: Kinds, end: State)
    requires Inv(s.registry, kinds) && Run(s, events, kinds, end)
    ensures Inv(end.registry, kinds)
    decreases events
  {
    if events == [] {
    } else {
      match events[0] {
        case Store(h, sessionId) => StoreKeepsInv(s.registry, s.live, h, sessionId, kinds);
        case Close(h) => CloseKeepsInv(s.registry, h, kinds);
        case Open(_) =>
        case Expire(_) =>
      }
      RunKeepsInv(After(s, events[0], kinds), events[1..], kinds, end);
    }
  }

  lemma EmptyInv(kinds: Kinds)
    ensures Inv(EMPTY_REGISTRY, kinds)
  {}

  /** From the start: every session of a run goes to the one connection that has it, by the server
      that owns it. */
  lemma {:induction false} RoutedFromTheStart(events: seq<Event>, kinds: Kinds, end: State, h: Handle)
    requires Run(State(EMPTY_REGISTRY, {}), events, kinds, end)
    ensures Bijective(end.registry)
    ensures h in end.registry.reverse ==>
              var sessionId := end.registry.reverse[h];
              && sessionId in end.registry.connections && end.registry.connections[sessionId] == h
              && sessionId in end.registry.secure && end.registry.secure[sessionId] == kinds(h)
  {
    EmptyInv(kinds);
    RunKeepsInv(State(EMPTY_REGISTRY, {}), events, kinds, end);
  }

  // ---------- The transport ----------

  class WebSocketTransport {
    var connections: map<string, Handle>
    var connectionsReverse: map<Handle, string>
    var secureConnections: map<string, bool>

    function Value(): Registry reads this {
      Registry(connections, connectionsReverse, secureConnections)
    }

    constructor ()
      ensures Value() == EMPTY_REGISTRY
    {
      connections, connectionsReverse, secureConnections := map[], map[], map[];
    }

    /** `live` are the handles whose owner still exists. */
    method StoreConnection(live: set<Handle>, connection: Handle, secure: bool, sessionId: string)
      modifies this
      ensures Value() == Stored(old(Value()), live, connection, secure, sessionId)
    {
      if sessionId != "" {
        var needsWrite := false;
        if sessionId in connections {
          var conn := connections[sessionId];
          if Lock(live, conn) != Lock(live, connection) {
            connectionsReverse := connectionsReverse - {conn};
            connections := connections - {sessionId};
            secureConnections := secureConnections - {sessionId};
            needsWrite := true;
          }
        } else {
          needsWrite := true;
        }
        if connection in connectionsReverse {
          var oldSession := connectionsReverse[connection];
          if oldSession != sessionId {
            connectionsReverse := connectionsReverse - {connection};
            connections := connections - {oldSession};
            needsWrite := true;
          }
        } else {
          needsWrite := true;
        }
        if needsWrite {
          connections := connections[sessionId := connection];
          connectionsReverse := connectionsReverse[connection := sessionId];
        }
        secureConnections := secureConnections[sessionId := secure];
      }
    }

    method CloseHandler(hdl: Handle)
      modifies this
      ensures Value() == Unbound(old(Value()), hdl)
    {
      if hdl in connectionsReverse {
        var sessionId := connectionsReverse[hdl];
        connections := connections - {sessionId};
        connectionsReverse := connectionsReverse - {hdl};
        secureConnections := secureConnections - {sessionId};
      }
    }

    /** The handle a message for the session goes to, and the server it is sent by. Reading
        the flag of a session that has none stores a false one. */
    method Send(sessionId: string, ghost kinds: Kinds) returns (target: Option<(Handle, bool)>)
      modifies this`secureConnections
      ensures target.Some? <==> sessionId in connections
      ensures target.Some? ==> target.value.0 == connections[sessionId]
      ensures Inv(old(Value()), kinds) ==>
                Value() == old(Value()) && (target.Some? ==> target.value.1 == kinds(target.value.0))
    {
      if sessionId !in connections { return None; }
      var hdl := connections[sessionId];
      if sessionId !in secureConnections {
        secureConnections := secureConnections[sessionId := false];
      }
      target := Some((hdl, secureConnections[sessionId]));
    }
  }
}
