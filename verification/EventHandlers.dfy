/** Event subscriptions: the handlers the transport shares between the subscriptions of one
session to one event of one object. */
module EventHandlers {
  import opened Options
  import opened Text

  /** Who is told about which event of which object. */
  datatype Topic = Topic(session: string, object_: string, eventType: string)

  /** A handler object, told apart from every other one ever made. */
  type Handler = nat

  datatype Subscription = Subscription(topic: Topic, handler: Handler)

  /** `made` are the handlers ever connected and what each was made for; `handlers` are the
      transport's weak references; a handler lives while a subscription refers to it. */
  datatype Hub = Hub(handlers: map<string, Handler>,
                     made: map<Handler, Topic>,
                     subscriptions: map<string, Subscription>)

  const EMPTY_HUB := Hub(map[], map[], map[])

  function EventId(t: Topic): string {
    t.session + "|" + t.object_ + "|" + t.eventType
  }

  /** Topics whose session and object ids contain no bar. */
  predicate PlainIds(t: Topic) {
    '|' !in t.session && '|' !in t.object_
  }

  /** Topics whose object id and event type contain no bar, whatever the client's session is. */
  predicate PlainEvent(t: Topic) {
    '|' !in t.object_ && '|' !in t.eventType
  }

  /** The joined key tells topics apart when session and object ids contain no bar. */
  lemma EventIdInjective(t: Topic, u: Topic)
    requires PlainIds(t) && PlainIds(u) && EventId(t) == EventId(u)
    ensures t == u
  {
    var tRest, uRest := t.object_ + ['|'] + t.eventType, u.object_ + ['|'] + u.eventType;
    assert EventId(t) == t.session + ['|'] + tRest && EventId(u) == u.session + ['|'] + uRest;
    CutOnce(t.session, tRest, u.session, uRest, '|');
    CutOnce(t.object_, t.eventType, u.object_, u.eventType, '|');
  }

  /** It also tells them apart, for any sessions, when object ids and event types contain no bar:
      read from the right, the last two bars are the ones that were put in. */
  lemma EventIdInjectiveAnySession(t: Topic, u: Topic)
    requires PlainEvent(t) && PlainEvent(u) && EventId(t) == EventId(u)
    ensures t == u
  {
    var tFront, uFront := t.session + ['|'] + t.object_, u.session + ['|'] + u.object_;
    assert EventId(t) == tFront + ['|'] + t.eventType && EventId(u) == uFront + ['|'] + u.eventType;
    CutLast(tFront, t.eventType, uFront, u.eventType, '|');
    CutLast(t.session, t.object_, u.session, u.object_, '|');
  }

  // ---------- What lives ----------

  predicate Live(hub: Hub, h: Handler) {
    exists id :: id in hub.subscriptions && hub.subscriptions[id].handler == h
  }

  /** Handlers are known under the keys of what they were made for, and every subscription is
      served by a handler made for its own topic, which is the one known for that topic. */
  ghost predicate Inv(hub: Hub) {
    KeysOwn(hub) && forall id :: id in hub.subscriptions ==> Served(hub, hub.subscriptions[id])
  }

  ghost predicate KeysOwn(hub: Hub) {
    forall key :: key in hub.handlers ==>
      hub.handlers[key] in hub.made && EventId(hub.made[hub.handlers[key]]) == key
  }

  ghost predicate Served(hub: Hub, s: Subscription) {
    && s.handler in hub.made && hub.made[s.handler] == s.topic
    && EventId(s.topic) in hub.handlers && hub.handlers[EventId(s.topic)] == s.handler
  }

  predicate Subscribed(hub: Hub, t: Topic) {
    exists id :: id in hub.subscriptions && hub.subscriptions[id].topic == t
  }

  /** The live handlers that pass an event of a topic on to its session, one message each. */
  ghost function Receivers(hub: Hub, t: Topic): set<Handler> {
    set h | h in hub.made && hub.made[h] == t && Live(hub, h)
  }

  /** Each event reaches a session once however many subscriptions it holds, and not at all
      without one. */
  lemma DeliveredOnce(hub: Hub, t: Topic)
    requires Inv(hub)
    ensures |Receivers(hub, t)| == if Subscribed(hub, t) then 1 else 0
    ensures forall id :: id in hub.subscriptions && hub.subscriptions[id].topic == t ==>
              Receivers(hub, t) == {hub.subscriptions[id].handler}
  {
    forall h | h in Receivers(hub, t)
      ensures exists id :: id in hub.subscriptions && hub.subscriptions[id] == Subscription(t, h)
    {
      var id :| id in hub.subscriptions && hub.subscriptions[id].handler == h;
      assert Served(hub, hub.subscriptions[id]);
    }
    forall id | id in hub.subscriptions && hub.subscriptions[id].topic == t
      ensures Receivers(hub, t) == {hub.subscriptions[id].handler}
    {
      SubscribersShare(hub, t, id);
    }
    if !Subscribed(hub, t) { assert Receivers(hub, t) == {}; }
  }

  lemma SubscribersShare(hub: Hub, t: Topic, id: string)
    requires Inv(hub) && id in hub.subscriptions && hub.subscriptions[id].topic == t
    ensures Receivers(hub, t) == {hub.subscriptions[id].handler}
  {
    var one := hub.subscriptions[id].handler;
    assert Served(hub, hub.subscriptions[id]) && Live(hub, one);
    forall h | h in Receivers(hub, t) ensures h == one {
      var other :| other in hub.subscriptions && hub.subscriptions[other].handler == h;
      assert Served(hub, hub.subscriptions[other]);
    }
  }

  // ---------- Subscribing and letting go ----------

  /** The handler the transport still knows for a topic's key, if it lives. */
  function Known(hub: Hub, t: Topic): Option<Handler> {
    if EventId(t) in hub.handlers && Live(hub, hub.handlers[EventId(t)]) then Some(hub.handlers[EventId(t)])
    else None
  }

  /** Subscribing under a new id; a handler made for the purpose is `spare`. The object may not
      support the event, which nothing survives. */
  function AfterSubscribe(hub: Hub, t: Topic, supported: bool, spare: Handler, id: string): Hub {
    match Known(hub, t)
    case Some(h) => hub.(subscriptions := hub.subscriptions[id := Subscription(t, h)])
    case None =>
      if !supported then hub
      else Hub(hub.handlers[EventId(t) := spare], hub.made[spare := t],
               hub.subscriptions[id := Subscription(t, spare)])
  }

  /** The hub without the subscriptions of some ids. */
  function Without(hub: Hub, ids: set<string>): Hub {
    hub.(subscriptions := hub.subscriptions - ids)
  }

  predicate New(hub: Hub, spare: Handler, id: string) {
    spare !in hub.made && id !in hub.subscriptions
  }

  /** A live handler of another topic sits under this topic's key. */
  predicate Collides(hub: Hub, t: Topic) {
    Known(hub, t).Some? && (Known(hub, t).value in hub.made ==> hub.made[Known(hub, t).value] != t)
  }

  /** Subscribing keeps every subscription rightly served exactly when keys do not collide. */
  lemma SubscribeKeepsInvExactly(hub: Hub, t: Topic, supported: bool, spare: Handler, id: string)
    requires Inv(hub) && New(hub, spare, id)
    ensures Inv(AfterSubscribe(hub, t, supported, spare, id)) <==> !Collides(hub, t)
  {
    var after := AfterSubscribe(hub, t, supported, spare, id);
    if Collides(hub, t) {
      assert !Served(after, after.subscriptions[id]);
    } else {
      forall other | other in after.subscriptions ensures Served(after, after.subscriptions[other]) {
        if other != id {
          assert Served(hub, hub.subscriptions[other]);
          assert Live(hub, hub.subscriptions[other].handler);
        }
      }
    }
  }

  /** Clients choose sessions and event types. With a bar in both, the second of these two
      subscriptions is served by a handler that sends to the first one's session, even when the
      object does not support the event the second asks for. */
  lemma BarsCollide()
    ensures var t, u := Topic("p|x", "y", "E"), Topic("p", "x", "y|E");
            var first := AfterSubscribe(EMPTY_HUB, t, true, 0, "1");
            var second := AfterSubscribe(first, u, false, 1, "2");
            && Collides(first, u)
            && "2" in second.subscriptions
            && second.made[second.subscriptions["2"].handler].session == "p|x"
  {
    var t, u := Topic("p|x", "y", "E"), Topic("p", "x", "y|E");
    assert EventId(t) == "p|x|y|E" == EventId(u);
    var first := AfterSubscribe(EMPTY_HUB, t, true, 0, "1");
    assert first.subscriptions["1"].handler == 0;
    assert Live(first, 0);
    assert u.session != t.session;
  }

  /** A subscription is served by the handler under its key if one of a subscription is there, and by
      a new one otherwise; an event that is not supported and has no such handler changes nothing. */
  lemma SubscribeAdds(hub: Hub, t: Topic, supported: bool, spare: Handler, id: string, other: string)
    requires New(hub, spare, id)
    ensures var key := t.session + "|" + t.object_ + "|" + t.eventType;
            var after := AfterSubscribe(hub, t, supported, spare, id);
            var shared := key in hub.handlers &&
                          exists i :: i in hub.subscriptions && hub.subscriptions[i].handler == hub.handlers[key];
            && (!shared && !supported ==> after == hub)
            && (shared || supported ==>
                  && id in after.subscriptions && after.subscriptions[id].topic == t
                  && after.subscriptions[id].handler == (if shared then hub.handlers[key] else spare)
                  && key in after.handlers && after.handlers[key] == after.subscriptions[id].handler)
            && (other != id ==>
                  && (other in after.subscriptions <==> other in hub.subscriptions)
                  && (other in after.subscriptions ==> after.subscriptions[other] == hub.subscriptions[other]))
  {}

  // ---------- Whole runs ----------

  datatype Event =
    | Subscribe(topic: Topic, supported: bool, spare: Handler, id: string)
    | Unsubscribe(session: string, object_: string, id: string)
    | ReleaseObject(object_: string)
    | ReleaseSession(session: string)

  function After(hub: Hub, e: Event): Hub {
    match e
    case Subscribe(t, supported, spare, id) => AfterSubscribe(hub, t, supported, spare, id)
    case Unsubscribe(session, object_, id) =>
      Without(hub, set i | i in hub.subscriptions && i == id &&
                           hub.subscriptions[i].topic.session == session &&
                           hub.subscriptions[i].topic.object_ == object_)
    case ReleaseObject(object_) =>
      Without(hub, set i | i in hub.subscriptions && hub.subscriptions[i].topic.object_ == object_)
    case ReleaseSession(session) =>
      Without(hub, set i | i in hub.subscriptions && hub.subscriptions[i].topic.session == session)
  }

  /** What is let go of: the one subscription, if session and object are its own; those to an object
      that is released; those of a session that is. Every other one stays, and no handler is forgotten. */
  lemma LettingGo(hub: Hub, e: Event, id: string)
    requires !e.Subscribe?
    ensures var after := After(hub, e);
            && after.handlers == hub.handlers && after.made == hub.made
            && (id in after.subscriptions <==>
                  id in hub.subscriptions &&
                  var topic := hub.subscriptions[id].topic;
                  !(|| (e.Unsubscribe? && id == e.id && topic.session == e.session && topic.object_ == e.object_)
                    || (e.ReleaseObject? && topic.object_ == e.object_)
                    || (e.ReleaseSession? && topic.session == e.session)))
            && (id in after.subscriptions ==> after.subscriptions[id] == hub.subscriptions[id])
  {}

  /** Handlers and subscription ids are new. */
  predicate Possible(hub: Hub, e: Event) {
    e.Subscribe? ==> New(hub, e.spare, e.id)
  }

  ghost predicate Run(hub: Hub, events: seq<Event>, end: Hub)
    decreases events
  {
    if events == [] then end == hub
    else Possible(hub, events[0]) && Run(After(hub, events[0]), events[1..], end)
  }

  /** No subscription of the run meets a live handler of another topic under its key. */
  ghost predicate NoneCollides(hub: Hub, events: seq<Event>)
    decreases events
  {
    events != [] ==>
      && (events[0].Subscribe? ==> !Collides(hub, events[0].topic))
      && NoneCollides(After(hub, events[0]), events[1..])
  }

  lemma StepKeepsInv(hub: Hub, e: Event)
    requires Inv(hub) && Possible(hub, e) && (e.Subscribe? ==> !Collides(hub, e.topic))
    ensures Inv(After(hub, e))
  {
    match e {
      case Subscribe(t, supported, spare, id) => SubscribeKeepsInvExactly(hub, t, supported, spare, id);
      case _ =>
        forall i | i in After(hub, e).subscriptions ensures Served(After(hub, e), After(hub, e).subscriptions[i]) {
          assert Served(hub, hub.subscriptions[i]);
        }
    }
  }

  /** One live handler a topic, shared by all its subscriptions, over all runs without
      collisions. */
  lemma {:induction false} OneHandlerPerTopic(hub: Hub, events: seq<Event>, end: Hub, t: Topic)
    requires Inv(hub) && Run(hub, events, end) && NoneCollides(hub, events)
    ensures |Receivers(end, t)| == if Subscribed(end, t) then 1 else 0
    decreases events
  {
    if events == [] {
      DeliveredOnce(end, t);
    } else {
      StepKeepsInv(hub, events[0]);
      OneHandlerPerTopic(After(hub, events[0]), events[1..], end, t);
    }
  }

  /** A family of topics that the joined key tells apart. */
  ghost predicate ToldApart(family: Topic -> bool) {
    forall t, u :: family(t) && family(u) && EventId(t) == EventId(u) ==> t == u
  }

  ghost predicate MadeWithin(hub: Hub, family: Topic -> bool) {
    forall h :: h in hub.made ==> family(hub.made[h])
  }

  predicate SubscribesWithin(events: seq<Event>, family: Topic -> bool) {
    forall i :: 0 <= i < |events| && events[i].Subscribe? ==> family(events[i].topic)
  }

  lemma StepWithinFamily(hub: Hub, e: Event, family: Topic -> bool)
    requires KeysOwn(hub) && MadeWithin(hub, family) && ToldApart(family)
    requires Possible(hub, e) && (e.Subscribe? ==> family(e.topic))
    ensures e.Subscribe? ==> !Collides(hub, e.topic)
    ensures KeysOwn(After(hub, e)) && MadeWithin(After(hub, e), family)
  {
    match e {
      case Subscribe(t, supported, spare, id) => SubscribeWithinFamily(hub, t, supported, spare, id, family);
      case _ =>
    }
  }

  lemma SubscribeWithinFamily(hub: Hub, t: Topic, supported: bool, spare: Handler, id: string,
                              family: Topic -> bool)
    requires KeysOwn(hub) && MadeWithin(hub, family) && ToldApart(family) && family(t)
    requires spare !in hub.made
    ensures !Collides(hub, t)
    ensures KeysOwn(AfterSubscribe(hub, t, supported, spare, id))
    ensures MadeWithin(AfterSubscribe(hub, t, supported, spare, id), family)
  {
    hide Live, EventId;
  }

  /** A run that stays within such a family has no collisions. */
  lemma {:induction false} FamilyNeverCollides(hub: Hub, events: seq<Event>, end: Hub, family: Topic -> bool)
    requires KeysOwn(hub) && MadeWithin(hub, family) && Run(hub, events, end)
    requires ToldApart(family) && SubscribesWithin(events, family)
    ensures NoneCollides(hub, events)
    decreases events
  {
    if events == [] {
    } else {
      StepWithinFamily(hub, events[0], family);
      assert forall i :: 0 <= i < |events[1..]| ==> events[1..][i] == events[i + 1];
      hide ToldApart, MadeWithin, KeysOwn, After, Collides;
      FamilyNeverCollides(After(hub, events[0]), events[1..], end, family);
    }
  }

  /** From the start, each event reaches a subscribed session once in every run whose object ids
      and event types contain no bar, whatever sessions the clients choose, and in every run
      whose session and object ids contain none. */
  lemma {:induction false} DeliveredOnceOverRuns(events: seq<Event>, end: Hub, t: Topic)
    requires Run(EMPTY_HUB, events, end)
    requires SubscribesWithin(events, PlainEvent) || SubscribesWithin(events, PlainIds)
    ensures |Receivers(end, t)| == if Subscribed(end, t) then 1 else 0
  {
    if SubscribesWithin(events, PlainEvent) {
      forall u, v | PlainEvent(u) && PlainEvent(v) && EventId(u) == EventId(v) ensures u == v {
        EventIdInjectiveAnySession(u, v);
      }
      FamilyNeverCollides(EMPTY_HUB, events, end, PlainEvent);
    } else {
      forall u, v | PlainIds(u) && PlainIds(v) && EventId(u) == EventId(v) ensures u == v {
        EventIdInjective(u, v);
      }
      FamilyNeverCollides(EMPTY_HUB, events, end, PlainIds);
    }
    OneHandlerPerTopic(EMPTY_HUB, events, end, t);
  }

  // ---------- The transport ----------

  class Subscriptions {
    var handlers: map<string, Handler>
    var made: map<Handler, Topic>
    var subscriptions: map<string, Subscription>

    function Value(): Hub reads this { Hub(handlers, made, subscriptions) }

    constructor ()
      ensures Value() == EMPTY_HUB
    {
      handlers, made, subscriptions := map[], map[], map[];
    }

    method ProcessSubscription(t: Topic, supported: bool, spare: Handler, newId: string)
      returns (subscriptionId: Option<string>)
      modifies this
      ensures Value() == AfterSubscribe(old(Value()), t, supported, spare, newId)
      ensures subscriptionId == if old(Known(Value(), t)).Some? || supported then Some(newId) else None
    {
      var eventId := EventId(t);
      var handler: Option<Handler> := None;
      if eventId in handlers && Live(Value(), handlers[eventId]) {
        handler := Some(handlers[eventId]);
      }
      if handler.None? {
        if !supported { return None; }
        made := made[spare := t];
        subscriptions := subscriptions[newId := Subscription(t, spare)];
        handlers := handlers[eventId := spare];
      } else {
        subscriptions := subscriptions[newId := Subscription(t, handler.value)];
      }
      subscriptionId := Some(newId);
    }
  }
}
