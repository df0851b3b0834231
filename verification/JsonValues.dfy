/** JSON values as the request handlers see them. The members of an object are kept in the
order of their keys, as the library's ordered map keeps them. */
module JsonValues {
  import opened Options
  import opened Text

  datatype Json =
    | Null
    | Bool(b: bool)
    | Int(n: int)
    | Real(x: real)
    | Str(s: string)
    | Arr(items: seq<Json>)
    | Obj(members: seq<Member>)

  datatype Member = Member(key: string, value: Json)

  /** Why a request is given up: a JSON-RPC error for the caller, or an exception that the
      code in question does not catch. */
  datatype Error = InvalidParams | MalformedTransaction | MediaFailure | Uncaught

  datatype Result<+T> = Ok(value: T) | Fail(error: Error) {
    predicate IsFailure() { Fail? }
    function PropagateFailure<U>(): Result<U> requires Fail? { Fail(error) }
    function Extract(): T requires Ok? { value }
  }

  // ---------- Members ----------

  predicate Has(ms: seq<Member>, key: string) {
    exists i :: 0 <= i < |ms| && ms[i].key == key
  }

  /** The value stored under `key`; reading a missing member yields null. */
  function Get(ms: seq<Member>, key: string): Json {
    if ms == [] then Null else if ms[0].key == key then ms[0].value else Get(ms[1..], key)
  }

  predicate KeyLess(a: string, b: string) {
    if b == "" then false
    else if a == "" then true
    else a[0] < b[0] || (a[0] == b[0] && KeyLess(a[1..], b[1..]))
  }

  /** Stores a value under `key`, in place when the key is there. */
  function Put(ms: seq<Member>, key: string, value: Json): seq<Member> {
    if ms == [] then [Member(key, value)]
    else if ms[0].key == key then [Member(key, value)] + ms[1..]
    else if !Has(ms, key) && KeyLess(key, ms[0].key) then [Member(key, value)] + ms
    else [ms[0]] + Put(ms[1..], key, value)
  }

  lemma {:induction false} HasStep(ms: seq<Member>, key: string)
    requires ms != []
    ensures Has(ms, key) <==> ms[0].key == key || Has(ms[1..], key)
  {
    if Has(ms, key) {
      var i :| 0 <= i < |ms| && ms[i].key == key;
      if i > 0 { assert ms[1..][i - 1].key == key; }
    }
    if Has(ms[1..], key) {
      var i :| 0 <= i < |ms[1..]| && ms[1..][i].key == key;
      assert ms[i + 1].key == key;
    }
  }

  lemma {:induction false} GetMissing(ms: seq<Member>, key: string)
    requires !Has(ms, key)
    ensures Get(ms, key) == Null
  {
    if ms == [] {
    } else {
      HasStep(ms, key);
      GetMissing(ms[1..], key);
    }
  }

  /** Storing a member changes what is read under its key and nothing else. */
  lemma {:induction false} PutThenGet(ms: seq<Member>, key: string, value: Json, other: string)
    ensures Get(Put(ms, key, value), other) == if other == key then value else Get(ms, other)
    ensures Has(Put(ms, key, value), other) <==> other == key || Has(ms, other)
  {
    HasStep(Put(ms, key, value), other);
    if ms == [] {
    } else {
      HasStep(ms, other);
      PutThenGet(ms[1..], key, value, other);
    }
  }

  lemma {:induction false} PutIsThere(ms: seq<Member>, key: string, value: Json)
    ensures Member(key, value) in Put(ms, key, value)
  {
    if ms == [] {
    } else {
      PutIsThere(ms[1..], key, value);
    }
  }

  /** The members of an object are in the order of their keys, each key once. */
  ghost predicate Ordered(ms: seq<Member>) {
    forall i, j :: 0 <= i < j < |ms| ==> KeyLess(ms[i].key, ms[j].key)
  }

  lemma {:induction false} KeyLessTransitive(a: string, b: string, c: string)
    requires KeyLess(a, b) && KeyLess(b, c)
    ensures KeyLess(a, c)
  {
    if a == "" {
    } else if a[0] == b[0] == c[0] {
      KeyLessTransitive(a[1..], b[1..], c[1..]);
    }
  }

  lemma {:induction false} KeyLessTotal(a: string, b: string)
    ensures !KeyLess(a, a)
    ensures a == b || KeyLess(a, b) || KeyLess(b, a)
  {
    if a == "" || b == "" {
      if a != "" { KeyLessTotal(a[1..], ""); }
    } else {
      KeyLessTotal(a[1..], b[1..]);
      assert a == [a[0]] + a[1..] && b == [b[0]] + b[1..];
    }
  }

  lemma {:induction false} PutKeys(ms: seq<Member>, key: string, value: Json)
    ensures forall m :: m in Put(ms, key, value) ==> m.key == key || m in ms
  {
    if ms == [] {
    } else {
      PutKeys(ms[1..], key, value);
    }
  }

  /** Storing a member keeps the order. */
  lemma {:induction false} PutKeepsOrder(ms: seq<Member>, key: string, value: Json)
    requires Ordered(ms)
    ensures Ordered(Put(ms, key, value))
  {
    if ms == [] {
    } else if ms[0].key == key {
    } else if !Has(ms, key) && KeyLess(key, ms[0].key) {
      forall j | 0 < j < |ms| ensures KeyLess(key, ms[j].key) {
        KeyLessTransitive(key, ms[0].key, ms[j].key);
      }
    } else {
      var rest := Put(ms[1..], key, value);
      PutKeepsOrder(ms[1..], key, value);
      PutKeys(ms[1..], key, value);
      KeyLessTotal(ms[0].key, key);
      if Has(ms, key) { var i :| 0 <= i < |ms| && ms[i].key == key; }
      forall j | 0 <= j < |rest| ensures KeyLess(ms[0].key, rest[j].key) {
        assert rest[j] in rest;
        if rest[j].key != key { var i :| 0 <= i < |ms[1..]| && ms[1..][i] == rest[j]; assert ms[i + 1] == rest[j]; }
      }
    }
  }

  // ---------- Reading members the way the handlers do ----------

  /** A string member; a number reads as its numeral. Anything else is rejected. */
  function StringMember(j: Json, key: string): Option<string> {
    if !j.Obj? || !Has(j.members, key) then None
    else
      match Get(j.members, key)
      case Str(s) => Some(s)
      case Int(n) => Some(if n < 0 then "-" + Decimal(-n) else Decimal(n))
      case _ => None
  }

  function ObjectMember(j: Json, key: string): Option<Json> {
    if j.Obj? && Has(j.members, key) then Some(Get(j.members, key)) else None
  }

  predicate ConvertibleToUInt(j: Json) {
    match j
    case Null => true
    case Bool(_) => true
    case Int(n) => 0 <= n < 0x1_0000_0000
    case Real(x) => 0.0 <= x <= 4294967295.0
    case _ => false
  }

  function AsUInt(j: Json): int
    requires ConvertibleToUInt(j)
  {
    match j
    case Null => 0
    case Bool(b) => if b then 1 else 0
    case Int(n) => n
    case Real(x) => x.Floor
  }

  // ---------- Paths ----------

  datatype Step = Key(key: string) | Index(index: nat)

  function Down(j: Json, step: Step): Option<Json> {
    match (j, step)
    case (Obj(ms), Key(k)) => if Has(ms, k) then Some(Get(ms, k)) else None
    case (Arr(items), Index(i)) => if i < |items| then Some(items[i]) else None
    case _ => None
  }

  function At(j: Json, path: seq<Step>): Option<Json>
    decreases path
  {
    if path == [] then Some(j)
    else match Down(j, path[0])
      case None => None
      case Some(inner) => At(inner, path[1..])
  }
}
