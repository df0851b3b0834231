/** Replacing references to earlier results inside the parameters of a transaction's
operations. */
module References {
  import opened JsonValues
  import opened Options
  import opened Text

  const NEW_REF := "newref:"

  predicate IsReference(j: Json) {
    j.Str? && |j.s| > |NEW_REF| && j.s[..|NEW_REF|] == NEW_REF
  }

  /** The index text of a reference. */
  function IndexText(j: Json): string
    requires IsReference(j)
  {
    j.s[|NEW_REF|..]
  }

  // ---------- Reading an index ----------

  datatype Parsed = Number(n: int) | NotANumber | OutOfRange

  predicate IsSpace(c: char) {
    c == ' ' || '\t' <= c <= '\r'
  }

  function SkipSpace(s: string): string {
    if s != "" && IsSpace(s[0]) then SkipSpace(s[1..]) else s
  }

  /** The value of the digits at the start of `s`, continuing the number `acc`. */
  function LeadingDigits(s: string, acc: nat): nat
    decreases |s|
  {
    if s != "" && IsDigit(s[0]) then LeadingDigits(s[1..], 10 * acc + DigitValue(s[0])) else acc
  }

  /** Spaces, an optional sign and digits; whatever follows the digits is ignored. */
  function ParseIndex(text: string): Parsed {
    var s := SkipSpace(text);
    var negative := s != "" && s[0] == '-';
    var digits := if s != "" && (s[0] == '-' || s[0] == '+') then s[1..] else s;
    if digits == "" || !IsDigit(digits[0]) then NotANumber
    else
      var n := (if negative then -1 else 1) * LeadingDigits(digits, 0);
      if -0x8000_0000 <= n < 0x8000_0000 then Number(n) else OutOfRange
  }

  lemma {:induction false} LeadingDigitsSnoc(s: string, d: char, acc: nat)
    requires IsDigit(d) && forall i :: 0 <= i < |s| ==> IsDigit(s[i])
    ensures LeadingDigits(s + [d], acc) == 10 * LeadingDigits(s, acc) + DigitValue(d)
    decreases |s|
  {
    if s == "" {
      assert (s + [d])[1..] == "";
    } else {
      assert (s + [d])[1..] == s[1..] + [d];
      LeadingDigitsSnoc(s[1..], d, 10 * acc + DigitValue(s[0]));
    }
  }

  lemma {:induction false} LeadingDigitsOfDecimal(n: nat)
    ensures LeadingDigits(Decimal(n), 0) == n
  {
    if n < 10 {
      assert Decimal(n)[1..] == "";
    } else {
      LeadingDigitsOfDecimal(n / 10);
      DecimalDigits(n / 10);
      LeadingDigitsSnoc(Decimal(n / 10), Digit(n % 10), 0);
    }
  }

  lemma {:induction false} LeadingDigitsStop(s: string, rest: string, acc: nat)
    requires rest != "" ==> !IsDigit(rest[0])
    requires forall i :: 0 <= i < |s| ==> IsDigit(s[i])
    ensures LeadingDigits(s + rest, acc) == LeadingDigits(s, acc)
    decreases |s|
  {
    if s == "" {
      assert s + rest == rest;
    } else {
      assert (s + rest)[0] == s[0] && (s + rest)[1..] == s[1..] + rest;
      LeadingDigitsStop(s[1..], rest, 10 * acc + DigitValue(s[0]));
    }
  }

  /** Spaces before the numeral, a plus sign and whatever follows the digits do not matter. */
  lemma {:induction false} NumeralsMayBeLoose(n: nat, rest: string)
    requires n < 0x8000_0000 && (rest != "" ==> !IsDigit(rest[0]))
    ensures ParseIndex(Decimal(n) + rest) == Number(n)
    ensures ParseIndex("+" + Decimal(n) + rest) == Number(n)
    ensures ParseIndex(" \t" + Decimal(n) + rest) == Number(n)
  {
    hide LeadingDigits, Decimal;
    DecimalDigits(n);
    LeadingDigitsOfDecimal(n);
    LeadingDigitsStop(Decimal(n), rest, 0);
    var plain := Decimal(n) + rest;
    assert ("+" + Decimal(n) + rest)[1..] == plain;
    var spaced := " \t" + Decimal(n) + rest;
    assert spaced[1..][1..] == plain && spaced[0] == ' ' && spaced[1..][0] == '\t';
    assert SkipSpace(plain) == plain;
    assert SkipSpace(spaced) == SkipSpace(spaced[1..]) == SkipSpace(plain);
  }

  /** The numeral of a position, put behind the marker, refers to that position. */
  lemma {:induction false} NumeralRefersToPosition(n: nat)
    requires n < 0x8000_0000
    ensures IsReference(Str(NEW_REF + Decimal(n)))
    ensures ParseIndex(IndexText(Str(NEW_REF + Decimal(n)))) == Number(n)
  {
    DecimalDigits(n);
    LeadingDigitsOfDecimal(n);
    assert IndexText(Str(NEW_REF + Decimal(n))) == Decimal(n);
  }

  // ---------- Resolving one reference ----------

  /** The value of an earlier response, if it has a result to take one from. */
  function ResultValue(response: Json): Result<Json> {
    match ObjectMember(response, "result")
    case None => Fail(MalformedTransaction)
    case Some(result) =>
      match result
      case Null => Ok(Null)
      case Obj(ms) => Ok(Get(ms, "value"))
      case _ => Fail(Uncaught)
  }

  /** What a reference's index text stands for. */
  function Resolve(index: string, responses: seq<Json>): Result<Json> {
    match ParseIndex(index)
    case NotANumber => Fail(MalformedTransaction)
    case OutOfRange => Fail(Uncaught)
    case Number(n) =>
      if n < 0 then Fail(Uncaught)
      else if n < |responses| then ResultValue(responses[n])
      else Fail(MalformedTransaction)
  }

  // ---------- Injection ----------

  /** The parameters with every reference replaced, failing at the first bad one. */
  function Inject(j: Json, responses: seq<Json>): Result<Json>
    decreases j
  {
    match j
    case Obj(ms) => var r :- InjectMembers(ms, responses); Ok(Obj(r))
    case Arr(items) => var r :- InjectItems(items, responses); Ok(Arr(r))
    case _ => if IsReference(j) then Resolve(IndexText(j), responses) else Ok(j)
  }

  function InjectItems(items: seq<Json>, responses: seq<Json>): Result<seq<Json>>
    decreases items
  {
    if items == [] then Ok([])
    else
      var first :- Inject(items[0], responses);
      var rest :- InjectItems(items[1..], responses);
      Ok([first] + rest)
  }

  function InjectMembers(ms: seq<Member>, responses: seq<Json>): Result<seq<Member>>
    decreases ms
  {
    if ms == [] then Ok([])
    else
      var first :- Inject(ms[0].value, responses);
      var rest :- InjectMembers(ms[1..], responses);
      Ok([Member(ms[0].key, first)] + rest)
  }

  method InsertResult(responses: seq<Json>, index: int) returns (value: Result<Json>)
    ensures forall text :: ParseIndex(text) == Number(index) ==> value == Resolve(text, responses)
  {
    if index < 0 { return Fail(Uncaught); }
    var response := if index < |responses| then responses[index] else Null;
    var result := ObjectMember(response, "result");
    if result.None? { return Fail(MalformedTransaction); }
    match result.value {
      case Null => value := Ok(Null);
      case Obj(ms) => value := Ok(Get(ms, "value"));
      case _ => value := Fail(Uncaught);
    }
  }

  method InjectRefs(params: Json, responses: seq<Json>) returns (result: Result<Json>)
    ensures result == Inject(params, responses)
    decreases params
  {
    if params.Obj? {
      var members := params.members;
      var ms := members;
      assert members[0..] == members && ms[..0] == [];
      PrependNothing(InjectMembers(members, responses));
      for i := 0 to |members|
        invariant |ms| == |members| && ms[i..] == members[i..]
        invariant InjectMembers(members, responses) ==
                  Prepend(ms[..i], InjectMembers(members[i..], responses))
      {
        var inner := InjectRefs(members[i].value, responses);
        if inner.Fail? { return Fail(inner.error); }
        ghost var tail := InjectMembers(members[i + 1..], responses);
        assert members[i..][1..] == members[i + 1..];
        ms := ms[i := Member(members[i].key, inner.value)];
        PrependStep(ms, i, tail);
      }
      assert ms[..|members|] == ms && ms + [] == ms;
      return Ok(Obj(ms));
    } else if params.Arr? {
      var elements := params.items;
      var items := elements;
      assert elements[0..] == elements && items[..0] == [];
      PrependNothing(InjectItems(elements, responses));
      for i := 0 to |elements|
        invariant |items| == |elements| && items[i..] == elements[i..]
        invariant InjectItems(elements, responses) ==
                  Prepend(items[..i], InjectItems(elements[i..], responses))
      {
        var inner := InjectRefs(elements[i], responses);
        if inner.Fail? { return Fail(inner.error); }
        ghost var tail := InjectItems(elements[i + 1..], responses);
        assert elements[i..][1..] == elements[i + 1..];
        items := items[i := inner.value];
        PrependStep(items, i, tail);
      }
      assert items[..|elements|] == items && items + [] == items;
      return Ok(Arr(items));
    } else if IsReference(params) {
      var index := ParseIndex(IndexText(params));
      match index {
        case NotANumber => return Fail(MalformedTransaction);
        case OutOfRange => return Fail(Uncaught);
        case Number(n) => result := InsertResult(responses, n);
      }
    } else {
      return Ok(params);
    }
  }

  ghost function Prepend<T>(front: seq<T>, rest: Result<seq<T>>): Result<seq<T>> {
    match rest case Ok(r) => Ok(front + r) case Fail(e) => Fail(e)
  }

  lemma PrependNothing<T>(rest: Result<seq<T>>)
    ensures Prepend([], rest) == rest
  {
    if rest.Ok? { assert [] + rest.value == rest.value; }
  }

  lemma PrependStep<T>(s: seq<T>, i: nat, tail: Result<seq<T>>)
    requires i < |s|
    ensures Prepend(s[..i + 1], tail) == Prepend(s[..i], Prepend([s[i]], tail))
  {
    if tail.Ok? { assert s[..i + 1] + tail.value == s[..i] + ([s[i]] + tail.value); }
  }

  // ---------- Injection is one simultaneous substitution ----------

  lemma {:induction false} ItemsPointwise(items: seq<Json>, responses: seq<Json>)
    ensures InjectItems(items, responses).Ok? <==>
            forall i :: 0 <= i < |items| ==> Inject(items[i], responses).Ok?
    ensures InjectItems(items, responses).Ok? ==>
              var r := InjectItems(items, responses).value;
              |r| == |items| && forall i :: 0 <= i < |items| ==> Inject(items[i], responses) == Ok(r[i])
  {
    if items == [] {
    } else {
      ItemsPointwise(items[1..], responses);
      assert forall i :: 1 <= i < |items| ==> items[i] == items[1..][i - 1];
      if InjectItems(items, responses).Fail? && Inject(items[0], responses).Ok? {
        var i :| 0 <= i < |items[1..]| && Inject(items[1..][i], responses).Fail?;
        assert Inject(items[i + 1], responses).Fail?;
      }
    }
  }

  lemma {:induction false} MembersPointwise(ms: seq<Member>, responses: seq<Json>)
    ensures InjectMembers(ms, responses).Ok? <==>
            forall i :: 0 <= i < |ms| ==> Inject(ms[i].value, responses).Ok?
    ensures InjectMembers(ms, responses).Ok? ==>
              var r := InjectMembers(ms, responses).value;
              |r| == |ms| && forall i :: 0 <= i < |ms| ==>
                r[i].key == ms[i].key && Inject(ms[i].value, responses) == Ok(r[i].value)
  {
    if ms == [] {
    } else {
      MembersPointwise(ms[1..], responses);
      assert forall i :: 1 <= i < |ms| ==> ms[i] == ms[1..][i - 1];
      if InjectMembers(ms, responses).Fail? && Inject(ms[0].value, responses).Ok? {
        var i :| 0 <= i < |ms[1..]| && Inject(ms[1..][i].value, responses).Fail?;
        assert Inject(ms[i + 1].value, responses).Fail?;
      }
    }
  }

  /** Where a path into the parameters leads: nowhere, to a reference it may run past, or to
      any other node. */
  datatype Spot = Missing | AtReference(index: string, rest: seq<Step>) | AtNode(node: Json)

  function Locate(j: Json, path: seq<Step>): Spot
    decreases path
  {
    if IsReference(j) then AtReference(IndexText(j), path)
    else if path == [] then AtNode(j)
    else match Down(j, path[0])
      case None => Missing
      case Some(inner) => Locate(inner, path[1..])
  }

  /** Two nodes of the same shape: equal leaves, arrays of one length, objects with one key list. */
  predicate SameShape(x: Json, y: Json) {
    match (x, y)
    case (Arr(xs), Arr(ys)) => |xs| == |ys|
    case (Obj(xs), Obj(ys)) => |xs| == |ys| && forall i :: 0 <= i < |xs| ==> xs[i].key == ys[i].key
    case _ => x == y
  }

  lemma {:induction false} SameKeysSameGet(xs: seq<Member>, ys: seq<Member>, key: string, responses: seq<Json>)
    requires |xs| == |ys|
    requires forall i :: 0 <= i < |xs| ==>
               ys[i].key == xs[i].key && Inject(xs[i].value, responses) == Ok(ys[i].value)
    ensures Has(xs, key) <==> Has(ys, key)
    ensures Has(xs, key) ==> Inject(Get(xs, key), responses) == Ok(Get(ys, key))
  {
    if xs == [] {
    } else {
      HasStep(xs, key);
      HasStep(ys, key);
      SameKeysSameGet(xs[1..], ys[1..], key, responses);
    }
  }

  /** What every path finds after injection. Replaced references hold the earlier value itself,
      never rescanned, and everything else keeps its shape; nothing is added or removed. */
  lemma {:induction false} InjectAt(j: Json, responses: seq<Json>, path: seq<Step>)
    requires Inject(j, responses).Ok?
    ensures var r := Inject(j, responses).value;
            match Locate(j, path)
            case Missing => At(r, path) == None
            case AtReference(index, rest) =>
              Resolve(index, responses).Ok? && At(r, path) == At(Resolve(index, responses).value, rest)
            case AtNode(x) =>
              At(j, path) == Some(x) && At(r, path).Some? && SameShape(x, At(r, path).value)
    decreases path
  {
    match j {
      case Obj(ms) => MembersPointwise(ms, responses);
      case Arr(items) => ItemsPointwise(items, responses);
      case _ =>
    }
    if path == [] || IsReference(j) {
    } else {
      var r := Inject(j, responses).value;
      if j.Obj? && path[0].Key? { SameKeysSameGet(j.members, r.members, path[0].key, responses); }
      if Down(j, path[0]).Some? {
        InjectAt(Down(j, path[0]).value, responses, path[1..]);
      }
    }
  }

  /** The index texts of all references anywhere in the parameters. */
  function References(j: Json): set<string>
    decreases j
  {
    if IsReference(j) then {IndexText(j)}
    else match j
      case Obj(ms) => set m, x | m in ms && x in References(m.value) :: x
      case Arr(items) => set i, x | i in items && x in References(i) :: x
      case _ => {}
  }

  /** The reference points at a response that is already there and has a result to give. */
  ghost predicate PointsBack(index: string, responses: seq<Json>) {
    exists n :: 0 <= n < |responses| && ParseIndex(index) == Number(n) && ResultValue(responses[n]).Ok?
  }

  lemma ResolvesBackwards(index: string, responses: seq<Json>)
    ensures Resolve(index, responses).Ok? <==> PointsBack(index, responses)
  {}

  /** Injection succeeds exactly when every reference points strictly backwards. */
  lemma {:induction false} InjectSucceedsExactly(j: Json, responses: seq<Json>)
    ensures Inject(j, responses).Ok? <==> forall x :: x in References(j) ==> PointsBack(x, responses)
    decreases j
  {
    if IsReference(j) { ResolvesBackwards(IndexText(j), responses); }
    match j {
      case Obj(ms) =>
        MembersPointwise(ms, responses);
        forall i | 0 <= i < |ms| { InjectSucceedsExactly(ms[i].value, responses); }
        assert forall i :: 0 <= i < |ms| ==> ms[i] in ms;
      case Arr(items) =>
        ItemsPointwise(items, responses);
        forall i | 0 <= i < |items| { InjectSucceedsExactly(items[i], responses); }
        assert forall i :: 0 <= i < |items| ==> items[i] in items;
      case _ =>
    }
  }

  /** Later responses change nothing once every reference is resolved. */
  lemma {:induction false} InjectStable(j: Json, responses: seq<Json>, more: seq<Json>)
    requires Inject(j, responses).Ok?
    ensures Inject(j, responses + more) == Inject(j, responses)
    decreases j
  {
    match j {
      case Obj(ms) =>
        MembersPointwise(ms, responses);
        MembersPointwise(ms, responses + more);
        forall i | 0 <= i < |ms| { InjectStable(ms[i].value, responses, more); }
        assert InjectMembers(ms, responses + more).value == InjectMembers(ms, responses).value;
      case Arr(items) =>
        ItemsPointwise(items, responses);
        ItemsPointwise(items, responses + more);
        forall i | 0 <= i < |items| { InjectStable(items[i], responses, more); }
        assert InjectItems(items, responses + more).value == InjectItems(items, responses).value;
      case _ =>
    }
  }

  /** Injection looks at nothing of the responses but the values they give. */
  lemma {:induction false} InjectSeesOnlyValues(j: Json, rs: seq<Json>, qs: seq<Json>)
    requires |rs| == |qs| && forall i :: 0 <= i < |rs| ==> ResultValue(rs[i]) == ResultValue(qs[i])
    ensures Inject(j, rs) == Inject(j, qs)
    decreases j, 0
  {
    match j {
      case Obj(ms) => InjectMembersSeesOnlyValues(ms, rs, qs);
      case Arr(items) => InjectItemsSeesOnlyValues(items, rs, qs);
      case _ =>
    }
  }

  lemma {:induction false} InjectMembersSeesOnlyValues(ms: seq<Member>, rs: seq<Json>, qs: seq<Json>)
    requires |rs| == |qs| && forall i :: 0 <= i < |rs| ==> ResultValue(rs[i]) == ResultValue(qs[i])
    ensures InjectMembers(ms, rs) == InjectMembers(ms, qs)
    decreases ms, 1
  {
    if ms == [] {
    } else {
      InjectSeesOnlyValues(ms[0].value, rs, qs);
      InjectMembersSeesOnlyValues(ms[1..], rs, qs);
    }
  }

  lemma {:induction false} InjectItemsSeesOnlyValues(items: seq<Json>, rs: seq<Json>, qs: seq<Json>)
    requires |rs| == |qs| && forall i :: 0 <= i < |rs| ==> ResultValue(rs[i]) == ResultValue(qs[i])
    ensures InjectItems(items, rs) == InjectItems(items, qs)
    decreases items, 1
  {
    if items == [] {
    } else {
      InjectSeesOnlyValues(items[0], rs, qs);
      InjectItemsSeesOnlyValues(items[1..], rs, qs);
    }
  }

  // ---------- Before there is any response ----------

  /** What is wrong with a reference while there is no response. */
  function BareError(index: string): Error {
    var parsed := ParseIndex(index);
    if parsed.OutOfRange? || (parsed.Number? && parsed.n < 0) then Uncaught else MalformedTransaction
  }

  /** The index text of the reference that is met first. */
  function FirstReference(j: Json): Option<string>
    decreases j
  {
    match j
    case Obj(ms) => FirstOfMembers(ms)
    case Arr(items) => FirstOfItems(items)
    case _ => if IsReference(j) then Some(IndexText(j)) else None
  }

  function FirstOfMembers(ms: seq<Member>): Option<string>
    decreases ms
  {
    if ms == [] then None
    else
      var first := FirstReference(ms[0].value);
      if first.Some? then first else FirstOfMembers(ms[1..])
  }

  function FirstOfItems(items: seq<Json>): Option<string>
    decreases items
  {
    if items == [] then None
    else
      var first := FirstReference(items[0]);
      if first.Some? then first else FirstOfItems(items[1..])
  }

  /** Injection then fails as the first reference does, and changes nothing when there is none. */
  lemma {:induction false} BareInjection(j: Json)
    ensures Inject(j, []) == if FirstReference(j).Some? then Fail(BareError(FirstReference(j).value)) else Ok(j)
    decreases j
  {
    match j {
      case Obj(ms) => BareMembers(ms);
      case Arr(items) => BareItems(items);
      case _ =>
    }
  }

  lemma {:induction false} BareMembers(ms: seq<Member>)
    ensures InjectMembers(ms, []) ==
            if FirstOfMembers(ms).Some? then Fail(BareError(FirstOfMembers(ms).value)) else Ok(ms)
    decreases ms
  {
    if ms == [] {
    } else {
      BareInjection(ms[0].value);
      BareMembers(ms[1..]);
      assert ms == [Member(ms[0].key, ms[0].value)] + ms[1..];
    }
  }

  lemma {:induction false} BareItems(items: seq<Json>)
    ensures InjectItems(items, []) ==
            if FirstOfItems(items).Some? then Fail(BareError(FirstOfItems(items).value)) else Ok(items)
    decreases items
  {
    if items == [] {
    } else {
      BareInjection(items[0]);
      BareItems(items[1..]);
      assert items == [items[0]] + items[1..];
    }
  }

  // ---------- What a reference stands for, read off the response ----------

  /** The reference to a position takes the "value" member of the result at that position. */
  lemma {:induction false} ReferenceTakesValue(n: nat, responses: seq<Json>, ms: seq<Member>)
    requires n < 0x8000_0000 && n < |responses| && responses[n] == Obj(ms)
    ensures var j, result := Inject(Str("newref:" + Decimal(n)), responses), Get(ms, "result");
            && (!Has(ms, "result") ==> j == Fail(MalformedTransaction))
            && (Has(ms, "result") && result.Obj? ==> j == Ok(Get(result.members, "value")))
            && (Has(ms, "result") && result.Null? ==> j == Ok(Null))
            && (Has(ms, "result") && !result.Obj? && !result.Null? ==> j == Fail(Uncaught))
  {
    NumeralRefersToPosition(n);
  }

  /** A position without a response is refused. */
  lemma {:induction false} NoResponseThere(n: nat, responses: seq<Json>)
    requires |responses| <= n < 0x8000_0000
    ensures Inject(Str("newref:" + Decimal(n)), responses) == Fail(MalformedTransaction)
  {
    NumeralRefersToPosition(n);
  }

  /** A negative position, and one beyond 31 bits, end in exceptions that are not caught. */
  lemma {:induction false} PositionOutOfRange(n: nat, responses: seq<Json>)
    ensures n > 0 ==> Inject(Str("newref:-" + Decimal(n)), responses) == Fail(Uncaught)
    ensures n >= 0x8000_0000 ==> Inject(Str("newref:" + Decimal(n)), responses) == Fail(Uncaught)
  {
    DecimalDigits(n);
    LeadingDigitsOfDecimal(n);
    var minus := "-" + Decimal(n);
    assert minus[1..] == Decimal(n);
    assert "newref:-" + Decimal(n) == NEW_REF + minus;
    assert (NEW_REF + minus)[|NEW_REF|..] == minus && (NEW_REF + minus)[..|NEW_REF|] == NEW_REF;
    assert (NEW_REF + Decimal(n))[|NEW_REF|..] == Decimal(n) && (NEW_REF + Decimal(n))[..|NEW_REF|] == NEW_REF;
  }

  /** Text that does not start like a number is refused. */
  lemma {:induction false} NotAPosition(text: string, responses: seq<Json>)
    requires text != "" && !IsDigit(text[0]) && !IsSpace(text[0]) && text[0] != '+' && text[0] != '-'
    ensures Inject(Str("newref:" + text), responses) == Fail(MalformedTransaction)
  {
    assert (NEW_REF + text)[|NEW_REF|..] == text && (NEW_REF + text)[..|NEW_REF|] == NEW_REF;
  }

  /** Every other string stays as it is. */
  lemma {:induction false} OtherStringsStay(s: string, responses: seq<Json>)
    requires !("newref:" < s)
    ensures Inject(Str(s), responses) == Ok(Str(s))
  {}

  /** Members are replaced under their keys, and none is added or lost. */
  lemma {:induction false} MembersInjected(ms: seq<Member>, responses: seq<Json>, key: string)
    requires Inject(Obj(ms), responses).Ok?
    ensures var j := Inject(Obj(ms), responses).value;
            && j.Obj? && (Has(j.members, key) <==> Has(ms, key))
            && (Has(ms, key) ==> Inject(Get(ms, key), responses) == Ok(Get(j.members, key)))
  {
    MembersPointwise(ms, responses);
    SameKeysSameGet(ms, Inject(Obj(ms), responses).value.members, key, responses);
  }
}
