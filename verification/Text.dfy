/** Joining and splitting text at a separator, and decimal numerals. */
module Text {

  function Join(parts: seq<string>, sep: char): string {
    if parts == [] then ""
    else if |parts| == 1 then parts[0]
    else parts[0] + [sep] + Join(parts[1..], sep)
  }

  /** The index of the first `c`, or the length when there is none. */
  function IndexOf(s: string, c: char): (i: nat)
    ensures i <= |s| && c !in s[..i]
    ensures i < |s| ==> s[i] == c
    ensures i < |s| <==> c in s
  {
    if s == "" then 0
    else if s[0] == c then 0
    else
      var j := IndexOf(s[1..], c);
      assert s[..j + 1] == [s[0]] + s[1..][..j];
      assert s == [s[0]] + s[1..];
      j + 1
  }

  /** Every piece between separators: always one more than there are separators. */
  function SplitAll(s: string, sep: char): seq<string>
    decreases |s|
  {
    var i := IndexOf(s, sep);
    if i == |s| then [s] else [s[..i]] + SplitAll(s[i + 1..], sep)
  }

  /** What repeated line reading yields: an empty piece after the last separator is not read. */
  function Lines(s: string, sep: char): seq<string>
    decreases |s|
  {
    var i := IndexOf(s, sep);
    if s == "" then [] else if i == |s| then [s] else [s[..i]] + Lines(s[i + 1..], sep)
  }

  predicate Free(parts: seq<string>, sep: char) {
    forall i :: 0 <= i < |parts| ==> sep !in parts[i]
  }

  lemma {:induction false} IndexInConcat(a: string, b: string, c: char)
    requires c !in a
    ensures IndexOf(a + [c] + b, c) == |a|
  {
    if a == "" {
    } else {
      assert (a + [c] + b)[1..] == a[1..] + [c] + b;
      IndexInConcat(a[1..], b, c);
    }
  }

  /** A text is cut at its first separator in one way only. */
  lemma CutOnce(a: string, b: string, c: string, d: string, sep: char)
    requires sep !in a && sep !in c && a + [sep] + b == c + [sep] + d
    ensures a == c && b == d
  {
    var s := a + [sep] + b;
    IndexInConcat(a, b, sep);
    IndexInConcat(c, d, sep);
    assert a == s[..|a|] && b == s[|a| + 1..];
    assert c == s[..|c|] && d == s[|c| + 1..];
  }

  /** So it is at its last separator. */
  lemma CutLast(a: string, b: string, c: string, d: string, sep: char)
    requires sep !in b && sep !in d && a + [sep] + b == c + [sep] + d
    ensures a == c && b == d
  {
    var s := a + [sep] + b;
    assert s[|a|] == sep && s[|c|] == sep;
    assert b == s[|a| + 1..] && d == s[|c| + 1..];
    assert a == s[..|a|] && c == s[..|c|];
  }

  lemma {:induction false} SplitStep(head: string, tail: string, sep: char)
    requires sep !in head
    ensures SplitAll(head + [sep] + tail, sep) == [head] + SplitAll(tail, sep)
  {
    var s := head + [sep] + tail;
    IndexInConcat(head, tail, sep);
    assert s[..|head|] == head && s[|head| + 1..] == tail;
  }

  /** Splitting a joined list gives the list back when no part contains the separator. */
  lemma {:induction false} SplitJoin(parts: seq<string>, sep: char)
    requires parts != [] && Free(parts, sep)
    ensures SplitAll(Join(parts, sep), sep) == parts
  {
    if |parts| == 1 {
    } else {
      SplitStep(parts[0], Join(parts[1..], sep), sep);
      SplitJoin(parts[1..], sep);
      hide SplitAll;
      assert parts == [parts[0]] + parts[1..];
    }
  }

  /** A text without a separator at its end; what repeated line reading keeps. */
  function WithoutLast(s: string, sep: char): string {
    if s != "" && s[|s| - 1] == sep then s[..|s| - 1] else s
  }

  lemma WithoutLastAfter(head: string, tail: string, sep: char)
    requires tail != ""
    ensures WithoutLast(head + [sep] + tail, sep) == head + [sep] + WithoutLast(tail, sep)
  {}

  lemma {:induction false} JoinCons(head: string, parts: seq<string>, sep: char)
    requires parts != []
    ensures Join([head] + parts, sep) == head + [sep] + Join(parts, sep)
  {
    assert ([head] + parts)[1..] == parts;
  }

  /** Joining what was read gives the text back, but for one separator at its end. */
  lemma {:induction false} JoinLines(s: string, sep: char)
    ensures Join(Lines(s, sep), sep) == WithoutLast(s, sep)
    decreases |s|
  {
    var i := IndexOf(s, sep);
    if s == "" || i == |s| {
    } else {
      var head, tail := s[..i], s[i + 1..];
      assert s == head + [sep] + tail;
      if tail != "" {
        JoinLines(tail, sep);
        WithoutLastAfter(head, tail, sep);
        LinesNonEmpty(tail, sep);
        JoinCons(head, Lines(tail, sep), sep);
      }
    }
  }

  /** Reading one line takes the text up to the first separator or to the end. */
  lemma {:induction false} LinesStep(s: string, i: nat, sep: char)
    requires s != "" && i <= |s| && sep !in s[..i] && (i < |s| ==> s[i] == sep)
    ensures Lines(s, sep) == [s[..i]] + if i < |s| then Lines(s[i + 1..], sep) else []
  {
    if i < |s| {
      assert s == s[..i] + [sep] + s[i + 1..];
      IndexInConcat(s[..i], s[i + 1..], sep);
    } else {
      assert s[..i] == s;
    }
  }

  /** No piece that is read holds a separator. */
  lemma {:induction false} LinesAreFree(s: string, sep: char)
    ensures Free(Lines(s, sep), sep)
    decreases |s|
  {
    var i := IndexOf(s, sep);
    if s == "" || i == |s| {
    } else {
      LinesAreFree(s[i + 1..], sep);
    }
  }

  lemma {:induction false} LinesNonEmpty(s: string, sep: char)
    requires s != ""
    ensures Lines(s, sep) != []
  {}

  lemma {:induction false} JoinSnoc(parts: seq<string>, part: string, sep: char)
    ensures Join(parts + [part], sep) == if parts == [] then part else Join(parts, sep) + [sep] + part
  {
    var longer := parts + [part];
    if |parts| > 1 {
      assert longer[1..] == parts[1..] + [part] && longer[0] == parts[0];
      JoinSnoc(parts[1..], part, sep);
      var front := parts[0] + [sep];
      assert front + (Join(parts[1..], sep) + [sep] + part) == (front + Join(parts[1..], sep)) + [sep] + part;
    } else if |parts| == 1 {
      assert longer[1..] == [part];
    }
  }

  lemma {:induction false} LinesOfOne(s: string, sep: char)
    requires s != "" && sep !in s
    ensures Lines(s, sep) == [s]
  {}

  lemma {:induction false} LinesCons(head: string, tail: string, sep: char)
    requires sep !in head
    ensures Lines(head + [sep] + tail, sep) == [head] + Lines(tail, sep)
  {
    var s := head + [sep] + tail;
    assert s[..|head|] == head && s[|head| + 1..] == tail;
    LinesStep(s, |head|, sep);
  }

  /** Reading a joined list gives it back when no part contains the separator and the last one is
      not empty. */
  lemma {:induction false} LinesJoin(parts: seq<string>, sep: char)
    requires parts != [] && Free(parts, sep) && parts[|parts| - 1] != ""
    ensures Lines(Join(parts, sep), sep) == parts
  {
    hide Lines;
    if |parts| == 1 {
      LinesOfOne(parts[0], sep);
    } else {
      LinesCons(parts[0], Join(parts[1..], sep), sep);
      LinesJoin(parts[1..], sep);
      assert parts == [parts[0]] + parts[1..];
    }
  }

  // ---------- Decimal numerals ----------

  function Digit(d: nat): char
    requires d < 10
  {
    '0' + d as char
  }

  function Decimal(n: nat): string {
    if n < 10 then [Digit(n)] else Decimal(n / 10) + [Digit(n % 10)]
  }

  predicate IsDigit(c: char) { '0' <= c <= '9' }

  function DigitValue(c: char): nat
    requires IsDigit(c)
  {
    (c - '0') as nat
  }

  lemma {:induction false} DecimalDigits(n: nat)
    ensures Decimal(n) != "" && forall i :: 0 <= i < |Decimal(n)| ==> IsDigit(Decimal(n)[i])
  {
    if n < 10 {
    } else {
      DecimalDigits(n / 10);
    }
  }

  /** Different numbers have different numerals. */
  lemma {:induction false} DecimalInjective(m: nat, n: nat)
    requires Decimal(m) == Decimal(n)
    ensures m == n
  {
    DecimalDigits(m / 10);
    DecimalDigits(n / 10);
    var s := Decimal(m);
    assert Digit(m % 10) == s[|s| - 1] == Digit(n % 10);
    if m >= 10 && n >= 10 {
      assert Decimal(m / 10) == s[..|s| - 1] == Decimal(n / 10);
      DecimalInjective(m / 10, n / 10);
    }
  }

  lemma DecimalsInPlainTerms()
    ensures Decimal(0) == "0" && Decimal(7) == "7" && Decimal(10) == "10" && Decimal(98) == "98"
    ensures Decimal(2456) == "2456" && Decimal(31) == "31"
  {
    assert Decimal(2) == "2" && Decimal(24) == "24" && Decimal(245) == "245";
  }
}
