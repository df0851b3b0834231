/** Printing numbers into fixed buffers without the heap, as the crash handler does. */
module NumberPrinting {
  import opened Options

  const HEX_DIGITS := "0123456789ABCDEF"
  const NUL: char := '\0'
  /** The length of the buffer a number is printed into, with its terminator. */
  const RES_MAX_LENGTH := 32
  const UINT64_LIMIT := 0x1_0000_0000_0000_0000
  const INT32_LIMIT := 0x8000_0000

  function Pow(base: nat, e: nat): nat {
    if e == 0 then 1 else base * Pow(base, e - 1)
  }

  // ---------- Reading numerals back ----------

  predicate IsNumeral(s: string, base: nat) {
    forall i :: 0 <= i < |s| ==> exists d :: 0 <= d < base && d < 16 && s[i] == HEX_DIGITS[d]
  }

  function HexValue(c: char): nat {
    if '0' <= c <= '9' then (c - '0') as nat
    else if 'A' <= c <= 'F' then 10 + (c - 'A') as nat
    else 0
  }

  /** The number a numeral denotes, most significant digit first. */
  function Parse(s: string, base: nat): nat {
    if s == "" then 0 else Parse(s[..|s| - 1], base) * base + HexValue(s[|s| - 1])
  }

  lemma DigitRoundTrip(d: nat)
    requires d < 16
    ensures HexValue(HEX_DIGITS[d]) == d && HEX_DIGITS[d] != NUL
  {}

  /** The sixteen digits in the order of their values. */
  lemma DigitsInOrder()
    ensures Parse("10", 16) == 16 && Parse("123", 10) == 123 && Parse("9A", 16) == 154 && Parse("BCDEF", 16) == 773615
  {
    assert "10"[..1] == "1" && "123"[..2] == "12" && "12"[..1] == "1" && "9A"[..1] == "9";
    assert "BCDEF"[..4] == "BCDE" && "BCDE"[..3] == "BCD" && "BCD"[..2] == "BC" && "BC"[..1] == "B";
    assert "1"[..0] == "" && "9"[..0] == "" && "B"[..0] == "";
    assert Parse("1", 10) == 1 && Parse("12", 10) == 12 && Parse("1", 16) == 1 && Parse("9", 16) == 9;
    assert Parse("B", 16) == 11 && Parse("BC", 16) == 188 && Parse("BCD", 16) == 3021 && Parse("BCDE", 16) == 48350;
  }

  lemma {:induction false} PowAdd(base: nat, m: nat, n: nat)
    ensures Pow(base, m + n) == Pow(base, m) * Pow(base, n)
  {
    if m == 0 {
    } else {
      PowAdd(base, m - 1, n);
      ProductAssociates(base, Pow(base, m - 1), Pow(base, n));
    }
  }

  lemma ProductAssociates(a: nat, b: nat, c: nat)
    ensures a * (b * c) == (a * b) * c
  {}

  lemma {:induction false} PowPositive(base: nat, e: nat)
    requires base > 0
    ensures Pow(base, e) > 0
  {
    if e == 0 {
    } else {
      PowPositive(base, e - 1);
    }
  }

  lemma {:induction false} PowMonotone(a: nat, b: nat, e: nat)
    requires 0 < a <= b
    ensures Pow(a, e) <= Pow(b, e)
  {
    if e == 0 {
    } else {
      PowMonotone(a, b, e - 1);
      ProductMonotone(a, b, Pow(a, e - 1), Pow(b, e - 1));
    }
  }

  lemma ProductMonotone(a: nat, b: nat, x: nat, y: nat)
    requires a <= b && x <= y
    ensures a * x <= b * y
  {
    assert a * x <= a * y;
  }

  /** Putting a digit in front adds its value times its weight. */
  lemma {:induction false} ParseFront(c: char, s: string, base: nat)
    ensures Parse([c] + s, base) == HexValue(c) * Pow(base, |s|) + Parse(s, base)
  {
    var t := [c] + s;
    if s == "" {
      assert t[..0] == "";
    } else {
      var front := s[..|s| - 1];
      assert t[..|t| - 1] == [c] + front && t[|t| - 1] == s[|s| - 1];
      ParseFront(c, front, base);
      assert Pow(base, |s|) == base * Pow(base, |front|);
      Distribute(HexValue(c), Pow(base, |front|), Parse(front, base), base);
    }
  }

  lemma Distribute(d: nat, w: nat, p: nat, base: nat)
    ensures (d * w + p) * base == d * (base * w) + p * base
  {}

  // ---------- Printing ----------

  /** The digits of the loop so far stand for the part of the number divided away. */
  ghost predicate Printed(val: nat, rest: nat, digits: string, base: nat) {
    val == rest * Pow(base, |digits|) + Parse(digits, base) && Parse(digits, base) < Pow(base, |digits|)
  }

  lemma PrintedStep(val: nat, rest: nat, digits: string, base: nat)
    requires 2 <= base <= 16 && Printed(val, rest, digits, base)
    ensures Printed(val, rest / base, [HEX_DIGITS[rest % base]] + digits, base)
  {
    hide Pow, Parse, HexValue;
    var d, q, w, p := rest % base, rest / base, Pow(base, |digits|), Parse(digits, base);
    DigitRoundTrip(d);
    ParseFront(HEX_DIGITS[d], digits, base);
    PowStep(base, |digits|);
    DivideAndMultiply(rest, base);
    StepArithmetic(rest, q, base, d, w, p);
    assert |[HEX_DIGITS[d]] + digits| == |digits| + 1;
  }

  lemma PowStep(base: nat, e: nat)
    ensures Pow(base, e + 1) == base * Pow(base, e)
  {}

  lemma DivideAndMultiply(n: nat, base: nat)
    requires base > 0
    ensures n == (n / base) * base + n % base && 0 <= n % base < base
  {}

  lemma StepArithmetic(rest: nat, q: nat, base: nat, d: nat, w: nat, p: nat)
    requires rest == q * base + d && d < base && p < w
    ensures rest * w + p == q * (base * w) + (d * w + p)
    ensures d * w + p < base * w
  {
    SumTimes(q * base, d, w);
    ProductAssociates(q, base, w);
    SumTimes(d, 1, w);
    ProductMonotone(d + 1, base, w, w);
  }

  lemma SumTimes(x: nat, y: nat, w: nat)
    ensures (x + y) * w == x * w + y * w
  {}

  lemma ProductApart(m: int, w: nat)
    requires m != 0
    ensures m * w >= w || m * w + w <= 0
  {
    if m > 0 { ProductMonotone(1, m, w, w); } else { ProductMonotone(1, -m, w, w); }
  }

  lemma DifferenceTimes(k: int, q: int, w: int)
    ensures (k - q) * w == k * w - q * w
  {}

  lemma RemainderUnique(q: nat, w: nat, p: nat)
    requires p < w
    ensures (q * w + p) % w == p
  {
    var n := q * w + p;
    var k, r := n / w, n % w;
    assert n == k * w + r && 0 <= r < w;
    DifferenceTimes(k, q, w);
    if k != q { ProductApart(k - q, w); }
  }

  /** The numeral stands for the number as far as 30 digits go, and for exactly the number
      when they suffice. */
  ghost predicate Denotes(numeral: string, val: nat, base: nat) {
    && numeral != "" && |numeral| <= 30 && IsNumeral(numeral, base)
    && Pow(base, 30) > 0
    && Parse(numeral, base) == val % Pow(base, 30)
    && (Parse(numeral, base) == val <==> val < Pow(base, 30))
  }

  ghost predicate Untouched(before: seq<char>, after: seq<char>, at: nat) {
    |before| == |after| &&
    forall k :: 0 <= k < |after| && !(at <= k < at + RES_MAX_LENGTH) ==> after[k] == before[k]
  }

  /** Where the numeral ends: zero is printed at the front, everything else at the back. */
  function EndOf(val: nat, at: nat): nat {
    if val == 0 then at + 1 else at + RES_MAX_LENGTH - 1
  }

  /** The loop both conversions share: digits from the right end of the 32 characters at `at`,
      until nothing is left of the number or one place is. */
  method PrintDigits(val: nat, memory: array<char>, at: nat, base: nat) returns (start: nat)
    requires 0 < val < UINT64_LIMIT && 2 <= base <= 16
    requires at + RES_MAX_LENGTH <= memory.Length
    modifies memory
    ensures Untouched(old(memory[..]), memory[..], at)
    ensures at <= start < EndOf(val, at) && memory[EndOf(val, at)] == NUL
    ensures Denotes(memory[start..EndOf(val, at)], val, base)
    ensures val < Pow(base, 30) ==> memory[start] != '0'
    ensures base == 16 ==> EndOf(val, at) - start <= 16
  {
    hide Printed, Denotes, IsNumeral, Parse, Pow;
    var end := at + RES_MAX_LENGTH - 1;
    memory[end] := NUL;
    var i := RES_MAX_LENGTH - 2;
    var rest: nat := val;
    assert memory[at + i + 1..end] == "";
    NothingPrinted(val, base);
    while rest != 0 && i != 0
      invariant 0 <= i <= RES_MAX_LENGTH - 2 && (base == 16 ==> i >= 14)
      invariant rest == val || i < RES_MAX_LENGTH - 2
      invariant memory[end] == NUL && Untouched(old(memory[..]), memory[..], at)
      invariant IsNumeral(memory[at + i + 1..end], base)
      invariant Printed(val, rest, memory[at + i + 1..end], base)
      invariant rest == 0 ==> memory[at + i + 1] != '0'
      decreases i
    {
      ghost var digits := memory[at + i + 1..end];
      if base == 16 && i == 14 { SixteenSuffice(val, rest, digits); }
      LoopStep(val, rest, digits, base);
      LeadingDigit(rest, base);
      var digit, next := HEX_DIGITS[rest % base], rest / base;
      memory[at + i] := digit;
      assert memory[at + i..end] == [digit] + digits;
      i := i - 1;
      rest := next;
    }
    start := at + i + 1;
    FinalValue(val, rest, memory[start..end], base);
  }

  /** Prints an unsigned number; the numeral starts at the returned offset and ends before a
      terminator, all within the 32 characters. */
  method Utoa(val: nat, memory: array<char>, at: nat, base: nat) returns (start: nat)
    requires val < UINT64_LIMIT && 2 <= base <= 16
    requires at + RES_MAX_LENGTH <= memory.Length
    modifies memory
    ensures Untouched(old(memory[..]), memory[..], at)
    ensures at <= start < EndOf(val, at) && memory[EndOf(val, at)] == NUL
    ensures Denotes(memory[start..EndOf(val, at)], val, base)
    ensures 0 < val < Pow(base, 30) ==> memory[start] != '0'
    ensures base == 16 ==> EndOf(val, at) - start <= 16
  {
    if val == 0 {
      memory[at] := '0';
      memory[at + 1] := NUL;
      ZeroDenotes(memory[at..at + 1], base);
      return at;
    }
    start := PrintDigits(val, memory, at, base);
  }

  // Division of signed numbers goes toward zero, and the remainder takes the sign of the number.
  function Quotient(val: int, base: nat): int
    requires base > 0
  {
    if val >= 0 then val / base else -(-val / base)
  }

  function Remainder(val: int, base: nat): int
    requires base > 0
  {
    if val >= 0 then val % base else -(-val % base)
  }

  /** Prints a signed number, or `None` where a digit would be looked up at a negative index. That
      happens to nearly every negative number, whose remainders are negative: only where 30 of them
      are zero is there a result, and it is a sign and 30 zeros. */
  method Itoa(val: int, memory: array<char>, base: nat) returns (start: Option<nat>)
    requires -INT32_LIMIT <= val < INT32_LIMIT && 2 <= base <= 16
    requires RES_MAX_LENGTH <= memory.Length
    modifies memory
    ensures Untouched(old(memory[..]), memory[..], 0)
    ensures start.Some? <==> val >= 0 || (base == 2 && val in {-0x4000_0000, -0x8000_0000})
    ensures val >= 0 ==>
              && start.value < EndOf(val, 0) && memory[EndOf(val, 0)] == NUL
              && Denotes(memory[start.value..EndOf(val, 0)], val, base)
              && (0 < val < Pow(base, 30) ==> memory[start.value] != '0')
              && (base >= 3 ==> Parse(memory[start.value..EndOf(val, 0)], base) == val)
    ensures val < 0 && start.Some? ==>
              && start.value == 0 && memory[0] == '-' && memory[31] == NUL
              && forall k :: 1 <= k < 31 ==> memory[k] == '0'
  {
    if base >= 3 { ExactFromBaseThree(base, if val >= 0 then val else -val); }
    if val == 0 {
      memory[0] := '0';
      memory[1] := NUL;
      ZeroDenotes(memory[0..1], base);
      return Some(0);
    }
    if val > 0 {
      var begin := PrintDigits(val, memory, 0, base);
      return Some(begin);
    }
    start := PrintNegative(val, memory, base);
    WholeMultiples(-val, base);
  }

  /** The same loop for a negative number, and the sign. */
  method PrintNegative(val: int, memory: array<char>, base: nat) returns (start: Option<nat>)
    requires -INT32_LIMIT <= val < 0 && 2 <= base <= 16
    requires RES_MAX_LENGTH <= memory.Length
    modifies memory
    ensures Untouched(old(memory[..]), memory[..], 0)
    ensures start.Some? <==> exists q: nat :: -val == q * Pow(base, 30)
    ensures start.Some? ==>
              && start.value == 0 && memory[0] == '-' && memory[31] == NUL
              && forall k :: 1 <= k < 31 ==> memory[k] == '0'
  {
    hide Pow;
    memory[RES_MAX_LENGTH - 1] := NUL;
    var i := RES_MAX_LENGTH - 2;
    var rest := val;
    PowZero(base);
    while rest != 0 && i != 0
      invariant 0 <= i <= 30 && rest < 0 && -val == -rest * Pow(base, 30 - i)
      invariant memory[31] == NUL && Untouched(old(memory[..]), memory[..], 0)
      invariant forall k :: i < k < 31 ==> memory[k] == '0'
      decreases i
    {
      if Remainder(rest, base) < 0 {
        NotAMultiple(-val, -rest, base, 30 - i);
        return None;
      }
      memory[i] := HEX_DIGITS[Remainder(rest, base)];
      WholeStep(-rest, base, 30 - i);
      rest := Quotient(rest, base);
      i := i - 1;
    }
    memory[i] := '-';
    return Some(i);
  }

  lemma {:induction false} PowZero(base: nat)
    ensures Pow(base, 0) == 1
  {}

  lemma WholeStep(m: nat, base: nat, k: nat)
    requires m > 0 && base > 0 && m % base == 0
    ensures m / base > 0 && (m / base) * Pow(base, k + 1) == m * Pow(base, k)
  {
    var q := m / base;
    assert m == q * base;
    ProductAssociates(q, base, Pow(base, k));
  }

  /** A number with a digit other than zero among its last 30 is no multiple of the 30th power. */
  lemma {:induction false} NotAMultiple(val: nat, rest: nat, base: nat, k: nat)
    requires base > 0 && k < 30 && val == rest * Pow(base, k) && rest % base != 0
    ensures !exists q: nat :: val == q * Pow(base, 30)
  {
    if q: nat :| val == q * Pow(base, 30) {
      var w, more := Pow(base, k), Pow(base, 29 - k);
      PowAdd(base, 30 - k, k);
      PowPositive(base, k);
      assert Pow(base, 30) == (base * more) * w;
      ProductAssociates(q, base * more, w);
      DifferenceTimes(rest, q * (base * more), w);
      if rest != q * (base * more) { ProductApart(rest - q * (base * more), w); }
      Multiple(q, base, more);
    }
  }

  lemma Multiple(q: nat, base: nat, more: nat)
    requires base > 0
    ensures (q * (base * more)) % base == 0
  {
    assert q * (base * more) == (q * more) * base + 0;
    RemainderUnique(q * more, base, 0);
  }

  /** Among the magnitudes of 32-bit numbers, two are multiples of a 30th power. */
  lemma {:induction false} WholeMultiples(m: nat, base: nat)
    requires 0 < m <= INT32_LIMIT && 2 <= base <= 16
    ensures (exists q: nat :: m == q * Pow(base, 30)) <==> base == 2 && m in {0x4000_0000, 0x8000_0000}
  {
    if base == 2 {
      PowSixteen(2);
      PowThirty(2);
      var w := 0x4000_0000;
      assert Pow(base, 30) == w;
      assert 1 * w == w && 2 * w == 0x8000_0000;
      if m == 0x4000_0000 { assert m == 1 * Pow(base, 30); }
      if m == 0x8000_0000 { assert m == 2 * Pow(base, 30); }
    } else {
      ExactFromBaseThree(base, m);
      if q: nat :| m == q * Pow(base, 30) {
        if q > 0 { ProductMonotone(1, q, Pow(base, 30), Pow(base, 30)); }
      }
    }
  }

  lemma NothingPrinted(val: nat, base: nat)
    ensures Printed(val, val, "", base) && IsNumeral("", base)
  {}

  lemma LoopStep(val: nat, rest: nat, digits: string, base: nat)
    requires 2 <= base <= 16 && Printed(val, rest, digits, base) && IsNumeral(digits, base)
    ensures rest / base >= 0
    ensures var longer := [HEX_DIGITS[rest % base]] + digits;
            Printed(val, rest / base, longer, base) && IsNumeral(longer, base)
  {
    hide Printed, Pow, Parse;
    PrintedStep(val, rest, digits, base);
  }

  lemma LeadingDigit(rest: nat, base: nat)
    requires 0 < rest && 2 <= base <= 16
    ensures rest / base == 0 ==> HEX_DIGITS[rest % base] != '0'
  {
    DivideAndMultiply(rest, base);
  }

  lemma ZeroDenotes(numeral: string, base: nat)
    requires 2 <= base && numeral == "0"
    ensures Denotes(numeral, 0, base)
  {
    PowPositive(base, 30);
    assert numeral[..0] == "" && numeral[0] == HEX_DIGITS[0];
    RemainderUnique(0, Pow(base, 30), 0);
  }

  lemma PowDouble(base: nat, e: nat)
    ensures Pow(base, e + e) == Pow(base, e) * Pow(base, e)
  {
    PowAdd(base, e, e);
  }

  lemma {:induction false} PowSixteen(base: nat)
    ensures Pow(base, 2) == base * base
    ensures Pow(base, 4) == Pow(base, 2) * Pow(base, 2)
    ensures Pow(base, 8) == Pow(base, 4) * Pow(base, 4)
    ensures Pow(base, 16) == Pow(base, 8) * Pow(base, 8)
  {
    assert Pow(base, 16) == Pow(base, 8) * Pow(base, 8) by { PowDouble(base, 8); }
    assert Pow(base, 8) == Pow(base, 4) * Pow(base, 4) by { PowDouble(base, 4); }
    assert Pow(base, 4) == Pow(base, 2) * Pow(base, 2) by { PowDouble(base, 2); }
    assert Pow(base, 2) == base * base by { assert Pow(base, 1) == base * 1; }
  }

  lemma {:induction false} PowThirty(base: nat)
    ensures Pow(base, 30) == Pow(base, 16) * (Pow(base, 8) * (Pow(base, 4) * Pow(base, 2)))
  {
    PowAdd(base, 4, 2);
    PowAdd(base, 8, 6);
    PowAdd(base, 16, 14);
  }

  /** Sixteen hexadecimal digits use up a 64-bit number. */
  lemma SixteenSuffice(val: nat, rest: nat, digits: string)
    requires val < UINT64_LIMIT && |digits| == 16 && Printed(val, rest, digits, 16)
    ensures rest == 0
  {
    PowSixteen(16);
  }

  lemma {:induction false} FinalValue(val: nat, rest: nat, digits: string, base: nat)
    requires 2 <= base && 0 < |digits| <= 30 && IsNumeral(digits, base) && Printed(val, rest, digits, base)
    requires rest == 0 || |digits| == 30
    ensures Denotes(digits, val, base) && (val < Pow(base, 30) ==> rest == 0)
  {
    hide Pow, Parse, IsNumeral;
    PowPositive(base, 30);
    var w, p := Pow(base, |digits|), Parse(digits, base);
    if rest == 0 {
      var more := Pow(base, 30 - |digits|);
      PowAdd(base, |digits|, 30 - |digits|);
      PowPositive(base, 30 - |digits|);
      ProductMonotone(w, w, 1, more);
      RemainderUnique(0, Pow(base, 30), p);
    } else {
      RemainderUnique(rest, w, p);
      ProductMonotone(1, rest, w, w);
    }
  }

  /** From base 5 on every 64-bit number is printed in full; in base 4 some are not. */
  lemma {:induction false} ExactFromBaseFive(base: nat, val: nat)
    requires 5 <= base && val < UINT64_LIMIT
    ensures val < Pow(base, 30)
    ensures Pow(4, 30) < UINT64_LIMIT
  {
    PowMonotone(5, base, 30);
    PowSixteen(5);
    PowThirty(5);
    PowSixteen(4);
    PowThirty(4);
  }

  /** From base 3 on every 32-bit number is printed in full. */
  lemma {:induction false} ExactFromBaseThree(base: nat, val: nat)
    requires 3 <= base && val <= INT32_LIMIT
    ensures val < Pow(base, 30)
  {
    PowMonotone(3, base, 30);
    PowSixteen(3);
    PowThirty(3);
  }

  lemma NumeralHasNoNul(numeral: string, base: nat)
    requires IsNumeral(numeral, base)
    ensures NUL !in numeral
  {}

  /** Copies the text at `from` with its terminator to `to`, front to back. */
  method StrCpy(memory: array<char>, to: nat, from: nat, ghost end: nat)
    requires to + (end - from) < from <= end < memory.Length
    requires memory[end] == NUL && NUL !in memory[from..end]
    modifies memory
    ensures memory[to..to + (end - from)] == old(memory[from..end]) && memory[to + (end - from)] == NUL
    ensures forall k :: 0 <= k < memory.Length && !(to <= k <= to + (end - from)) ==> memory[k] == old(memory[k])
  {
    ghost var text := memory[from..end];
    var j := 0;
    while memory[from + j] != NUL
      invariant 0 <= j <= end - from
      invariant memory[from..end] == text && memory[end] == NUL
      invariant memory[to..to + j] == text[..j]
      invariant forall k :: 0 <= k < memory.Length && !(to <= k < to + j) ==> memory[k] == old(memory[k])
      decreases end - from - j
    {
      assert memory[from + j] == text[j];
      memory[to + j] := memory[from + j];
      assert text[..j + 1] == text[..j] + [text[j]];
      j := j + 1;
    }
    memory[to + j] := NUL;
  }

  /** The hexadecimal form of an address in a 64-character buffer: printed in the upper half and
      moved behind its prefix, which the two never share a character for. */
  method Ptoa(val: nat, memory: array<char>) returns (ghost length: nat)
    requires val < UINT64_LIMIT && 64 <= memory.Length
    modifies memory
    ensures 0 < length <= 16 && memory[..2] == "0x" && memory[2 + length] == NUL
    ensures IsNumeral(memory[2..2 + length], 16) && Parse(memory[2..2 + length], 16) == val
    ensures forall k :: 64 <= k < memory.Length ==> memory[k] == old(memory[k])
  {
    hide Pow, Parse, IsNumeral;
    ghost var before := memory[..];
    var buf := Utoa(val, memory, 32, 16);
    ghost var end := EndOf(val, 32);
    length := end - buf;
    ghost var numeral := memory[buf..end];
    NumeralHasNoNul(numeral, 16);
    ExactFromBaseFive(16, val);
    assert forall k :: 64 <= k < memory.Length ==> memory[..][k] == before[k];
    StrCpy(memory, 2, buf, end);
    memory[0] := '0';
    memory[1] := 'x';
    assert memory[2..2 + length] == numeral;
  }
}
