/** Luhn mod 32 check characters. */
module Luhn {
  import opened Base32

  function CharValue(c: char): Code {
    if CodeOf(c).Some? then CodeOf(c).value else 0
  }

  function Values(s: string): (v: seq<Code>)
    ensures |v| == |s| && forall i :: 0 <= i < |s| ==> v[i] == CharValue(s[i])
  {
    seq(|s|, i requires 0 <= i < |s| => CharValue(s[i]))
  }

  /** Twice the code, its base-32 digits added up. */
  function Doubled(c: Code): Code {
    (2 * c) / 32 + (2 * c) % 32
  }

  /** What the code at position `i` adds: every second one is doubled. */
  function Addend(i: nat, c: Code): Code {
    if i % 2 == 0 then c else Doubled(c)
  }

  ghost function Sum(v: seq<Code>): nat {
    if v == [] then 0 else Sum(v[..|v| - 1]) + Addend(|v| - 1, v[|v| - 1])
  }

  function CheckCode(sum: nat): Code {
    (32 - sum % 32) % 32
  }

  ghost function CheckChar(s: string): char {
    Symbol(CheckCode(Sum(Values(s))))
  }

  lemma {:induction false} SumSnoc(s: string, i: nat)
    requires i < |s|
    ensures Sum(Values(s)[..i + 1]) == Sum(Values(s)[..i]) + Addend(i, CharValue(s[i]))
  {
    hide Addend, CharValue;
    assert Values(s)[..i + 1][..i] == Values(s)[..i];
  }

  method Luhn32Char(s: string) returns (c: char)
    ensures c == CheckChar(s)
  {
    hide CharValue, Sum, Symbol, Values;
    var factor, sum: nat := 1, 0;
    assert Sum(Values(s)[..0]) == 0 by { NothingToSum(s); }
    for i := 0 to |s|
      invariant factor == if i % 2 == 0 then 1 else 2
      invariant sum == Sum(Values(s)[..i])
    {
      SumSnoc(s, i);
      var addend := factor * CharValue(s[i]);
      factor := if factor == 2 then 1 else 2;
      addend := addend / 32 + addend % 32;
      sum := sum + addend;
    }
    assert Values(s)[..|s|] == Values(s);
    var check := CheckCode(sum);
    SymbolIsAlphabet(check);
    return ALPHABET[check];
  }

  lemma {:induction false} NothingToSum(s: string)
    ensures Sum(Values(s)[..0]) == 0
  {
  }

  /** Thirteen data characters followed by their check character. */
  ghost predicate GroupValid(g: string) {
    |g| == 14 && g[13] == CheckChar(g[..13])
  }

  // ---- What the check character detects ----

  lemma {:induction false} DoublingShift(c: Code)
    ensures Doubled(c) == if c < 16 then 2 * c else 2 * c - 31
  {
  }

  lemma {:induction false} AddendInjective(i: nat, a: Code, b: Code)
    requires Addend(i, a) == Addend(i, b)
    ensures a == b
  {
    hide Doubled;
    DoublingShift(a);
    DoublingShift(b);
  }

  lemma {:induction false} SumUpdate(v: seq<Code>, i: nat, x: Code)
    requires i < |v|
    ensures Sum(v[i := x]) == Sum(v) - Addend(i, v[i]) + Addend(i, x)
    decreases |v|
  {
    hide Addend;
    var n := |v| - 1;
    var w := v[i := x];
    if i == n {
      assert w[..n] == v[..n];
    } else {
      SumUpdate(v[..n], i, x);
      assert w[..n] == v[..n][i := x];
    }
  }

  lemma {:induction false} ValuesUpdate(s: string, i: nat, c: char)
    requires i < |s|
    ensures Values(s[i := c]) == Values(s)[i := CharValue(c)]
  {
  }

  lemma {:induction false} SymbolInjective(a: Code, b: Code)
    requires Symbol(a) == Symbol(b)
    ensures a == b
  {
  }

  /** Equal check characters mean equal sums modulo 32. */
  lemma {:induction false} SameCheckIff(a: nat, b: nat)
    ensures Symbol(CheckCode(a)) == Symbol(CheckCode(b)) <==> a % 32 == b % 32
  {
    if Symbol(CheckCode(a)) == Symbol(CheckCode(b)) {
      SymbolInjective(CheckCode(a), CheckCode(b));
    }
  }

  /** Replacing one data character keeps a valid group valid exactly when both characters
      have the same value; any other check character is rejected. */
  lemma {:induction false} SubstitutionDetected(g: string, i: nat, c: char)
    requires GroupValid(g) && i < 14
    ensures i < 13 ==> (GroupValid(g[i := c]) <==> CharValue(c) == CharValue(g[i]))
    ensures i == 13 ==> (GroupValid(g[i := c]) <==> c == g[i])
  {
    hide Addend, CharValue, Sum, CheckCode, Symbol, Values;
    var data := g[..13];
    if i < 13 {
      assert g[i := c][..13] == data[i := c];
      ValuesUpdate(data, i, c);
      SumUpdate(Values(data), i, CharValue(c));
      SameCheckIff(Sum(Values(data)), Sum(Values(data[i := c])));
      var x, y := CharValue(g[i]), CharValue(c);
      if Addend(i, x) == Addend(i, y) {
        AddendInjective(i, x, y);
      }
    } else {
      assert g[i := c][..13] == data;
    }
  }

  /** The two values that a swap of neighbours confuses. */
  predicate Confusable(a: Code, b: Code) {
    a == b || (a == 0 && b == 31) || (a == 31 && b == 0)
  }

  lemma {:induction false} SwapAddends(i: nat, a: Code, b: Code)
    ensures (Addend(i, a) + Addend(i + 1, b) - Addend(i, b) - Addend(i + 1, a)) % 32 == 0 <==> Confusable(a, b)
  {
    hide Doubled;
    DoublingShift(a);
    DoublingShift(b);
  }

  function Swapped(s: string, j: nat): string
    requires j + 1 < |s|
  {
    s[j := s[j + 1]][j + 1 := s[j]]
  }

  lemma {:induction false} SumSwap(v: seq<Code>, j: nat)
    requires j + 1 < |v|
    ensures Sum(v[j := v[j + 1]][j + 1 := v[j]]) ==
            Sum(v) - Addend(j, v[j]) - Addend(j + 1, v[j + 1]) + Addend(j, v[j + 1]) + Addend(j + 1, v[j])
  {
    hide Addend, Sum;
    SumUpdate(v, j, v[j + 1]);
    SumUpdate(v[j := v[j + 1]], j + 1, v[j]);
  }

  lemma {:induction false} ModDifference(a: int, b: int)
    ensures a % 32 == b % 32 <==> (a - b) % 32 == 0
  {
  }

  /** Swapping two neighbouring data characters keeps a valid group valid exactly when their
      values are equal or are those of `A` and `7`. */
  lemma {:induction false} SwapDetected(g: string, j: nat)
    requires GroupValid(g) && j < 12
    ensures GroupValid(Swapped(g, j)) <==> Confusable(CharValue(g[j]), CharValue(g[j + 1]))
  {
    hide Addend, CharValue, Sum, CheckCode, Symbol, Values, Confusable;
    var data := g[..13];
    assert Swapped(g, j)[..13] == Swapped(data, j);
    ValuesUpdate(data, j, data[j + 1]);
    ValuesUpdate(data[j := data[j + 1]], j + 1, data[j]);
    var v, w := Values(data), Values(Swapped(data, j));
    SumSwap(v, j);
    SameCheckIff(Sum(v), Sum(w));
    ModDifference(Sum(v), Sum(w));
    SwapAddends(j, v[j], v[j + 1]);
  }

  lemma {:induction false} CheckOfCheck(sum: nat, a: Code)
    ensures CheckCode(sum + CheckCode(sum + a)) == a
  {
  }

  lemma {:induction false} SymbolValue(c: Code)
    ensures CharValue(Symbol(c)) == c
  {
  }

  /** The sum of a group's data is that of its first twelve characters plus the last value. */
  lemma {:induction false} SumOfGroup(data: string)
    requires |data| == 13
    ensures Sum(Values(data)) == Sum(Values(data[..12])) + CharValue(data[12])
  {
    hide CharValue;
    assert Values(data)[..12] == Values(data[..12]);
  }

  /** Swapping the last data character with the check character keeps a valid group valid
      exactly when that data character is the symbol of its own value, so in upper case. */
  lemma {:induction false} LastSwapUndetectedIff(g: string)
    requires GroupValid(g)
    ensures GroupValid(Swapped(g, 12)) <==> g[12] == Symbol(CharValue(g[12]))
  {
    hide CharValue, Sum, Symbol, Values, CheckCode;
    var data, other := g[..13], Swapped(g, 12)[..13];
    assert other[..12] == data[..12];
    SumOfGroup(data);
    SumOfGroup(other);
    var s, a := Sum(Values(data[..12])), CharValue(g[12]);
    SymbolValue(CheckCode(s + a));
    CheckOfCheck(s, a);
  }
}
