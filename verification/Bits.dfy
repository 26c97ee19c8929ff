/** Big-endian bit strings of natural numbers, and shifts in a 32-bit buffer. */
module Bits {
  import opened Naturals

  const WORD := 0x1_0000_0000

  function ShiftRight(n: nat, k: nat): nat
    decreases k
  {
    if k == 0 then n else ShiftRight(n / 2, k - 1)
  }

  /** A left shift in an unsigned 32-bit word drops what does not fit. */
  function ShiftLeft(n: nat, k: nat): nat {
    (n * Pow2(k)) % WORD
  }

  /** The lowest `w` bits of `n`, most significant first. */
  ghost function BitsOf(n: nat, w: nat): (b: seq<bool>)
    ensures |b| == w
    decreases w
  {
    if w == 0 then [] else BitsOf(n / 2, w - 1) + [n % 2 == 1]
  }

  ghost function ValueOf(b: seq<bool>): nat {
    if b == [] then 0 else 2 * ValueOf(b[..|b| - 1]) + (if b[|b| - 1] then 1 else 0)
  }

  ghost function Zeros(k: nat): (b: seq<bool>)
    ensures |b| == k && forall i :: 0 <= i < k ==> !b[i]
  {
    seq(k, i => false)
  }

  lemma {:induction false} BitsOfValue(b: seq<bool>)
    ensures BitsOf(ValueOf(b), |b|) == b
  {
    if b != [] {
      BitsOfValue(b[..|b| - 1]);
    }
  }

  lemma {:induction false} ValueOfBits(n: nat, w: nat)
    requires n < Pow2(w)
    ensures ValueOf(BitsOf(n, w)) == n
    decreases w
  {
    if w > 0 {
      ValueOfBits(n / 2, w - 1);
      assert BitsOf(n, w)[..w - 1] == BitsOf(n / 2, w - 1);
    }
  }

  lemma {:induction false} ValueBound(b: seq<bool>)
    ensures ValueOf(b) < Pow2(|b|)
  {
    if b != [] {
      ValueBound(b[..|b| - 1]);
    }
  }

  /** The low bits of a number split at any place. */
  lemma {:induction false} BitsSplit(n: nat, a: nat, b: nat)
    ensures BitsOf(n, a + b) == BitsOf(ShiftRight(n, b), a) + BitsOf(n, b)
    decreases b
  {
    if b == 0 {
      assert BitsOf(n, b) == [];
    } else {
      var high, low, last := BitsOf(ShiftRight(n, b), a), BitsOf(n / 2, b - 1), [n % 2 == 1];
      assert ShiftRight(n, b) == ShiftRight(n / 2, b - 1);
      assert BitsOf(n, a + b) == BitsOf(n / 2, a + (b - 1)) + last;
      assert BitsOf(n, b) == low + last;
      hide BitsOf, ShiftRight;
      BitsSplit(n / 2, a, b - 1);
      assert (high + low) + last == high + (low + last);
    }
  }

  /** Multiples of 2^w do not show in the low `w` bits. */
  lemma {:induction false} LowBits(n: nat, q: nat, w: nat)
    ensures BitsOf(n + Pow2(w) * q, w) == BitsOf(n, w)
    decreases w
  {
    if w > 0 {
      var m := Pow2(w - 1) * q;
      assert Pow2(w) * q == 2 * m;
      LowBits(n / 2, q, w - 1);
      assert (n + 2 * m) / 2 == n / 2 + m;
    }
  }

  lemma {:induction false} Pow2Add(a: nat, b: nat)
    ensures Pow2(a + b) == Pow2(a) * Pow2(b)
    decreases a
  {
    if a > 0 {
      Pow2Add(a - 1, b);
    }
  }

  lemma {:induction false} MulAssoc(a: nat, b: nat, c: nat)
    ensures (a * b) * c == a * (b * c)
  {
  }

  lemma {:induction false} MultipleOf(q: nat, w: nat, v: nat) returns (k: nat)
    requires w <= v
    ensures Pow2(v) * q == Pow2(w) * k
  {
    hide Pow2;
    Pow2Add(w, v - w);
    k := Pow2(v - w) * q;
    MulAssoc(Pow2(w), Pow2(v - w), q);
  }

  lemma {:induction false} LowBitsMod(n: nat, w: nat, v: nat)
    requires w <= v
    ensures BitsOf(n % Pow2(v), w) == BitsOf(n, w)
  {
    hide Pow2, BitsOf;
    var q := n / Pow2(v);
    var k := MultipleOf(q, w, v);
    assert n == Pow2(v) * q + n % Pow2(v);
    LowBits(n % Pow2(v), k, w);
  }

  lemma Pow2Values()
    ensures Pow2(5) == 32 && Pow2(8) == 256 && Pow2(32) == WORD
  {
    assert Pow2(5) == 32;
    assert Pow2(8) == 256;
    Pow2Add(8, 8);
    Pow2Add(16, 16);
  }

  /** Shifting left appends zeros, as far as the word holds the bits. */
  lemma {:induction false} ShiftLeftBits(n: nat, w: nat, k: nat)
    requires w + k <= 32
    ensures BitsOf(ShiftLeft(n, k), w + k) == BitsOf(n, w) + Zeros(k)
  {
    Pow2Values();
    LowBitsMod(n * Pow2(k), w + k, 32);
    TimesPow2Bits(n, w, k);
  }

  lemma {:induction false} TimesPow2Bits(n: nat, w: nat, k: nat)
    ensures BitsOf(n * Pow2(k), w + k) == BitsOf(n, w) + Zeros(k)
    decreases k
  {
    if k == 0 {
      assert Zeros(0) == [];
    } else {
      TimesPow2Bits(n, w, k - 1);
      var m := n * Pow2(k - 1);
      assert n * Pow2(k) == 2 * m;
      assert Zeros(k) == Zeros(k - 1) + [false];
    }
  }

  /** `(buffer << k) | x` for a `k`-bit `x`: the low bits are those of `buffer`, then those of `x`. */
  lemma {:induction false} PushBits(buffer: nat, x: nat, w: nat, k: nat)
    requires x < Pow2(k) && w + k <= 32
    ensures BitsOf(ShiftLeft(buffer, k) + x, w + k) == BitsOf(buffer, w) + BitsOf(x, k)
  {
    Pow2Values();
    hide Pow2, BitsOf;
    var all := buffer * Pow2(k);
    var c := MultipleOf(all / WORD, w + k, 32);
    LowBits(ShiftLeft(buffer, k) + x, c, w + k);
    AppendBits(buffer, x, w, k);
  }

  lemma {:induction false} AppendBits(n: nat, x: nat, w: nat, k: nat)
    requires x < Pow2(k)
    ensures BitsOf(n * Pow2(k) + x, w + k) == BitsOf(n, w) + BitsOf(x, k)
    decreases k
  {
    if k > 0 {
      var m := n * Pow2(k - 1);
      DoubleProduct(n, Pow2(k - 1));
      AppendBits(n, x / 2, w, k - 1);
      HalfSum(m, x);
      assert BitsOf(2 * m + x, w + k) == BitsOf(m + x / 2, w + k - 1) + [x % 2 == 1];
    }
  }

  lemma {:induction false} DoubleProduct(n: nat, p: nat)
    ensures n * (2 * p) == 2 * (n * p)
  {
  }

  lemma {:induction false} HalfSum(m: nat, x: nat)
    ensures (2 * m + x) / 2 == m + x / 2 && (2 * m + x) % 2 == x % 2
  {
  }
}
