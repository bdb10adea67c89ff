// Bitboards.
//
// The engine stores each player's discs in a JavaScript BigInt whose bit i is
// set when the player owns cell i. A non-negative BigInt is exactly the finite
// set of the positions of its 1 bits, so a bitboard is modelled as a set<nat>:
// `a | b` is `a + b`, `a & b` is `a * b`, a non-zero `a & b` is `a * b != {}`,
// `1n << k` is `{k}` and `m << k` is `Shift(m, k)`. The numeric value of a
// bitboard is only needed for the `isFull` comparison; `ValueBelow` gives it.
module Bits {

  type Bitboard = set<nat>

  /** The bitboard `m << k`: every bit moves k positions up. */
  function Shift(m: Bitboard, k: nat): (r: Bitboard)
    ensures forall j :: j in r <==> j >= k && j - k in m
  {
    set i | i in m :: i + k
  }

  lemma {:induction false} ShiftFour(a: nat, b: nat, c: nat, d: nat, k: nat)
    ensures Shift({a, b, c, d}, k) == {a + k, b + k, c + k, d + k}
  {
    var r := Shift({a, b, c, d}, k);
    forall j ensures j in r <==> j in {a + k, b + k, c + k, d + k} {
    }
  }

  function Pow2(n: nat): (p: nat)
    ensures p >= 1
  {
    if n == 0 then 1 else 2 * Pow2(n - 1)
  }

  lemma {:induction false} Pow2Add(a: nat, b: nat)
    ensures Pow2(a + b) == Pow2(a) * Pow2(b)
    decreases b
  {
    if b > 0 {
      Pow2Add(a, b - 1);
      assert Pow2(a + b) == 2 * Pow2(a + b - 1);
    }
  }

  lemma Pow2Seven()
    ensures Pow2(7) == 128
  {
    assert Pow2(1) == 2;
    assert Pow2(2) == 4;
    assert Pow2(3) == 8;
    assert Pow2(4) == 16;
    assert Pow2(5) == 32;
    assert Pow2(6) == 64;
  }

  /**
   * The numeric value of the bits of b below position n:
   * the sum of 2^i over the members i < n of b.
   */
  ghost function ValueBelow(b: Bitboard, n: nat): nat
  {
    if n == 0 then 0 else ValueBelow(b, n - 1) + (if n - 1 in b then Pow2(n - 1) else 0)
  }

  /** The bits of b all lie below position n, so ValueBelow(b, n) is the whole BigInt. */
  ghost predicate Below(b: Bitboard, n: nat)
  {
    forall i :: i in b ==> i < n
  }

  /** n bits hold at most 2^n - 1, and exactly that when all of them are set. */
  lemma {:induction false} ValueBelowMax(b: Bitboard, n: nat)
    ensures ValueBelow(b, n) <= Pow2(n) - 1
    ensures ValueBelow(b, n) == Pow2(n) - 1 <==> forall i :: 0 <= i < n ==> i in b
  {
    if n > 0 {
      ValueBelowMax(b, n - 1);
      if n - 1 !in b {
        assert ValueBelow(b, n) < Pow2(n) - 1;
      }
    }
  }

  /** A set bit at position i >= m contributes at least 2^m to the value. */
  lemma {:induction false} ValueBelowHighBit(b: Bitboard, m: nat, n: nat)
    requires m <= n
    ensures (exists i :: i in b && m <= i < n) ==> ValueBelow(b, n) >= Pow2(m)
    ensures (forall i :: i in b ==> i < m || n <= i) ==> ValueBelow(b, n) == ValueBelow(b, m)
    decreases n - m
  {
    if m < n {
      ValueBelowHighBit(b, m, n - 1);
      if n - 1 in b {
        Pow2Add(m, n - 1 - m);
        assert Pow2(n - 1) >= Pow2(m);
      }
    }
  }

  /** Adding an absent bit k adds 2^k to the value. */
  lemma {:induction false} ValueBelowAdd(b: Bitboard, k: nat, n: nat)
    requires k !in b && k < n
    ensures ValueBelow(b + {k}, n) == ValueBelow(b, n) + Pow2(k)
  {
    if n - 1 > k {
      ValueBelowAdd(b, k, n - 1);
    } else {
      ValueBelowSame(b, b + {k}, n - 1);
    }
  }

  /** The empty bitboard, the BigInt 0. */
  lemma {:induction false} ValueBelowEmpty(n: nat)
    ensures ValueBelow({}, n) == 0
  {
    if n > 0 {
      ValueBelowEmpty(n - 1);
    }
  }

  /** Four bits below n are worth the sum of their powers of two. */
  lemma FourValue(a: nat, b: nat, c: nat, d: nat, n: nat)
    requires a < b < c < d < n
    ensures ValueBelow({a, b, c, d}, n) == Pow2(a) + Pow2(b) + Pow2(c) + Pow2(d)
  {
    ValueBelowEmpty(n);
    ValueBelowAdd({}, a, n);
    assert {} + {a} == {a};
    ValueBelowAdd({a}, b, n);
    assert {a} + {b} == {a, b};
    ValueBelowAdd({a, b}, c, n);
    assert {a, b} + {c} == {a, b, c};
    ValueBelowAdd({a, b, c}, d, n);
    assert {a, b, c} + {d} == {a, b, c, d};
  }

  lemma {:induction false} ValueBelowSame(a: Bitboard, b: Bitboard, n: nat)
    requires forall i :: 0 <= i < n ==> (i in a <==> i in b)
    ensures ValueBelow(a, n) == ValueBelow(b, n)
  {
    if n > 0 {
      ValueBelowSame(a, b, n - 1);
    }
  }
}
