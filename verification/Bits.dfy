/**
 Unsigned machine integers and their bitwise operators. A number is its own bit pattern:
 bit 0 is its parity and the other bits are the bits of its half.
 */
module Bits {
  function Pow2(n: nat): (p: nat)
    ensures p > 0
  {
    if n == 0 then 1 else 2 * Pow2(n - 1)
  }

  predicate Bit(w: nat, i: nat) {
    if i == 0 then w % 2 == 1 else Bit(w / 2, i - 1)
  }

  function Or(a: nat, b: nat): nat {
    if a == 0 && b == 0 then 0
    else (if a % 2 == 1 || b % 2 == 1 then 1 else 0) + 2 * Or(a / 2, b / 2)
  }

  function And(a: nat, b: nat): nat {
    if a == 0 || b == 0 then 0
    else (if a % 2 == 1 && b % 2 == 1 then 1 else 0) + 2 * And(a / 2, b / 2)
  }

  function Xor(a: nat, b: nat): nat {
    if a == 0 && b == 0 then 0
    else (if a % 2 != b % 2 then 1 else 0) + 2 * Xor(a / 2, b / 2)
  }

  /** x << s in a register of `width` bits: what leaves the register at the top is lost. */
  function ShiftLeft(x: nat, s: nat, width: nat): nat {
    (x * Pow2(s)) % Pow2(width)
  }

  /** x >> s. */
  function ShiftRight(x: nat, s: nat): nat {
    if s == 0 then x else ShiftRight(x / 2, s - 1)
  }

  // ---- the bits of each operator's result ------------------------------------------

  lemma {:induction false} BitOfZero(i: nat)
    ensures !Bit(0, i)
  {
    if i > 0 {
      BitOfZero(i - 1);
    }
  }

  lemma {:induction false} BitOfOr(a: nat, b: nat, i: nat)
    ensures Bit(Or(a, b), i) <==> Bit(a, i) || Bit(b, i)
  {
    if a == 0 && b == 0 {
      BitOfZero(i);
    } else if i > 0 {
      BitOfOr(a / 2, b / 2, i - 1);
    }
  }

  lemma {:induction false} OrInRange(a: nat, b: nat, n: nat)
    requires a < Pow2(n) && b < Pow2(n)
    ensures Or(a, b) < Pow2(n)
  {
    if n > 0 {
      OrInRange(a / 2, b / 2, n - 1);
    }
  }

  /** or-ing in a non-zero number leaves a non-zero number. */
  lemma {:induction false} OrNonZero(a: nat, b: nat)
    requires a > 0 || b > 0
    ensures Or(a, b) > 0
  {
    if a % 2 == 0 && b % 2 == 0 {
      OrNonZero(a / 2, b / 2);
    }
  }

  /** Testing a number against a one-bit mask reads that bit. */
  lemma {:induction false} AndMask(w: nat, i: nat)
    ensures And(w, Pow2(i)) == if Bit(w, i) then Pow2(i) else 0
  {
    if w == 0 {
      BitOfZero(i);
    } else if i == 0 {
      assert And(w / 2, 0) == 0;
    } else {
      var m := Pow2(i - 1);
      assert Pow2(i) == 2 * m && (2 * m) % 2 == 0 && (2 * m) / 2 == m;
      AndMask(w / 2, i - 1);
    }
  }

  lemma {:induction false} BitOfPow2(i: nat, j: nat)
    ensures Bit(Pow2(i), j) <==> i == j
  {
    if j == 0 {
    } else if i == 0 {
      BitOfZero(j - 1);
    } else {
      BitOfPow2(i - 1, j - 1);
    }
  }

  lemma {:induction false} BitOfShiftRight(x: nat, s: nat, i: nat)
    ensures Bit(ShiftRight(x, s), i) == Bit(x, s + i)
  {
    if s > 0 {
      BitOfShiftRight(x / 2, s - 1, i);
    }
  }

  lemma {:induction false} ShiftRightInRange(x: nat, s: nat, n: nat)
    requires x < Pow2(n)
    ensures ShiftRight(x, s) < Pow2(n)
  {
    if s > 0 {
      ShiftRightInRange(x / 2, s - 1, n);
    }
  }

  /** Doubling s times moves every bit up by s. */
  lemma {:induction false} BitOfMultiple(x: nat, s: nat, i: nat)
    ensures Bit(x * Pow2(s), i) <==> s <= i && Bit(x, i - s)
  {
    if s > 0 {
      var h := x * Pow2(s - 1);
      assert x * Pow2(s) == 2 * h;
      assert (2 * h) % 2 == 0 && (2 * h) / 2 == h;
      if i > 0 {
        BitOfMultiple(x, s - 1, i - 1);
      }
    }
  }

  lemma HalfOfRemainder(x: nat, m: nat)
    requires m > 0
    ensures (x % (2 * m)) / 2 == (x / 2) % m
  {
    var q, r := x / (2 * m), x % (2 * m);
    var p := q * m;
    assert q * (2 * m) == 2 * p;
    assert x == 2 * p + r;
    assert x / 2 == p + r / 2;
    RemainderUnique(x / 2, m, q, r / 2);
  }

  lemma RemainderUnique(x: nat, m: nat, q: nat, r: nat)
    requires m > 0 && r < m && x == q * m + r
    ensures x % m == r && x / m == q
  {
    var d: int := x / m - q;
    assert d * m == r - x % m;
    assert 0 - m < d * m < m;
    assert d == 0;
  }

  lemma {:induction false} BitOfRemainder(x: nat, n: nat, i: nat)
    requires i < n
    ensures Bit(x % Pow2(n), i) == Bit(x, i)
  {
    HalfOfRemainder(x, Pow2(n - 1));
    if i > 0 {
      BitOfRemainder(x / 2, n - 1, i - 1);
    } else {
      ParityOfRemainder(x, Pow2(n - 1));
    }
  }

  lemma ParityOfRemainder(x: nat, m: nat)
    requires m > 0
    ensures (x % (2 * m)) % 2 == x % 2
  {
    assert x == 2 * (x / (2 * m) * m) + x % (2 * m);
  }

  lemma BitOfShiftLeft(x: nat, s: nat, width: nat, i: nat)
    requires i < width
    ensures Bit(ShiftLeft(x, s, width), i) <==> s <= i && Bit(x, i - s)
  {
    BitOfRemainder(x * Pow2(s), width, i);
    BitOfMultiple(x, s, i);
  }

  /** A number below 2^n has no bit at n or above. */
  lemma {:induction false} NoHighBit(x: nat, n: nat, i: nat)
    requires x < Pow2(n) && n <= i
    ensures !Bit(x, i)
  {
    if n == 0 {
      BitOfZero(i);
    } else {
      NoHighBit(x / 2, n - 1, i - 1);
    }
  }

  // ---- exclusive or ------------------------------------------------------------------

  /** A bit is set exactly when one of the two has it and the other does not. */
  lemma {:induction false} BitOfXor(a: nat, b: nat, i: nat)
    ensures Bit(Xor(a, b), i) <==> Bit(a, i) != Bit(b, i)
  {
    if a != 0 || b != 0 {
      if i > 0 {
        BitOfXor(a / 2, b / 2, i - 1);
      }
    } else {
      BitOfZero(i);
    }
  }

  /** Masking twice with the same mask gives the number back. */
  lemma {:induction false} XorTwice(a: nat, b: nat)
    ensures Xor(Xor(a, b), b) == a
  {
    if a != 0 || b != 0 {
      XorTwice(a / 2, b / 2);
    }
  }

  lemma {:induction false} XorInRange(a: nat, b: nat, n: nat)
    requires a < Pow2(n) && b < Pow2(n)
    ensures Xor(a, b) < Pow2(n)
  {
    if n > 0 {
      XorInRange(a / 2, b / 2, n - 1);
    }
  }

  lemma Pow2Values()
    ensures Pow2(8) == 0x100 && Pow2(16) == 0x1_0000 && Pow2(32) == 0x1_0000_0000
    ensures Pow2(64) == 0x1_0000_0000_0000_0000
  {
    assert Pow2(8) == 0x100;
    assert Pow2(16) == 0x100 * Pow2(8);
    assert Pow2(24) == 0x100 * Pow2(16);
    assert Pow2(32) == 0x100 * Pow2(24);
    assert Pow2(40) == 0x100 * Pow2(32);
    assert Pow2(48) == 0x100 * Pow2(40);
    assert Pow2(56) == 0x100 * Pow2(48);
    assert Pow2(64) == 0x100 * Pow2(56);
  }
}
