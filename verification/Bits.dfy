/** Bitwise operations on natural numbers, defined bit by bit, and the arithmetic they stand for. */
module Bits {

  function Pow2(n: nat): (r: nat)
    ensures r >= 1
  {
    if n == 0 then 1 else 2 * Pow2(n - 1)
  }

  /** Bit `i` of `a`, least significant first. */
  predicate Bit(a: nat, i: nat) {
    if i == 0 then a % 2 == 1 else Bit(a / 2, i - 1)
  }

  function And(a: nat, b: nat): nat {
    if a == 0 || b == 0 then 0
    else (if a % 2 == 1 && b % 2 == 1 then 1 else 0) + 2 * And(a / 2, b / 2)
  }

  function Or(a: nat, b: nat): nat {
    if a == 0 && b == 0 then 0
    else (if a % 2 == 1 || b % 2 == 1 then 1 else 0) + 2 * Or(a / 2, b / 2)
  }

  function Xor(a: nat, b: nat): nat {
    if a == 0 && b == 0 then 0
    else (if (a % 2 == 1) != (b % 2 == 1) then 1 else 0) + 2 * Xor(a / 2, b / 2)
  }

  lemma {:induction false} NoBitsInZero(i: nat)
    ensures !Bit(0, i)
  {
    if i > 0 { NoBitsInZero(i - 1); }
  }

  lemma {:induction false} AndBitwise(a: nat, b: nat, i: nat)
    ensures Bit(And(a, b), i) == (Bit(a, i) && Bit(b, i))
  {
    NoBitsInZero(i);
    if i > 0 {
      assert And(a, b) / 2 == And(a / 2, b / 2);
      AndBitwise(a / 2, b / 2, i - 1);
    }
  }

  lemma {:induction false} OrBitwise(a: nat, b: nat, i: nat)
    ensures Bit(Or(a, b), i) == (Bit(a, i) || Bit(b, i))
  {
    if i > 0 {
      assert Or(a, b) / 2 == Or(a / 2, b / 2);
      OrBitwise(a / 2, b / 2, i - 1);
    }
  }

  lemma {:induction false} XorBitwise(a: nat, b: nat, i: nat)
    ensures Bit(Xor(a, b), i) == (Bit(a, i) != Bit(b, i))
  {
    if i > 0 {
      assert Xor(a, b) / 2 == Xor(a / 2, b / 2);
      XorBitwise(a / 2, b / 2, i - 1);
    }
  }

  lemma {:induction false} Pow2Add(a: nat, b: nat)
    ensures Pow2(a + b) == Pow2(a) * Pow2(b)
  {
    if a > 0 {
      Pow2Add(a - 1, b);
      assert 2 * (Pow2(a - 1) * Pow2(b)) == (2 * Pow2(a - 1)) * Pow2(b);
    }
  }

  lemma Doubled(k: nat, p: nat) returns (twice: nat)
    requires Pow2(k) == p
    ensures twice == 2 * k && Pow2(twice) == p * p
  {
    Pow2Add(k, k);
    twice := k + k;
  }

  lemma {:induction false} Pow2Monotone(a: nat, b: nat)
    requires a <= b
    ensures Pow2(a) <= Pow2(b)
  {
    if a < b { Pow2Monotone(a, b - 1); }
  }

  /** None of the operations reaches past the highest bit of its operands. */
  lemma {:induction false} OperationsBounded(a: nat, b: nat, k: nat)
    requires a < Pow2(k) && b < Pow2(k)
    ensures And(a, b) < Pow2(k) && Or(a, b) < Pow2(k) && Xor(a, b) < Pow2(k)
  {
    if k > 0 { OperationsBounded(a / 2, b / 2, k - 1); }
  }

  lemma HalveRemainder(v: nat, m: nat)
    requires m >= 1
    ensures v % (2 * m) == v % 2 + 2 * ((v / 2) % m)
  {
    var q := (v / 2) / m;
    var r := (v / 2) % m;
    assert v / 2 == q * m + r;
    assert v == 2 * (v / 2) + v % 2;
    assert v == q * (2 * m) + (2 * r + v % 2);
    RemainderUnique(v, 2 * m, q, 2 * r + v % 2);
  }

  lemma RemainderUnique(v: int, m: nat, q: int, r: nat)
    requires r < m && v == q * m + r
    ensures v % m == r
  {
    var q' := v / m;
    var d := q' - q;
    assert d * m == q' * m - q * m;
    assert d * m < m && (-d) * m < m;
    if d >= 1 { MulAtLeast(d, m); } else if d <= -1 { MulAtLeast(-d, m); }
  }

  lemma MulAtLeast(k: int, m: nat)
    requires k >= 1
    ensures k * m >= m
  {
    assert k * m == (k - 1) * m + m;
  }

  /** Masking with 2^k - 1 is reduction modulo 2^k. */
  lemma {:induction false} MaskIsRemainder(v: nat, k: nat)
    ensures And(v, Pow2(k) - 1) == v % Pow2(k)
  {
    if k > 0 {
      var m := Pow2(k - 1);
      MaskIsRemainder(v / 2, k - 1);
      HalveRemainder(v, m);
      assert (Pow2(k) - 1) % 2 == 1 && (Pow2(k) - 1) / 2 == m - 1;
    }
  }

  /** Testing the top bit of a (k+1)-bit number tells whether it is at least 2^k. */
  lemma {:induction false} TopBit(v: nat, k: nat)
    requires v < 2 * Pow2(k)
    ensures And(v, Pow2(k)) == if v < Pow2(k) then 0 else Pow2(k)
  {
    if k > 0 {
      TopBit(v / 2, k - 1);
    } else if v == 1 {
      assert And(1, 1) == 1 + 2 * And(0, 0);
    }
  }

  /** Or-ing numbers with no bit in common adds them. */
  lemma {:induction false} OrDisjoint(low: nat, high: nat, k: nat)
    requires low < Pow2(k)
    ensures Or(low, high * Pow2(k)) == low + high * Pow2(k)
  {
    if k == 0 {
      OrZero(high);
    } else {
      var h := high * Pow2(k - 1);
      assert high * Pow2(k) == 2 * h;
      OrDisjoint(low / 2, high, k - 1);
    }
  }

  lemma {:induction false} OrZero(b: nat)
    ensures Or(0, b) == b
  {
    if b > 0 { OrZero(b / 2); }
  }

  /** Flipping the same bits twice changes nothing. */
  lemma {:induction false} XorTwice(a: nat, b: nat)
    ensures Xor(Xor(a, b), b) == a
  {
    if a != 0 || b != 0 {
      assert Xor(a, b) / 2 == Xor(a / 2, b / 2);
      XorTwice(a / 2, b / 2);
      if Xor(a, b) == 0 && b == 0 { XorZero(a); }
    }
  }

  lemma {:induction false} XorZero(a: nat)
    ensures Xor(a, 0) == a
  {
    if a > 0 { XorZero(a / 2); }
  }

  /** Reducing modulo 2^a and then modulo a smaller power is reducing once. */
  lemma RemainderTower(x: int, a: nat, b: nat)
    requires b <= a
    ensures (x % Pow2(a)) % Pow2(b) == x % Pow2(b)
  {
    Pow2Add(a - b, b);
    RemainderOfMultiple(x, Pow2(a - b), Pow2(b));
  }

  lemma RemainderOfMultiple(x: int, c: nat, m: nat)
    requires c >= 1 && m >= 1 && c * m >= 1
    ensures (x % (c * m)) % m == x % m
  {
    var n := c * m;
    var q, r := x / n, x % n;
    var q', r' := r / m, r % m;
    assert x == q * n + r && r == q' * m + r';
    assert q * n == (q * c) * m;
    assert (q * c + q') * m == (q * c) * m + q' * m;
    RemainderUnique(x, m, q * c + q', r');
  }
}
