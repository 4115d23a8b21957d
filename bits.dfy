/**
 * Bitwise exclusive or on two's-complement integers, defined one bit at a
 * time from the lowest.  On values of a fixed width it agrees with the
 * machine operation, sign extension included; the tree code applies it to
 * node indices and -1.
 */
module Bits {

  /** 0 and -1 are all-zero and all-one bits. */
  predicate Flat(x: int)
  {
    x == 0 || x == -1
  }

  /** Exclusive or; the sign bit of the result is the exclusive or of the sign bits. */
  function Xor(x: int, y: int): (r: int)
    ensures r < 0 <==> (x < 0) != (y < 0)
    decreases (if x < 0 then -x else x) + (if y < 0 then -y else y)
  {
    if Flat(x) && Flat(y) then (if x == y then 0 else -1)
    else 2 * Xor(x / 2, y / 2) + (if x % 2 == y % 2 then 0 else 1)
  }

  /** The recurrence holds for every pair, the all-zero and all-one ones included. */
  lemma XorStep(x: int, y: int)
    ensures Xor(x, y) == 2 * Xor(x / 2, y / 2) + (if x % 2 == y % 2 then 0 else 1)
    ensures Xor(x, y) % 2 == (if x % 2 == y % 2 then 0 else 1)
    ensures Xor(x, y) / 2 == Xor(x / 2, y / 2)
  {
    var b := if x % 2 == y % 2 then 0 else 1;
    var q := Xor(x / 2, y / 2);
    if Flat(x) && Flat(y) {
      assert x / 2 == x && y / 2 == y;
      assert x % 2 == (if x == 0 then 0 else 1) && y % 2 == (if y == 0 then 0 else 1);
    }
    assert Xor(x, y) == 2 * q + b;
    HalfOf(q, b);
  }

  lemma HalfOf(q: int, b: int)
    requires 0 <= b <= 1
    ensures (2 * q + b) % 2 == b && (2 * q + b) / 2 == q
  {
  }

  lemma {:induction false} XorSelf(x: int)
    ensures Xor(x, x) == 0
    decreases if x < 0 then -x else x
  {
    if !Flat(x) {
      XorSelf(x / 2);
    }
  }

  lemma {:induction false} XorZero(x: int)
    ensures Xor(0, x) == x
    decreases if x < 0 then -x else x
  {
    if !Flat(x) {
      XorZero(x / 2);
    }
  }

  lemma {:induction false} XorComm(x: int, y: int)
    ensures Xor(x, y) == Xor(y, x)
    decreases (if x < 0 then -x else x) + (if y < 0 then -y else y)
  {
    if !(Flat(x) && Flat(y)) {
      XorComm(x / 2, y / 2);
    }
  }

  /** Exclusive-or-ing in the same value twice gives back the start. */
  lemma {:induction false} XorCancel(x: int, z: int)
    ensures Xor(Xor(x, z), z) == x
    decreases (if x < 0 then -x else x) + (if z < 0 then -z else z)
  {
    if !(Flat(x) && Flat(z)) {
      XorCancel(x / 2, z / 2);
      XorStep(x, z);
      XorStep(Xor(x, z), z);
    }
  }

  /** When two of three values are equal, their exclusive or is the third. */
  lemma OddOneOut(x: int, y: int, z: int)
    ensures x == y ==> Xor(Xor(x, y), z) == z
    ensures y == z ==> Xor(Xor(x, y), z) == x
    ensures x == z ==> Xor(Xor(x, y), z) == y
  {
    XorSelf(x);
    XorZero(z);
    XorCancel(x, y);
    XorComm(x, y);
    XorCancel(y, x);
  }
}
