/** The bitwise or of numbers, and what it does to numbers of a bounded width. */
module Bits {

  function Or(a: nat, b: nat): (c: nat)
    decreases a + b
  {
    if a == 0 && b == 0 then 0
    else 2 * Or(a / 2, b / 2) + if a % 2 == 1 || b % 2 == 1 then 1 else 0
  }

  /** The largest number of `k` bits. */
  function Ones(k: nat): nat {
    if k == 0 then 0 else 2 * Ones(k - 1) + 1
  }

  lemma {:induction false} OrWithZero(a: nat)
    ensures Or(a, 0) == a && Or(0, a) == a
  {
    if a > 0 { OrWithZero(a / 2); }
  }

  lemma {:induction false} OrFits(k: nat, a: nat, b: nat)
    requires a <= Ones(k) && b <= Ones(k)
    ensures Or(a, b) <= Ones(k)
  {
    if k > 0 { OrFits(k - 1, a / 2, b / 2); }
  }

  lemma {:induction false} OrWithOnes(k: nat, a: nat)
    requires a <= Ones(k)
    ensures Or(a, Ones(k)) == Ones(k) && Or(Ones(k), a) == Ones(k)
  {
    if k > 0 { OrWithOnes(k - 1, a / 2); }
  }

  lemma OrHalves(a: nat, b: nat)
    ensures Or(a, b) / 2 == Or(a / 2, b / 2)
    ensures Or(a, b) % 2 == if a % 2 == 1 || b % 2 == 1 then 1 else 0
  {
  }

  function ShiftLeft(x: nat, k: nat): nat {
    if k == 0 then x else 2 * ShiftLeft(x, k - 1)
  }

  lemma {:induction false} ShiftTwice(x: nat, j: nat, k: nat)
    ensures ShiftLeft(ShiftLeft(x, j), k) == ShiftLeft(x, j + k)
  {
    if k > 0 { ShiftTwice(x, j, k - 1); }
  }

  lemma ShiftByte(x: nat)
    ensures ShiftLeft(x, 8) == x * 0x100
  {
    assert ShiftLeft(x, 1) == x * 2 && ShiftLeft(x, 3) == x * 8;
    assert ShiftLeft(x, 5) == x * 32 && ShiftLeft(x, 7) == x * 128;
  }

  lemma ByteShifts(x: nat)
    ensures ShiftLeft(x, 8) == x * 0x100 && ShiftLeft(x, 16) == x * 0x1_0000 && ShiftLeft(x, 24) == x * 0x100_0000
  {
    ShiftByte(x);
    ShiftByte(x * 0x100);
    ShiftByte(x * 0x1_0000);
    ShiftTwice(x, 8, 8);
    ShiftTwice(x, 16, 8);
  }

  /** Bits ORed in one after the other, the high ones first, are ORed in together. */
  lemma {:induction false} OrInParts(k: nat, d: nat, x: nat, low: nat)
    requires low <= Ones(k)
    ensures Or(Or(d, ShiftLeft(x, k)), low) == Or(d, ShiftLeft(x, k) + low)
  {
    hide Or;
    var high := ShiftLeft(x, k);
    if k == 0 {
      OrWithZero(Or(d, high));
    } else {
      OrInParts(k - 1, d / 2, x, low / 2);
      OrHalves(d, high);
      OrHalves(Or(d, high), low);
      OrHalves(d, high + low);
    }
  }
}
