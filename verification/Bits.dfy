/** Bits of natural numbers: the u64 operations the EEPROM bitmaps use, on values. */
module Bits {

  function Pow2(n: nat): (p: nat)
    ensures p >= 1
  {
    if n == 0 then 1 else 2 * Pow2(n - 1)
  }

  predicate Bit(x: nat, i: nat)
    decreases i
  {
    if i == 0 then x % 2 == 1 else Bit(x / 2, i - 1)
  }

  /** `&` and `|`, bit by bit. */
  function And(x: nat, y: nat): nat {
    if x == 0 || y == 0 then 0
    else 2 * And(x / 2, y / 2) + (if x % 2 == 1 && y % 2 == 1 then 1 else 0)
  }

  function Or(x: nat, y: nat): nat {
    if x == 0 then y else if y == 0 then x
    else 2 * Or(x / 2, y / 2) + (if x % 2 == 1 || y % 2 == 1 then 1 else 0)
  }

  /** `!x` in a word of `w` bits. */
  function Not(x: nat, w: nat): nat
    requires x < Pow2(w)
  {
    Pow2(w) - 1 - x
  }

  lemma {:induction false} BitZero(i: nat)
    ensures !Bit(0, i)
  {
    if i > 0 { BitZero(i - 1); }
  }

  lemma BitCons(z: nat, b: nat, i: nat)
    requires b < 2
    ensures Bit(2 * z + b, i) <==> if i == 0 then b == 1 else Bit(z, i - 1)
  {
    assert (2 * z + b) / 2 == z && (2 * z + b) % 2 == b;
  }

  lemma {:induction false} BitAnd(x: nat, y: nat, i: nat)
    ensures Bit(And(x, y), i) <==> Bit(x, i) && Bit(y, i)
    decreases i
  {
    if x == 0 || y == 0 {
      BitZero(i);
    } else {
      var z, b := And(x / 2, y / 2), if x % 2 == 1 && y % 2 == 1 then 1 else 0;
      BitCons(z, b, i);
      if i > 0 {
        BitAnd(x / 2, y / 2, i - 1);
      }
    }
  }

  lemma {:induction false} BitOr(x: nat, y: nat, i: nat)
    ensures Bit(Or(x, y), i) <==> Bit(x, i) || Bit(y, i)
    decreases i
  {
    if x == 0 || y == 0 {
      BitZero(i);
    } else {
      var z, b := Or(x / 2, y / 2), if x % 2 == 1 || y % 2 == 1 then 1 else 0;
      BitCons(z, b, i);
      if i > 0 {
        BitOr(x / 2, y / 2, i - 1);
      }
    }
  }

  lemma {:induction false} BitNot(x: nat, w: nat, i: nat)
    requires x < Pow2(w)
    ensures Bit(Not(x, w), i) <==> i < w && !Bit(x, i)
    decreases i
  {
    if w == 0 {
      BitZero(i);
    } else if i > 0 {
      BitNot(x / 2, w - 1, i - 1);
      assert Not(x, w) / 2 == Not(x / 2, w - 1);
    }
  }

  /** 2^e - 1 has the bits below e; 2^a has bit a. */
  lemma {:induction false} BitLow(e: nat, i: nat)
    ensures Bit(Pow2(e) - 1, i) <==> i < e
    decreases i
  {
    if e == 0 {
      BitZero(i);
    } else if i > 0 {
      BitLow(e - 1, i - 1);
      assert (Pow2(e) - 1) / 2 == Pow2(e - 1) - 1;
    }
  }

  lemma {:induction false} BitPow(a: nat, i: nat)
    ensures Bit(Pow2(a), i) <==> i == a
    decreases i
  {
    if a == 0 {
      if i > 0 { BitZero(i - 1); }
    } else if i > 0 {
      BitPow(a - 1, i - 1);
      assert Pow2(a) / 2 == Pow2(a - 1);
    }
  }

  /** A number with no bit is zero. */
  lemma {:induction false} NonZeroHasBit(x: nat) returns (i: nat)
    requires x != 0
    ensures Bit(x, i)
  {
    if x % 2 == 1 {
      i := 0;
    } else {
      i := NonZeroHasBit(x / 2);
      i := i + 1;
    }
  }

  lemma MeetAt(x: nat, y: nat, i: nat)
    requires Bit(x, i) && Bit(y, i)
    ensures And(x, y) != 0
  {
    BitAnd(x, y, i);
    BitZero(i);
  }

  lemma AndMeets(x: nat, y: nat)
    ensures And(x, y) != 0 <==> exists i: nat :: Bit(x, i) && Bit(y, i)
  {
    if And(x, y) != 0 {
      var i := NonZeroHasBit(And(x, y));
      BitAnd(x, y, i);
    }
    forall i: nat | Bit(x, i) && Bit(y, i) ensures And(x, y) != 0 {
      MeetAt(x, y, i);
    }
  }

  lemma {:induction false} PowBelow(a: nat, b: nat)
    requires a < b
    ensures Pow2(a) < Pow2(b)
  {
    if a < b - 1 { PowBelow(a, b - 1); }
  }

  lemma {:induction false} PowMonotone(a: nat, b: nat)
    requires a <= b
    ensures Pow2(a) <= Pow2(b)
  {
    if a < b { PowMonotone(a, b - 1); }
  }
}
