/** Bitwise operators of unsigned integers, bit by bit from the least significant. */
module Bitwise {

  predicate Bit(x: nat, i: nat) {
    if i == 0 then x % 2 == 1 else Bit(x / 2, i - 1)
  }

  function Of(b: bool): nat { if b then 1 else 0 }

  /** `1 << i` */
  function Mask(i: nat): (m: nat)
    ensures m > 0
  {
    if i == 0 then 1 else 2 * Mask(i - 1)
  }

  /** `x & y` */
  function And(x: nat, y: nat): (r: nat)
    ensures r <= x && r <= y
  {
    if x == 0 || y == 0 then 0 else 2 * And(x / 2, y / 2) + Of(x % 2 == 1 && y % 2 == 1)
  }

  /** `x | y` */
  function Or(x: nat, y: nat): nat
    decreases x + y
  {
    if x == 0 then y else if y == 0 then x else 2 * Or(x / 2, y / 2) + Of(x % 2 == 1 || y % 2 == 1)
  }

  /** `x ^ y` */
  function Xor(x: nat, y: nat): nat
    decreases x + y
  {
    if x == 0 then y else if y == 0 then x else 2 * Xor(x / 2, y / 2) + Of(x % 2 != y % 2)
  }

  /** `~x` in `w` bits */
  function Not(x: nat, w: nat): (r: nat)
    requires x < Mask(w)
    ensures r < Mask(w)
  {
    Mask(w) - 1 - x
  }

  lemma {:induction false} BitZero(i: nat)
    ensures !Bit(0, i)
  {
    if i > 0 {
      BitZero(i - 1);
    }
  }

  lemma {:induction false} BitAnd(x: nat, y: nat, i: nat)
    ensures Bit(And(x, y), i) <==> Bit(x, i) && Bit(y, i)
  {
    if x == 0 || y == 0 {
      BitZero(i);
    } else if i > 0 {
      BitAnd(x / 2, y / 2, i - 1);
    }
  }

  lemma {:induction false} BitOr(x: nat, y: nat, i: nat)
    ensures Bit(Or(x, y), i) <==> Bit(x, i) || Bit(y, i)
    decreases x + y
  {
    if x == 0 || y == 0 {
      BitZero(i);
    } else if i > 0 {
      BitOr(x / 2, y / 2, i - 1);
    }
  }

  lemma {:induction false} BitXor(x: nat, y: nat, i: nat)
    ensures Bit(Xor(x, y), i) <==> Bit(x, i) != Bit(y, i)
    decreases x + y
  {
    if x == 0 || y == 0 {
      BitZero(i);
    } else if i > 0 {
      BitXor(x / 2, y / 2, i - 1);
    }
  }

  lemma {:induction false} BitMask(k: nat, i: nat)
    ensures Bit(Mask(k), i) <==> i == k
  {
    if k == 0 {
      if i > 0 {
        BitZero(i - 1);
      }
    } else if i > 0 {
      BitMask(k - 1, i - 1);
    }
  }

  lemma {:induction false} BitNot(x: nat, w: nat, i: nat)
    requires x < Mask(w) && i < w
    ensures Bit(Not(x, w), i) <==> !Bit(x, i)
  {
    if i > 0 {
      assert Not(x, w) / 2 == Not(x / 2, w - 1);
      BitNot(x / 2, w - 1, i - 1);
    }
  }

  /** Numbers with the same bits are equal. */
  lemma {:induction false} SameBits(x: nat, y: nat)
    requires forall i :: Bit(x, i) == Bit(y, i)
    ensures x == y
    decreases x + y
  {
    if x + y > 0 {
      assert Bit(x, 0) == Bit(y, 0);
      forall i: nat ensures Bit(x / 2, i) == Bit(y / 2, i) {
        assert Bit(x, i + 1) == Bit(y, i + 1);
      }
      SameBits(x / 2, y / 2);
    }
  }

  /** A number below `1 << w` has no bit at or above `w`. */
  lemma {:induction false} NoHighBits(x: nat, w: nat, i: nat)
    requires x < Mask(w) && w <= i
    ensures !Bit(x, i)
  {
    if w == 0 {
      BitZero(i);
    } else {
      NoHighBits(x / 2, w - 1, i - 1);
    }
  }

  lemma {:induction false} MaskGrows(v: nat, w: nat)
    requires v <= w
    ensures Mask(v) <= Mask(w)
  {
    if v < w {
      MaskGrows(v, w - 1);
    }
  }

  lemma {:induction false} XorBelow(x: nat, y: nat, w: nat)
    requires x < Mask(w) && y < Mask(w)
    ensures Xor(x, y) < Mask(w)
  {
    if w > 0 && x > 0 && y > 0 {
      XorBelow(x / 2, y / 2, w - 1);
    }
  }

  lemma {:induction false} OrBelow(x: nat, y: nat, w: nat)
    requires x < Mask(w) && y < Mask(w)
    ensures Or(x, y) < Mask(w)
  {
    if w > 0 && x > 0 && y > 0 {
      OrBelow(x / 2, y / 2, w - 1);
    }
  }

  /** `x & (1 << i)` tests bit `i`. */
  lemma MaskTests(x: nat, i: nat)
    ensures And(x, Mask(i)) != 0 <==> Bit(x, i)
  {
    if And(x, Mask(i)) != 0 {
      var k := SomeBit(And(x, Mask(i)));
      BitAnd(x, Mask(i), k);
      BitMask(i, k);
    } else {
      BitAnd(x, Mask(i), i);
      BitMask(i, i);
      BitZero(i);
    }
  }

  lemma {:induction false} SomeBit(x: nat) returns (i: nat)
    requires x > 0
    ensures Bit(x, i)
  {
    if x % 2 == 1 {
      i := 0;
    } else {
      i := SomeBit(x / 2);
      i := i + 1;
    }
  }

  lemma {:induction false} AndSelf(x: nat)
    ensures And(x, x) == x
  {
    if x > 0 {
      AndSelf(x / 2);
    }
  }

  lemma AndStep(m: nat, x: nat)
    requires x > 0
    ensures And(2 * m + 1, x) == 2 * And(m, x / 2) + x % 2
  {
    var n := 2 * m + 1;
    assert n / 2 == m && n % 2 == 1;
  }

  /** All ones are neutral for `&`. */
  lemma {:induction false} AndOnes(x: nat, w: nat)
    requires x < Mask(w)
    ensures And(Mask(w) - 1, x) == x
  {
    if w > 0 && x > 0 {
      AndOnes(x / 2, w - 1);
      AndStep(Mask(w - 1) - 1, x);
    }
  }

  ghost predicate TwoBitsSet(x: nat) {
    exists i: nat, j: nat :: i < j && Bit(x, i) && Bit(x, j)
  }

  /** `x & (x - 1)` is not zero exactly when two different bits of `x` are set. */
  lemma {:induction false} TwoBits(x: nat)
    requires x > 0
    ensures And(x, x - 1) != 0 <==> TwoBitsSet(x)
  {
    if x == 1 {
      if TwoBitsSet(1) {
        var i: nat, j: nat :| i < j && Bit(1, i) && Bit(1, j);
        BitZero(j - 1);
      }
    } else if x % 2 == 1 {
      assert (x - 1) / 2 == x / 2;
      AndSelf(x / 2);
      var j := SomeBit(x / 2);
      assert Bit(x, 0) && Bit(x, j + 1);
    } else {
      TwoBits(x / 2);
      assert (x - 1) / 2 == x / 2 - 1;
      if TwoBitsSet(x / 2) {
        var i: nat, j: nat :| i < j && Bit(x / 2, i) && Bit(x / 2, j);
        assert Bit(x, i + 1) && Bit(x, j + 1);
      }
      if TwoBitsSet(x) {
        var i: nat, j: nat :| i < j && Bit(x, i) && Bit(x, j);
        assert Bit(x / 2, i - 1) && Bit(x / 2, j - 1);
      }
    }
  }
}
