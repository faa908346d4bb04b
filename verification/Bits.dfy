/** The bitwise operators of the source on non-negative numbers, digit by binary digit. */
module Bits {

  function Pow2(k: nat): (p: nat)
    ensures p > 0
  {
    if k == 0 then 1 else 2 * Pow2(k - 1)
  }

  /** `x | y` */
  function Or(x: nat, y: nat): nat {
    if x == 0 && y == 0 then 0
    else 2 * Or(x / 2, y / 2) + (if x % 2 == 1 || y % 2 == 1 then 1 else 0)
  }

  /** `x & y` */
  function And(x: nat, y: nat): nat {
    if x == 0 && y == 0 then 0
    else 2 * And(x / 2, y / 2) + (if x % 2 == 1 && y % 2 == 1 then 1 else 0)
  }

  /** `x << k` */
  function Shl(x: nat, k: nat): nat {
    if k == 0 then x else 2 * Shl(x, k - 1)
  }

  /** `x >> k` */
  function Shr(x: nat, k: nat): nat {
    if k == 0 then x else Shr(x, k - 1) / 2
  }

  lemma {:induction false} AndZero(x: nat)
    ensures And(x, 0) == 0
  {
    if x > 0 {
      AndZero(x / 2);
    }
  }

  lemma {:induction false} OrZero(x: nat)
    ensures Or(x, 0) == x
  {
    if x > 0 {
      OrZero(x / 2);
    }
  }

  /** The k lowest digits: the remainder by 2^k. */
  function Low(x: nat, k: nat): nat {
    if k == 0 then 0 else 2 * Low(x / 2, k - 1) + x % 2
  }

  lemma {:induction false} LowOfSmall(x: nat, k: nat)
    requires x < Pow2(k)
    ensures Low(x, k) == x
  {
    if k > 0 {
      LowOfSmall(x / 2, k - 1);
    }
  }

  /** Masking with k ones keeps the k lowest digits. */
  lemma {:induction false} AndLow(x: nat, k: nat)
    ensures And(x, Pow2(k) - 1) == Low(x, k)
  {
    if k == 0 {
      AndZero(x);
    } else {
      AndLow(x / 2, k - 1);
      assert (Pow2(k) - 1) / 2 == Pow2(k - 1) - 1;
    }
  }

  /** Numbers without a common digit: `|` adds them. */
  lemma {:induction false} OrDisjoint(x: nat, y: nat, k: nat)
    requires Low(x, k) == 0 && y < Pow2(k)
    ensures Or(x, y) == x + y
  {
    if k == 0 {
      OrZero(x);
    } else if x != 0 || y != 0 {
      OrDisjoint(x / 2, y / 2, k - 1);
    }
  }

  /** Setting a digit that is set changes nothing. */
  lemma {:induction false} OrSet(x: nat, k: nat)
    requires Low(x, k + 1) >= Pow2(k)
    ensures Or(x, Pow2(k)) == x
  {
    if k == 0 {
      OrZero(x / 2);
    } else {
      OrSet(x / 2, k - 1);
    }
  }

  lemma AndEven(x: nat, h: nat)
    ensures And(x, 2 * h) == 2 * And(x / 2, h)
  {
    if h == 0 {
      AndZero(x);
      AndZero(x / 2);
    } else {
      assert 2 * h / 2 == h && 2 * h % 2 == 0;
    }
  }

  /**
   * Testing the top n - k of n digits against a mask of ones: they are all set
   * just when the number is no smaller than the mask.
   */
  lemma {:induction false} AndHigh(x: nat, n: nat, k: nat)
    requires k <= n && x < Pow2(n)
    ensures Pow2(k) <= Pow2(n)
    ensures And(x, Pow2(n) - Pow2(k)) == Pow2(n) - Pow2(k) <==> x >= Pow2(n) - Pow2(k)
  {
    hide And;
    if k == 0 {
      AndLow(x, n);
      LowOfSmall(x, n);
    } else {
      AndHigh(x / 2, n - 1, k - 1);
      AndEven(x, Pow2(n - 1) - Pow2(k - 1));
    }
  }

  lemma Powers()
    ensures Pow2(0) == 1 && Pow2(1) == 2 && Pow2(2) == 4 && Pow2(3) == 8 && Pow2(4) == 16
    ensures Pow2(5) == 32 && Pow2(6) == 64 && Pow2(7) == 128 && Pow2(8) == 256
  {
  }

  /** The lowest digits are the remainder of a division by 2^k. */
  lemma {:induction false} LowIsRemainder(x: nat, k: nat) returns (q: nat)
    ensures x == q * Pow2(k) + Low(x, k) && Low(x, k) < Pow2(k)
  {
    if k == 0 {
      q := x;
    } else {
      q := LowIsRemainder(x / 2, k - 1);
      var p := q * Pow2(k - 1);
      assert q * Pow2(k) == 2 * p;
    }
  }

  lemma {:induction false} LowOfShl(x: nat, k: nat)
    ensures Low(Shl(x, k), k) == 0
  {
    if k == 0 {
      assert Low(x, 0) == 0;
    } else {
      hide Low;
      LowOfShl(x, k - 1);
      LowOfDouble(Shl(x, k - 1), k - 1);
    }
  }

  lemma LowOfDouble(y: nat, k: nat)
    ensures Low(2 * y, k + 1) == 2 * Low(y, k)
  {
    assert 2 * y / 2 == y && 2 * y % 2 == 0;
  }

  /** A higher digit does not change the lowest ones. */
  lemma {:induction false} LowOfSum(p: nat, k: nat)
    requires p < Pow2(k)
    ensures Low(2 * Pow2(k) + p, k) == p
  {
    if k > 0 {
      LowOfSum(p / 2, k - 1);
      assert (2 * Pow2(k) + p) / 2 == 2 * Pow2(k - 1) + p / 2;
    }
  }

  lemma {:induction false} ShlAdds(x: nat, y: nat, k: nat)
    ensures Shl(x + y, k) == Shl(x, k) + Shl(y, k)
  {
    if k > 0 {
      ShlAdds(x, y, k - 1);
    }
  }

  lemma {:induction false} ShlOfPow(j: nat, k: nat)
    ensures Shl(Pow2(j), k) == Pow2(j + k)
  {
    if k > 0 {
      ShlOfPow(j, k - 1);
    }
  }

  lemma {:induction false} ShlFront(x: nat, k: nat)
    ensures Shl(2 * x, k) == 2 * Shl(x, k)
  {
    if k > 0 {
      ShlFront(x, k - 1);
    }
  }

  /** Shifting back undoes shifting. */
  lemma {:induction false} ShrInverts(x: nat, k: nat)
    ensures Shr(Shl(x, k), k) == x
    decreases k
  {
    if k > 0 {
      ShlFront(x, k - 1);
      ShrInverts(2 * x, k - 1);
    }
  }

  /** k ones, less j of them. */
  lemma {:induction false} ShrOfOnes(k: nat, j: nat)
    requires j <= k
    ensures Shr(Pow2(k) - 1, j) == Pow2(k - j) - 1
  {
    if j > 0 {
      ShrOfOnes(k, j - 1);
    }
  }

  lemma {:induction false} OrCommutes(x: nat, y: nat)
    ensures Or(x, y) == Or(y, x)
  {
    if x != 0 || y != 0 {
      OrCommutes(x / 2, y / 2);
    }
  }

  /** `x & 63` and `x & 255` */
  lemma AndOnes(x: nat)
    ensures And(x, 63) == x % 64 && And(x, 255) == x % 256
  {
    hide And, Low, Pow2;
    Powers();
    AndLow(x, 6);
    AndLow(x, 8);
    LowSixEight(x);
  }

  lemma LowSixEight(x: nat)
    ensures Low(x, 6) == x % 64 && Low(x, 8) == x % 256
  {
    hide Low, Pow2;
    Powers();
    var six := LowIsRemainder(x, 6);
    By64(x, six, Low(x, 6));
    var eight := LowIsRemainder(x, 8);
    By256(x, eight, Low(x, 8));
  }

  lemma By64(x: nat, q: nat, r: nat)
    requires x == q * 64 + r && r < 64
    ensures x % 64 == r
  {
  }

  lemma By256(x: nat, q: nat, r: nat)
    requires x == q * 256 + r && r < 256
    ensures x % 256 == r
  {
  }
}
