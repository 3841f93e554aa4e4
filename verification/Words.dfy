/** Bit operations of unsigned machine words, on natural numbers. */
module Words {
  import opened Dyadic

  function Or(a: nat, b: nat): (r: nat)
    ensures r >= a && r >= b
  {
    if a == 0 then b
    else 2 * Or(a / 2, b / 2) + if a % 2 == 1 || b % 2 == 1 then 1 else 0
  }

  function ShiftRight(a: nat, k: nat): nat
    decreases k, a
  {
    if k == 0 then a else ShiftRight(a / 2, k - 1)
  }

  lemma {:induction false} OrBelow(a: nat, b: nat, k: nat)
    requires a < Pow2(k) && b < Pow2(k)
    ensures Or(a, b) < Pow2(k)
  {
    if a != 0 {
      OrBelow(a / 2, b / 2, k - 1);
    }
  }

  /** The bits of `x` below position `k` are ones, except perhaps the lowest `j`. */
  ghost predicate TopOnes(x: nat, k: nat, j: nat) {
    j <= k && Pow2(k) - Pow2(j) <= x < Pow2(k)
  }

  lemma {:induction false} OrFills(x: nat, y: nat, k: nat, j: nat)
    requires TopOnes(x, k, j) && y < Pow2(j)
    ensures Or(x, y) >= Pow2(k) - Pow2(j) + y
    decreases j
  {
    if j > 0 && x != 0 {
      OrFills(x / 2, y / 2, k - 1, j - 1);
    }
  }

  lemma {:induction false} ShiftOnes(x: nat, k: nat, j: nat, s: nat)
    requires TopOnes(x, k, j) && s <= k
    ensures ShiftRight(x, s) < Pow2(k - s)
    ensures s <= j ==> ShiftRight(x, s) >= Pow2(k - s) - Pow2(j - s)
    ensures s > j ==> ShiftRight(x, s) == Pow2(k - s) - 1
    decreases s
  {
    if s > 0 {
      assert TopOnes(x / 2, k - 1, if j > 0 then j - 1 else 0);
      ShiftOnes(x / 2, k - 1, if j > 0 then j - 1 else 0, s - 1);
    }
  }

  lemma {:induction false} ShiftAway(x: nat, k: nat, s: nat)
    requires x < Pow2(k) && s >= k
    ensures ShiftRight(x, s) == 0
    decreases s
  {
    if s > 0 {
      ShiftAway(x / 2, if k > 0 then k - 1 else 0, s - 1);
    }
  }

  lemma {:induction false} ShiftPow2(k: nat, s: nat)
    requires s <= k
    ensures ShiftRight(Pow2(k), s) == Pow2(k - s)
    decreases s
  {
    if s > 0 {
      ShiftPow2(k - 1, s - 1);
    }
  }

  ghost function Left(k: nat, s: nat): nat { if s < k then k - s else 0 }

  /** One step `x |= x >> s` doubles the run of leading ones from `s` to `2 s`. */
  lemma {:induction false} SmearStep(x: nat, k: nat, s: nat)
    requires s > 0 && TopOnes(x, k, Left(k, s))
    ensures TopOnes(Or(x, ShiftRight(x, s)), k, Left(k, 2 * s))
  {
    var y := ShiftRight(x, s);
    if s >= k {
      ShiftAway(x, k, s);
      OrBelow(x, y, k);
    } else {
      var j := k - s;
      ShiftOnes(x, k, j, s);
      OrFills(x, y, k, j);
      if s < k - s {
        Pow2Grows(k - s, k);
      }
      assert y < Pow2(k) by { Pow2Grows(k - s, k); }
      OrBelow(x, y, k);
    }
  }

  const WORD32 := 0x1_0000_0000

  /** The steps x |= x >> s for s, 2s, 4s, ... below 32: from s = 1 they copy the highest one into
      every lower bit of a 32-bit word. */
  function Smear(x: nat, s: nat): nat
    requires s > 0
    decreases 32 - s, x
  {
    if s >= 32 then x else Smear(Or(x, ShiftRight(x, s)), 2 * s)
  }

  /** Adding one to a 32-bit word. */
  function Increment32(y: nat): nat {
    if y + 1 == WORD32 then 0 else y + 1
  }

  /** The kernel's NextPowerOfTwo on 32-bit words. */
  function NextPowerOfTwo(x: nat): nat
    requires x < WORD32
  {
    if x == 0 then 1 else Increment32(Smear(x - 1, 1))
  }

  lemma {:induction false} TopBit(x: nat) returns (k: nat)
    ensures x < Pow2(k) && (k > 0 ==> Pow2(k - 1) <= x)
  {
    if x == 0 {
      k := 0;
    } else {
      k := TopBit(x / 2);
      k := k + 1;
    }
  }

  lemma Pow2Of32()
    ensures Pow2(32) == WORD32
  {
    assert Pow2(8) == 0x100;
    Pow2Add(8, 8);
    assert 0x100 * 0x100 == 0x1_0000;
    Pow2Add(16, 16);
    assert 0x1_0000 * 0x1_0000 == 0x1_0000_0000;
  }

  lemma {:induction false} Smeared(x: nat, k: nat, s: nat)
    requires 0 < s && TopOnes(x, k, Left(k, s)) && k <= 32
    ensures Smear(x, s) == Pow2(k) - 1
    decreases 32 - s
  {
    if s < 32 {
      SmearStep(x, k, s);
      Smeared(Or(x, ShiftRight(x, s)), k, 2 * s);
    }
  }

  lemma {:induction false} TopBit32(x: nat) returns (k: nat)
    requires x < WORD32
    ensures x < Pow2(k) && (k > 0 ==> Pow2(k - 1) <= x)
    ensures k <= 32 && (k == 32 <==> x >= 0x8000_0000)
    ensures Pow2(k) == WORD32 <==> k == 32
  {
    k := TopBit(x);
    Pow2Of32();
    if k < 32 {
      Pow2Grows(k, 32);
      Pow2Grows(k - 1 + 1, 32);
    } else if k > 32 {
      Pow2Grows(32, k);
    }
  }

  lemma {:induction false} SmearedWord(y: nat, k: nat)
    requires y < Pow2(k) && (k > 0 ==> Pow2(k - 1) <= y) && k <= 32
    ensures Smear(y, 1) + 1 == Pow2(k)
  {
    assert TopOnes(y, k, Left(k, 1));
    Smeared(y, k, 1);
  }

  lemma {:induction false} NextPowerOfTwoValue(x: nat, k: nat)
    requires 1 <= x < WORD32 && x - 1 < Pow2(k) && (k > 0 ==> Pow2(k - 1) <= x - 1) && k <= 32
    ensures NextPowerOfTwo(x) == if Pow2(k) == WORD32 then 0 else Pow2(k)
  {
    SmearedWord(x - 1, k);
  }

  /** The result is the least power of two not below `x`, exactly when that power fits 32 bits;
      above 2^31 the word wraps to 0. */
  lemma {:induction false} NextPowerOfTwoIsLeast(x: nat) returns (k: nat)
    requires x < WORD32
    ensures x <= 0x8000_0000 <==> NextPowerOfTwo(x) != 0
    ensures x <= 0x8000_0000 ==> NextPowerOfTwo(x) == Pow2(k) && x <= Pow2(k) && (k > 0 ==> Pow2(k - 1) < x)
  {
    if x == 0 {
      k := 0;
    } else {
      k := TopBit32(x - 1);
      NextPowerOfTwoValue(x, k);
    }
  }
}
