/** The 32-bit maps `task_vector` and `ptree_vector`: bit `i` is set when slot `i` is in use.
    A word is a natural number; shifting right by one is division by two. */
module Bitmap {
  /** `(v >> i) & 1`, read by shifting one place at a time. */
  predicate Bit(v: nat, i: nat) {
    if i == 0 then v % 2 == 1 else Bit(v / 2, i - 1)
  }

  /** `v | (1 << i)` */
  function SetBit(v: nat, i: nat): nat {
    if i == 0 then v - v % 2 + 1 else v % 2 + 2 * SetBit(v / 2, i - 1)
  }

  /** `v & ~(1 << i)` */
  function ClearBit(v: nat, i: nat): nat {
    if i == 0 then v - v % 2 else v % 2 + 2 * ClearBit(v / 2, i - 1)
  }

  /** How many slots are in use. */
  function PopCount(v: nat): nat {
    if v == 0 then 0 else v % 2 + PopCount(v / 2)
  }

  /** Setting a bit changes that bit and no other. */
  lemma {:induction false} SetBitAt(v: nat, i: nat, j: nat)
    ensures Bit(SetBit(v, i), j) <==> j == i || Bit(v, j)
  {
    if i > 0 && j > 0 {
      SetBitAt(v / 2, i - 1, j - 1);
    }
  }

  /** Clearing a bit changes that bit and no other. */
  lemma {:induction false} ClearBitAt(v: nat, i: nat, j: nat)
    ensures Bit(ClearBit(v, i), j) <==> j != i && Bit(v, j)
  {
    if i > 0 && j > 0 {
      ClearBitAt(v / 2, i - 1, j - 1);
    }
  }

  /** A word is determined by its bits, so the two lemmas above say all there is to say. */
  lemma {:induction false} SameBits(v: nat, w: nat)
    requires forall i: nat :: Bit(v, i) <==> Bit(w, i)
    ensures v == w
    decreases v + w
  {
    assert Bit(v, 0) <==> Bit(w, 0);
    if v + w > 0 {
      forall i: nat ensures Bit(v / 2, i) <==> Bit(w / 2, i) {
        assert Bit(v, i + 1) <==> Bit(w, i + 1);
      }
      SameBits(v / 2, w / 2);
    }
  }

  lemma {:induction false} CountSet(v: nat, i: nat)
    requires !Bit(v, i)
    ensures PopCount(SetBit(v, i)) == PopCount(v) + 1
  {
    if i > 0 {
      CountSet(v / 2, i - 1);
      assert SetBit(v, i) / 2 == SetBit(v / 2, i - 1);
    } else {
      assert SetBit(v, 0) / 2 == v / 2;
    }
  }

  lemma {:induction false} CountClear(v: nat, i: nat)
    requires Bit(v, i)
    ensures PopCount(ClearBit(v, i)) == PopCount(v) - 1
  {
    if i > 0 {
      CountClear(v / 2, i - 1);
      assert ClearBit(v, i) / 2 == ClearBit(v / 2, i - 1);
      assert v > 0;
    } else {
      assert ClearBit(v, 0) / 2 == v / 2;
    }
  }

  /** No bit at or above `n` is set. */
  ghost predicate Below(v: nat, n: nat) {
    forall i: nat :: i >= n ==> !Bit(v, i)
  }

  lemma {:induction false} BelowHalf(v: nat, n: nat)
    requires n > 0 && Below(v, n)
    ensures Below(v / 2, n - 1)
  {
    forall i: nat | i >= n - 1 ensures !Bit(v / 2, i) {
      assert !Bit(v, i + 1);
    }
  }

  lemma {:induction false} NoBits(v: nat)
    requires Below(v, 0)
    ensures v == 0
  {
    forall i: nat ensures Bit(v, i) <==> Bit(0, i) {
      ZeroBits(i);
    }
    SameBits(v, 0);
  }

  lemma {:induction false} ZeroBits(i: nat)
    ensures !Bit(0, i)
  {
    if i > 0 {
      ZeroBits(i - 1);
    }
  }

  /** Every bit below `n` is set. */
  ghost predicate Full(v: nat, n: nat) {
    forall i: nat :: i < n ==> Bit(v, i)
  }

  lemma {:induction false} FullHalf(v: nat, n: nat)
    requires n > 0
    ensures Full(v, n) <==> v % 2 == 1 && Full(v / 2, n - 1)
  {
    if Full(v, n) {
      assert Bit(v, 0);
      forall i: nat | i < n - 1 ensures Bit(v / 2, i) {
        assert Bit(v, i + 1);
      }
    }
    if v % 2 == 1 && Full(v / 2, n - 1) {
      forall i: nat | i < n ensures Bit(v, i) {
        if i > 0 {
          assert Bit(v / 2, i - 1);
        }
      }
    }
  }

  /** `n` slots are never more than `n`, and all of them in use exactly when each bit is set. */
  lemma {:induction false} FullCount(v: nat, n: nat)
    requires Below(v, n)
    ensures PopCount(v) <= n
    ensures PopCount(v) == n <==> Full(v, n)
  {
    if n == 0 {
      NoBits(v);
    } else {
      BelowHalf(v, n);
      FullCount(v / 2, n - 1);
      FullHalf(v, n);
    }
  }

  /** The lowest clear slot below `max`, or -1: what both allocators look for. */
  function LeastClear(v: nat, max: nat): (r: int)
    ensures -1 <= r < max
    ensures r >= 0 ==> !Bit(v, r) && forall i: nat :: i < r ==> Bit(v, i)
    ensures r < 0 ==> forall i: nat :: i < max ==> Bit(v, i)
  {
    LeastClearFrom(v, 0, max)
  }

  function LeastClearFrom(v: nat, i: nat, max: nat): (r: int)
    requires i <= max
    ensures -1 <= r < max
    ensures r >= 0 ==> i <= r && !Bit(v, r) && forall j: nat :: i <= j < r ==> Bit(v, j)
    ensures r < 0 ==> forall j: nat :: i <= j < max ==> Bit(v, j)
    decreases max - i
  {
    if i == max then -1 else if !Bit(v, i) then i else LeastClearFrom(v, i + 1, max)
  }

  /** Number of set bits below `i`. */
  function Rank(v: nat, i: nat): (r: nat)
    ensures r <= i
  {
    if i == 0 then 0 else Rank(v, i - 1) + (if Bit(v, i - 1) then 1 else 0)
  }

  lemma {:induction false} RankGrows(v: nat, i: nat, j: nat)
    requires i <= j
    ensures Rank(v, i) <= Rank(v, j)
    ensures i < j && Bit(v, i) ==> Rank(v, i) < Rank(v, j)
    ensures (forall k: nat :: i <= k < j ==> !Bit(v, k)) ==> Rank(v, i) == Rank(v, j)
    decreases j
  {
    if i < j {
      RankGrows(v, i, j - 1);
    }
  }

  /** The slot after shifting `i` places is the slot `i` places up. */
  lemma {:induction false} BitOfShift(v: nat, i: nat)
    ensures Bit(v, i) <==> Shift(v, i) % 2 == 1
    ensures Shift(v, i + 1) == Shift(v, i) / 2
  {
    if i > 0 {
      BitOfShift(v / 2, i - 1);
    }
  }

  /** `v >> i` */
  function Shift(v: nat, i: nat): nat {
    if i == 0 then v else Shift(v / 2, i - 1)
  }
}
