/**
 Sixteen bits in a word: raising one, joining two words, counting. (cryptoms/occsimplifier.cpp:2211-2326)
 */
module Masks {
  type Mask = bv16

  // ----- single bits of a mask -----

  /** 1 << k */
  function Pos(k: nat): Mask
    requires k < 16
  {
    if k < 8 then
      if k < 4 then
        if k == 0 then 0x1 else if k == 1 then 0x2 else if k == 2 then 0x4 else 0x8
      else if k == 4 then 0x10 else if k == 5 then 0x20 else if k == 6 then 0x40 else 0x80
    else if k < 12 then
      if k == 8 then 0x100 else if k == 9 then 0x200 else if k == 10 then 0x400 else 0x800
    else if k == 12 then 0x1000 else if k == 13 then 0x2000 else if k == 14 then 0x4000 else 0x8000
  }

  predicate Meets(w: Mask, b: Mask) {
    w & b != 0
  }

  predicate HasBit(w: Mask, k: nat) {
    k < 16 && Meets(w, Pos(k))
  }

  function Or(w: Mask, x: Mask): Mask {
    w | x
  }

  lemma PosNext(k: nat)
    requires k < 16
    ensures Pos(k) << 1 == if k < 15 then Pos(k + 1) else 0
  {
  }

  lemma PosApart(j: nat, k: nat)
    requires j < 16 && k < 16
    ensures Pos(j) & Pos(k) == if j == k then Pos(j) else 0
    ensures Pos(j) != 0
  {
  }

  lemma OrBit(w: Mask, x: Mask, k: nat)
    ensures HasBit(Or(w, x), k) <==> HasBit(w, k) || HasBit(x, k)
  {
    if k < 16 {
      hide Pos, Meets, Or;
      OrMeets(w, x, Pos(k));
    }
  }

  lemma OrMeets(w: Mask, x: Mask, b: Mask)
    ensures Meets(Or(w, x), b) <==> Meets(w, b) || Meets(x, b)
  {
    hide Meets, Or;
    if Meets(w, b) {
      OrKeeps(w, x, b);
    } else if Meets(x, b) {
      OrKeeps(x, w, b);
      OrTurned(w, x);
    } else {
      OrMisses(w, x, b);
    }
  }

  lemma OrKeeps(w: Mask, x: Mask, b: Mask)
    requires Meets(w, b)
    ensures Meets(Or(w, x), b)
  {
  }

  lemma OrMisses(w: Mask, x: Mask, b: Mask)
    requires !Meets(w, b) && !Meets(x, b)
    ensures !Meets(Or(w, x), b)
  {
  }

  lemma OrTurned(w: Mask, x: Mask)
    ensures Or(w, x) == Or(x, w)
  {
  }

  lemma OrTwice(w: Mask, x: Mask)
    ensures Or(Or(w, x), x) == Or(w, x)
  {
  }

  lemma PosBit(j: nat, k: nat)
    requires j < 16
    ensures HasBit(Pos(j), k) <==> j == k
  {
    if k < 16 {
      PosApart(j, k);
    }
  }

  lemma NoBits(w: Mask)
    requires forall k {:trigger HasBit(w, k)} :: !HasBit(w, k)
    ensures w == 0
  {
    assert !HasBit(w, 0) && !HasBit(w, 1) && !HasBit(w, 2) && !HasBit(w, 3) && !HasBit(w, 4) && !HasBit(w, 5)
      && !HasBit(w, 6) && !HasBit(w, 7);
    assert !HasBit(w, 8) && !HasBit(w, 9) && !HasBit(w, 10) && !HasBit(w, 11) && !HasBit(w, 12) && !HasBit(w, 13)
      && !HasBit(w, 14) && !HasBit(w, 15);
    ZeroWord(w);
  }

  lemma ZeroWord(w: Mask)
    requires w & 0x1 == 0 && w & 0x2 == 0 && w & 0x4 == 0 && w & 0x8 == 0 && w & 0x10 == 0 && w & 0x20 == 0
      && w & 0x40 == 0 && w & 0x80 == 0
    requires w & 0x100 == 0 && w & 0x200 == 0 && w & 0x400 == 0 && w & 0x800 == 0
    requires w & 0x1000 == 0 && w & 0x2000 == 0 && w & 0x4000 == 0 && w & 0x8000 == 0
    ensures w == 0
  {
  }

  function PopBelow(w: Mask, n: nat): nat
    requires n <= 16
  {
    if n == 0 then 0 else PopBelow(w, n - 1) + if HasBit(w, n - 1) then 1 else 0
  }

  /** `my_popcnt` */
  function PopCnt(w: Mask): nat {
    PopBelow(w, 16)
  }

  /** With only the lowest `n` bits in use, the count is `n` exactly if all of them are set. */
  lemma PopFull(w: Mask, n: nat)
    requires n <= 16 && forall k {:trigger HasBit(w, k)} :: n <= k ==> !HasBit(w, k)
    ensures PopCnt(w) <= n && (PopCnt(w) == n <==> forall k {:trigger HasBit(w, k)} :: 0 <= k < n ==> HasBit(w, k))
  {
    PopUpTo(w, n);
    PopRest(w, n, 16);
  }

  lemma {:induction false} PopUpTo(w: Mask, n: nat)
    requires n <= 16
    ensures PopBelow(w, n) <= n
      && (PopBelow(w, n) == n <==> forall k {:trigger HasBit(w, k)} :: 0 <= k < n ==> HasBit(w, k))
  {
    if n > 0 {
      PopUpTo(w, n - 1);
      assert HasBit(w, n - 1) || !HasBit(w, n - 1);
    }
  }

  lemma {:induction false} PopRest(w: Mask, n: nat, m: nat)
    requires n <= m <= 16 && forall k {:trigger HasBit(w, k)} :: n <= k ==> !HasBit(w, k)
    ensures PopBelow(w, m) == PopBelow(w, n)
  {
    if n < m {
      PopRest(w, n, m - 1);
    }
  }
}
