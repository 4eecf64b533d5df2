/**
 Bits packed into 64-bit words: how a bit number is turned into a shift amount, and what the word operations
 do to single bits. (cryptoms/packedrow.h)
 */
module PackedBits {
  type Word = bv64

  predicate Bit(w: Word, b: Word)
    requires b < 64
  {
    (w >> b) & 1 == 1
  }

  // ----- a bit number as a word -----

  function Pos(k: nat): (b: Word)
    requires k < 64
    ensures b < 64
  {
    (if k % 2 == 1 then 1 else 0) | (if (k / 2) % 2 == 1 then 2 else 0) | (if (k / 4) % 2 == 1 then 4 else 0)
    | (if (k / 8) % 2 == 1 then 8 else 0) | (if (k / 16) % 2 == 1 then 16 else 0) | (if (k / 32) % 2 == 1 then 32
      else 0)
  }

  function Num(b: Word): (k: nat)
    requires b < 64
    ensures k < 64
  {
    (if b & 1 != 0 then 1 else 0) + (if b & 2 != 0 then 2 else 0) + (if b & 4 != 0 then 4 else 0)
    + (if b & 8 != 0 then 8 else 0) + (if b & 16 != 0 then 16 else 0) + (if b & 32 != 0 then 32 else 0)
  }

  lemma PosDigits(k: nat)
    requires k < 64
    ensures var b := Pos(k);
      && (b & 1 != 0 <==> k % 2 == 1) && (b & 2 != 0 <==> (k / 2) % 2 == 1) && (b & 4 != 0 <==> (k / 4) % 2 == 1)
      && (b & 8 != 0 <==> (k / 8) % 2 == 1) && (b & 16 != 0 <==> (k / 16) % 2 == 1)
        && (b & 32 != 0 <==> (k / 32) % 2 == 1)
  {
  }

  lemma NumPos(k: nat)
    requires k < 64
    ensures Num(Pos(k)) == k
  {
    hide Pos;
    PosDigits(k);
    Digits(k);
  }

  lemma Digits(k: nat)
    requires k < 64
    ensures k == k % 2 + 2 * ((k / 2) % 2) + 4 * ((k / 4) % 2) + 8 * ((k / 8) % 2) + 16 * ((k / 16) % 2)
      + 32 * ((k / 32) % 2)
  {
    assert k / 4 == k / 2 / 2 && k / 8 == k / 4 / 2 && k / 16 == k / 8 / 2 && k / 32 == k / 16 / 2 && k / 32 / 2 == 0;
  }

  lemma PosNum(b: Word)
    requires b < 64
    ensures Pos(Num(b)) == b
  {
  }

  lemma NumOrder(b: Word, c: Word)
    requires b <= c < 64
    ensures Num(b) <= Num(c)
  {
  }

  lemma PosOrder(k: nat, j: nat)
    requires k <= j < 64
    ensures Pos(k) <= Pos(j)
  {
    hide Pos, Num;
    NumPos(k);
    NumPos(j);
    if Pos(j) < Pos(k) {
      NumOrder(Pos(j), Pos(k));
    }
  }

  // ----- single words -----

  function Shr(w: Word, b: Word): Word
    requires b < 64
  {
    w >> b
  }

  function Clr(w: Word, b: Word): Word
    requires b < 64
  {
    w & !((1 as Word) << b)
  }

  function Orr(w: Word, b: Word): Word
    requires b < 64
  {
    w | ((1 as Word) << b)
  }

  /** Some bit that is set, found by halving. */
  ghost function SetBitOf(w: Word): (b: Word)
    requires w != 0
    ensures b < 64 && Bit(w, b)
  {
    var w1, b1 := if w & 0xFFFF_FFFF == 0 then w >> 32 else w, if w & 0xFFFF_FFFF == 0 then 32 as Word else 0;
    var w2, b2 := if w1 & 0xFFFF == 0 then w1 >> 16 else w1, if w1 & 0xFFFF == 0 then b1 + 16 else b1;
    var w3, b3 := if w2 & 0xFF == 0 then w2 >> 8 else w2, if w2 & 0xFF == 0 then b2 + 8 else b2;
    var w4, b4 := if w3 & 0xF == 0 then w3 >> 4 else w3, if w3 & 0xF == 0 then b3 + 4 else b3;
    var w5, b5 := if w4 & 3 == 0 then w4 >> 2 else w4, if w4 & 3 == 0 then b4 + 2 else b4;
    if w5 & 1 == 0 then b5 + 1 else b5
  }

  lemma ShiftedBit(w: Word, k: Word, b: Word) returns (c: Word)
    requires k < 64 && b < 64 && Bit(Shr(w, k), b)
    ensures k <= c < 64 && Bit(w, c)
  {
    c := RawShiftedBit(w, k, b);
  }

  lemma RawShiftedBit(w: Word, k: Word, b: Word) returns (c: Word)
    requires k < 64 && b < 64 && ((w >> k) >> b) & 1 == 1
    ensures k <= c < 64 && (w >> c) & 1 == 1
  {
    c := k + b;
  }

  lemma ShiftedOut(w: Word, k: Word, b: Word)
    requires k <= b < 64 && Shr(w, k) == 0
    ensures !Bit(w, b)
  {
  }

  lemma XorBit(w: Word, x: Word, b: Word)
    requires b < 64
    ensures Bit(w ^ x, b) <==> Bit(w, b) != Bit(x, b)
  {
  }

  lemma ClearedBit(w: Word, c: Word, b: Word)
    requires c < 64 && b < 64
    ensures Bit(Clr(w, c), b) <==> b != c && Bit(w, b)
  {
    hide Bit;
    OneBit(c, b);
    AndNotBit(w, (1 as Word) << c, b);
  }

  lemma OneBit(c: Word, b: Word)
    requires c < 64 && b < 64
    ensures Bit((1 as Word) << c, b) <==> b == c
  {
  }

  lemma AndNotBit(w: Word, x: Word, b: Word)
    requires b < 64
    ensures Bit(w & !x, b) <==> Bit(w, b) && !Bit(x, b)
  {
  }

  lemma OrBit(w: Word, x: Word, b: Word)
    requires b < 64
    ensures Bit(w | x, b) <==> Bit(w, b) || Bit(x, b)
  {
  }

  lemma RaisedBit(w: Word, c: Word, b: Word)
    requires c < 64 && b < 64
    ensures Bit(Orr(w, c), b) <==> b == c || Bit(w, b)
  {
    hide Bit;
    OneBit(c, b);
    OrBit(w, (1 as Word) << c, b);
  }

  // ----- word operations by bit number -----

  function Shifted(w: Word, k: nat): Word
    requires k < 64
  {
    Shr(w, Pos(k))
  }

  function Cleared(w: Word, k: nat): Word
    requires k < 64
  {
    Clr(w, Pos(k))
  }

  function Raised(w: Word, k: nat): Word
    requires k < 64
  {
    Orr(w, Pos(k))
  }

  function Xored(w: Word, x: Word): Word {
    w ^ x
  }

  predicate WordBit(w: Word, k: nat)
    requires k < 64
  {
    Bit(w, Pos(k))
  }

  lemma XoredBit(w: Word, x: Word, k: nat)
    requires k < 64
    ensures WordBit(Xored(w, x), k) <==> (WordBit(w, k) != WordBit(x, k))
  {
    hide Pos, Bit;
    XorBit(w, x, Pos(k));
  }

  lemma SamePos(k: nat, j: nat)
    requires k < 64 && j < 64 && Pos(k) == Pos(j)
    ensures k == j
  {
    hide Pos, Num;
    NumPos(k);
    NumPos(j);
  }

  lemma ClearedWordBit(w: Word, c: nat, k: nat)
    requires c < 64 && k < 64
    ensures WordBit(Cleared(w, c), k) <==> k != c && WordBit(w, k)
  {
    hide Pos, Bit, Clr;
    ClearedBit(w, Pos(c), Pos(k));
    if Pos(c) == Pos(k) {
      SamePos(c, k);
    }
  }

  lemma RaisedWordBit(w: Word, c: nat, k: nat)
    requires c < 64 && k < 64
    ensures WordBit(Raised(w, c), k) <==> k == c || WordBit(w, k)
  {
    hide Pos, Bit, Orr;
    RaisedBit(w, Pos(c), Pos(k));
    if Pos(c) == Pos(k) {
      SamePos(c, k);
    }
  }

  lemma ShiftedOutBit(w: Word, k: nat, j: nat)
    requires k <= j < 64 && Shifted(w, k) == 0
    ensures !WordBit(w, j)
  {
    hide Pos, Bit, Shr;
    PosOrder(k, j);
    ShiftedOut(w, Pos(k), Pos(j));
  }

  lemma PosAfter(k: nat, c: Word) returns (j: nat)
    requires k < 64 && Pos(k) <= c < 64
    ensures k <= j < 64 && Pos(j) == c
  {
    hide Pos, Num;
    j := Num(c);
    PosNum(c);
    NumPos(k);
    NumOrder(Pos(k), c);
  }

  lemma ShiftedInBit(w: Word, k: nat) returns (j: nat)
    requires k < 64 && Shifted(w, k) != 0
    ensures k <= j < 64 && WordBit(w, j)
  {
    hide Pos, Num, SetBitOf, Bit, Shr;
    var b := SetBitOf(Shr(w, Pos(k)));
    var c := ShiftedBit(w, Pos(k), b);
    j := PosAfter(k, c);
  }

  /** What is left after shifting out the first `k` bits is zero iff all the others are. */
  lemma ShiftTest(w: Word, k: nat)
    requires k < 64
    ensures Shifted(w, k) == 0 <==> forall j: nat {:trigger WordBit(w, j)} :: k <= j < 64 ==> !WordBit(w, j)
  {
    hide Shifted, WordBit;
    if Shifted(w, k) == 0 {
      forall j: nat | k <= j < 64
        ensures !WordBit(w, j)
      {
        ShiftedOutBit(w, k, j);
      }
    } else {
      var j := ShiftedInBit(w, k);
    }
  }

  lemma ZeroTest(w: Word)
    ensures w == 0 <==> forall j: nat {:trigger WordBit(w, j)} :: j < 64 ==> !WordBit(w, j)
  {
    hide WordBit;
    assert Shifted(w, 0) == w by {
      assert Pos(0) == 0;
    }
    ShiftTest(w, 0);
  }

  // ----- runs of words as bits -----

  /** Bit `k` of a run of words. */
  ghost predicate BitAt(ws: seq<Word>, k: nat)
    requires k < 64 * |ws|
  {
    WordBit(ws[k / 64], k % 64)
  }

  ghost function BitsOf(ws: seq<Word>): (bs: seq<bool>)
    ensures |bs| == 64 * |ws|
    ensures forall k {:trigger bs[k]} :: 0 <= k < |bs| ==> bs[k] == BitAt(ws, k)
  {
    seq(64 * |ws|, (k: int) requires 0 <= k < 64 * |ws| => BitAt(ws, k))
  }

  lemma ClearInWords(ws: seq<Word>, c: nat)
    requires c < 64 * |ws|
    ensures BitsOf(ws[c / 64 := Cleared(ws[c / 64], c % 64)]) == BitsOf(ws)[c := false]
  {
    hide WordBit, Cleared;
    var ws' := ws[c / 64 := Cleared(ws[c / 64], c % 64)];
    forall k | 0 <= k < 64 * |ws|
      ensures BitAt(ws', k) == (k != c && BitAt(ws, k))
    {
      ClearedWordBit(ws[c / 64], c % 64, k % 64);
    }
  }

  lemma RaiseInWords(ws: seq<Word>, c: nat)
    requires c < 64 * |ws|
    ensures BitsOf(ws[c / 64 := Raised(ws[c / 64], c % 64)]) == BitsOf(ws)[c := true]
  {
    hide WordBit, Raised;
    var ws' := ws[c / 64 := Raised(ws[c / 64], c % 64)];
    forall k | 0 <= k < 64 * |ws|
      ensures BitAt(ws', k) == (k == c || BitAt(ws, k))
    {
      RaisedWordBit(ws[c / 64], c % 64, k % 64);
    }
  }

  function XorBits(a: seq<bool>, b: seq<bool>): (c: seq<bool>)
    requires |a| == |b|
    ensures |c| == |a| && forall k {:trigger c[k]} :: 0 <= k < |c| ==> c[k] == (a[k] != b[k])
  {
    seq(|a|, k requires 0 <= k < |a| => a[k] != b[k])
  }

  lemma XorInWords(a: seq<Word>, b: seq<Word>, c: seq<Word>)
    requires |a| == |b| == |c| && forall k :: 0 <= k < |a| ==> c[k] == Xored(a[k], b[k])
    ensures BitsOf(c) == XorBits(BitsOf(a), BitsOf(b))
  {
    hide WordBit, Xored;
    forall k | 0 <= k < 64 * |a|
      ensures BitAt(c, k) == (BitAt(a, k) != BitAt(b, k))
    {
      XoredBit(a[k / 64], b[k / 64], k % 64);
    }
  }

  /** All bits from `from` on are zero iff the rest of its word and all later words are. */
  lemma ZeroFrom(ws: seq<Word>, from: nat)
    requires from < 64 * |ws|
    ensures (Shifted(ws[from / 64], from % 64) == 0 && forall i :: from / 64 < i < |ws| ==> ws[i] == 0)
      <==> forall k {:trigger BitsOf(ws)[k]} :: from <= k < 64 * |ws| ==> !BitsOf(ws)[k]
  {
    hide WordBit, Shifted;
    var bs := BitsOf(ws);
    ShiftTest(ws[from / 64], from % 64);
    if forall k {:trigger bs[k]} :: from <= k < 64 * |ws| ==> !bs[k] {
      forall j: nat | from % 64 <= j < 64
        ensures !WordBit(ws[from / 64], j)
      {
        BitIn(ws, from / 64, j);
      }
      forall i | from / 64 < i < |ws|
        ensures ws[i] == 0
      {
        forall j: nat | j < 64
          ensures !WordBit(ws[i], j)
        {
          BitIn(ws, i, j);
        }
        ZeroTest(ws[i]);
      }
    }
    if Shifted(ws[from / 64], from % 64) == 0 && forall i :: from / 64 < i < |ws| ==> ws[i] == 0 {
      forall k | from <= k < 64 * |ws|
        ensures !bs[k]
      {
        ZeroTest(ws[k / 64]);
      }
    }
  }

  lemma BitIn(ws: seq<Word>, i: nat, j: nat)
    requires i < |ws| && j < 64
    ensures 64 * i + j < 64 * |ws| && BitsOf(ws)[64 * i + j] == WordBit(ws[i], j)
  {
    assert (64 * i + j) / 64 == i && (64 * i + j) % 64 == j;
  }
}
