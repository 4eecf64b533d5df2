/**
 XOR constraints as rows of bits: their meaning, and what xoring and swapping rows does to it.
 A row is stored twice: as given, and with the assigned variables substituted.
 (cryptoms/packedrow.h, cryptoms/gaussian.cpp)
 */
module XorRows {
  import opened PackedBits

  datatype Half = Half(bits: seq<bool>, rhs: bool)

  /** The substituted row (`mat`) and the original one (`vars`). */
  datatype Row = Row(mat: Half, vars: Half)

  predicate Wide(h: Half, n: nat) {
    |h.bits| == n
  }

  predicate RowWide(r: Row, n: nat) {
    Wide(r.mat, n) && Wide(r.vars, n)
  }

  function XorHalf(a: Half, b: Half): Half
    requires |a.bits| == |b.bits|
  {
    Half(XorBits(a.bits, b.bits), a.rhs != b.rhs)
  }

  function XorRow(a: Row, b: Row, n: nat): (c: Row)
    requires RowWide(a, n) && RowWide(b, n)
    ensures RowWide(c, n)
  {
    Row(XorHalf(a.mat, b.mat), XorHalf(a.vars, b.vars))
  }

  // ----- meaning -----

  /** The parity of the columns of the row that are in `xs`. */
  ghost predicate Parity(bits: seq<bool>, xs: iset<nat>) {
    if bits == [] then false
    else Parity(bits[..|bits| - 1], xs) != (bits[|bits| - 1] && |bits| - 1 in xs)
  }

  ghost predicate Holds(h: Half, xs: iset<nat>) {
    Parity(h.bits, xs) == h.rhs
  }

  lemma {:induction false} ParityXor(a: seq<bool>, b: seq<bool>, xs: iset<nat>)
    requires |a| == |b|
    ensures Parity(XorBits(a, b), xs) == (Parity(a, xs) != Parity(b, xs))
  {
    if a != [] {
      var n := |a| - 1;
      ParityXor(a[..n], b[..n], xs);
      assert XorBits(a, b)[..n] == XorBits(a[..n], b[..n]);
    }
  }

  /** The parity depends only on the columns of the row. */
  lemma {:induction false} ParitySame(a: seq<bool>, xs: iset<nat>, ys: iset<nat>)
    requires forall k :: 0 <= k < |a| && a[k] ==> (k in xs <==> k in ys)
    ensures Parity(a, xs) == Parity(a, ys)
  {
    if a != [] {
      ParitySame(a[..|a| - 1], xs, ys);
    }
  }

  lemma {:induction false} ParityZero(a: seq<bool>, xs: iset<nat>)
    requires forall k :: 0 <= k < |a| ==> !a[k]
    ensures !Parity(a, xs)
  {
    if a != [] {
      ParityZero(a[..|a| - 1], xs);
    }
  }

  /** One column less: the parity changes iff the column is in `xs`. */
  lemma {:induction false} ParityClear(a: seq<bool>, c: nat, xs: iset<nat>)
    requires c < |a| && a[c]
    ensures Parity(a[c := false], xs) == (Parity(a, xs) != (c in xs))
  {
    var n := |a| - 1;
    if c == n {
      assert a[c := false][..n] == a[..n];
    } else {
      assert a[c := false][..n] == a[..n][c := false];
      ParityClear(a[..n], c, xs);
    }
  }

  // ----- all rows at once -----

  ghost predicate MatsHold(rows: seq<Row>, xs: iset<nat>) {
    forall r {:trigger rows[r]} :: 0 <= r < |rows| ==> Holds(rows[r].mat, xs)
  }

  ghost predicate VarsHold(rows: seq<Row>, xs: iset<nat>) {
    forall r {:trigger rows[r]} :: 0 <= r < |rows| ==> Holds(rows[r].vars, xs)
  }

  ghost predicate AllWide(rows: seq<Row>, n: nat) {
    forall r {:trigger rows[r]} :: 0 <= r < |rows| ==> RowWide(rows[r], n)
  }

  /** The same solutions, for the substituted and for the original rows. */
  ghost predicate SameSolutions(rows: seq<Row>, rows': seq<Row>) {
    forall xs: iset<nat> {:trigger MatsHold(rows', xs)} {:trigger VarsHold(rows', xs)} ::
      (MatsHold(rows, xs) <==> MatsHold(rows', xs)) && (VarsHold(rows, xs) <==> VarsHold(rows', xs))
  }

  lemma SwapSolutions(rows: seq<Row>, i: nat, p: nat)
    requires i < |rows| && p < |rows|
    ensures SameSolutions(rows, rows[i := rows[p]][p := rows[i]])
  {
    var rows' := rows[i := rows[p]][p := rows[i]];
    assert rows == rows'[i := rows'[p]][p := rows'[i]];
    forall xs: iset<nat>
      ensures (MatsHold(rows, xs) <==> MatsHold(rows', xs)) && (VarsHold(rows, xs) <==> VarsHold(rows', xs))
    {
      assert rows'[i] == rows[p] && rows'[p] == rows[i];
    }
  }

  lemma XorHolds(a: Half, b: Half, xs: iset<nat>)
    requires |a.bits| == |b.bits| && Holds(b, xs)
    ensures Holds(XorHalf(a, b), xs) <==> Holds(a, xs)
  {
    ParityXor(a.bits, b.bits, xs);
  }

  lemma XorSolutions(rows: seq<Row>, r: nat, i: nat, n: nat)
    requires r < |rows| && i < |rows| && r != i && AllWide(rows, n)
    ensures SameSolutions(rows, rows[r := XorRow(rows[r], rows[i], n)])
    ensures AllWide(rows[r := XorRow(rows[r], rows[i], n)], n)
  {
    assert RowWide(rows[r], n) && RowWide(rows[i], n);
    var rows' := rows[r := XorRow(rows[r], rows[i], n)];
    forall xs: iset<nat>
      ensures (MatsHold(rows, xs) <==> MatsHold(rows', xs)) && (VarsHold(rows, xs) <==> VarsHold(rows', xs))
    {
      if Holds(rows[i].mat, xs) {
        XorHolds(rows[r].mat, rows[i].mat, xs);
      }
      if Holds(rows[i].vars, xs) {
        XorHolds(rows[r].vars, rows[i].vars, xs);
      }
      OneReplaced(rows, r, i, rows'[r], xs);
    }
  }

  /** A row is replaced by one that says the same beside row `i`. */
  lemma OneReplaced(rows: seq<Row>, r: nat, i: nat, x: Row, xs: iset<nat>)
    requires r < |rows| && i < |rows| && r != i
    requires Holds(rows[i].mat, xs) ==> (Holds(x.mat, xs) <==> Holds(rows[r].mat, xs))
    requires Holds(rows[i].vars, xs) ==> (Holds(x.vars, xs) <==> Holds(rows[r].vars, xs))
    ensures (MatsHold(rows, xs) <==> MatsHold(rows[r := x], xs)) && (VarsHold(rows, xs) <==> VarsHold(rows[r := x], xs))
  {
    hide Holds;
    var rows' := rows[r := x];
    assert rows'[i] == rows[i] && rows'[r] == x;
    assert forall q :: 0 <= q < |rows| && q != r ==> rows'[q] == rows[q];
  }

  lemma SolutionsTrans(a: seq<Row>, b: seq<Row>, c: seq<Row>)
    requires SameSolutions(a, b) && SameSolutions(b, c)
    ensures SameSolutions(a, c)
  {
    forall xs: iset<nat>
      ensures (MatsHold(a, xs) <==> MatsHold(c, xs)) && (VarsHold(a, xs) <==> VarsHold(c, xs))
    {
      assert MatsHold(b, xs) <==> MatsHold(c, xs);
      assert VarsHold(b, xs) <==> VarsHold(c, xs);
    }
  }

  // ----- the link between the two halves -----

  /** The columns whose variable is assigned true. */
  ghost function TrueCols(done: map<nat, bool>): iset<nat> {
    iset k | k in done && done[k]
  }

  /** The substituted half is the original one with the assigned columns removed and their values moved to the right. */
  ghost predicate Linked(r: Row, done: map<nat, bool>) {
    && |r.mat.bits| == |r.vars.bits|
    && (forall k :: 0 <= k < |r.mat.bits| ==> (r.mat.bits[k] <==> r.vars.bits[k] && k !in done))
    && r.mat.rhs == (r.vars.rhs != Parity(r.vars.bits, TrueCols(done)))
  }

  ghost predicate AllLinked(rows: seq<Row>, done: map<nat, bool>) {
    forall r {:trigger rows[r]} :: 0 <= r < |rows| ==> Linked(rows[r], done)
  }

  ghost predicate Respects(xs: iset<nat>, done: map<nat, bool>) {
    forall k {:trigger k in done} :: k in done ==> (k in xs <==> done[k])
  }

  lemma {:induction false} ParitySplit(bits: seq<bool>, free: seq<bool>, done: map<nat, bool>, xs: iset<nat>)
    requires |free| == |bits| && (forall k :: 0 <= k < |bits| ==> (free[k] <==> bits[k] && k !in done))
      && Respects(xs, done)
    ensures Parity(bits, xs) == (Parity(free, xs) != Parity(bits, TrueCols(done)))
  {
    if bits != [] {
      var n := |bits| - 1;
      ParitySplit(bits[..n], free[..n], done, xs);
    }
  }

  /** Given the values of the assigned columns, the two halves say the same. */
  lemma LinkMeaning(r: Row, done: map<nat, bool>, xs: iset<nat>)
    requires Linked(r, done) && Respects(xs, done)
    ensures Holds(r.mat, xs) <==> Holds(r.vars, xs)
  {
    ParitySplit(r.vars.bits, r.mat.bits, done, xs);
  }

  lemma XorLinked(a: Row, b: Row, n: nat, done: map<nat, bool>)
    requires RowWide(a, n) && RowWide(b, n) && Linked(a, done) && Linked(b, done)
    ensures Linked(XorRow(a, b, n), done)
  {
    ParityXor(a.vars.bits, b.vars.bits, TrueCols(done));
  }

  /** Substituting one more column. */
  lemma SubstituteLinked(r: Row, done: map<nat, bool>, c: nat, v: bool)
    requires Linked(r, done) && c !in done && c < |r.mat.bits|
    ensures Linked(Row(Half(r.mat.bits[c := false], r.mat.rhs != (r.mat.bits[c] && v)), r.vars), done[c := v])
  {
    var done' := done[c := v];
    var n := r.vars.bits;
    var free := n[c := false];
    if n[c] {
      ParityClear(n, c, TrueCols(done));
      ParityClear(n, c, TrueCols(done'));
      ParitySame(free, TrueCols(done), TrueCols(done'));
    } else {
      ParitySame(n, TrueCols(done), TrueCols(done'));
    }
  }
}
