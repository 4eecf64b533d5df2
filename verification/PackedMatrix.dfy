/**
 The packed matrix: one array of 64-bit words. Each row takes a block of 2 * (numCols + 1) words: right-hand
 side and bits of the substituted half, then right-hand side and bits of the original half.
 (cryptoms/packedmatrix.h, cryptoms/packedrow.h)
 */
module PackedMatrix {
  import opened Literals
  import opened PackedBits
  import opened XorRows

  /** Words per row. */
  function Stride(cols: nat): nat {
    2 * (cols + 1)
  }

  function Base(i: nat, cols: nat): nat {
    i * Stride(cols)
  }

  lemma BaseApart(i: nat, j: nat, cols: nat)
    requires i < j
    ensures Base(i, cols) + Stride(cols) <= Base(j, cols)
  {
    hide Stride;
    var s, d := Stride(cols), j - i;
    assert j * s == i * s + d * s;
    assert d * s == s + (d - 1) * s;
    assert (d - 1) * s >= 0;
  }

  ghost predicate HalfRep(ws: seq<Word>, h: Half) {
    && |ws| >= 1 && ws[0] == (if h.rhs then 1 else 0)
    && h.bits == BitsOf(ws[1..])
  }

  ghost predicate RowRep(ws: seq<Word>, cols: nat, r: Row) {
    |ws| == Stride(cols) && HalfRep(ws[..cols + 1], r.mat) && HalfRep(ws[cols + 1..], r.vars)
  }

  function XorWords(a: seq<Word>, b: seq<Word>): (c: seq<Word>)
    requires |a| == |b|
    ensures |c| == |a| && forall k {:trigger c[k]} :: 0 <= k < |c| ==> c[k] == Xored(a[k], b[k])
  {
    seq(|a|, k requires 0 <= k < |a| => Xored(a[k], b[k]))
  }

  /** `n` words from `bi` on xored with those from `bb` on. */
  ghost function XoredRun(ws: seq<Word>, bi: nat, bb: nat, n: nat): (r: seq<Word>)
    requires bi + n <= |ws| && bb + n <= |ws|
    ensures |r| == |ws|
    ensures forall k {:trigger r[k]} ::
      0 <= k < |r| ==> r[k] == if bi <= k < bi + n then Xored(ws[k], ws[k + (bb - bi)]) else ws[k]
  {
    seq(|ws|, k requires 0 <= k < |ws| => if bi <= k < bi + n then Xored(ws[k], ws[k + (bb - bi)]) else ws[k])
  }

  /** `n` words from `bi` on exchanged with those from `bb` on. */
  ghost function SwappedRun(ws: seq<Word>, bi: nat, bb: nat, n: nat): (r: seq<Word>)
    requires bi + n <= |ws| && bb + n <= |ws|
    ensures |r| == |ws|
    ensures forall k {:trigger r[k]} :: 0 <= k < |r| ==>
      r[k] == if bi <= k < bi + n then ws[k + (bb - bi)] else if bb <= k < bb + n then ws[k - (bb - bi)] else ws[k]
  {
    seq(|ws|, k requires 0 <= k < |ws| =>
      if bi <= k < bi + n then ws[k + (bb - bi)] else if bb <= k < bb + n then ws[k - (bb - bi)] else ws[k])
  }

  lemma XoredRunNone(ws: seq<Word>, bi: nat, bb: nat)
    requires bi <= |ws| && bb <= |ws|
    ensures XoredRun(ws, bi, bb, 0) == ws
  {
  }

  lemma XoredRunNext(ws: seq<Word>, bi: nat, bb: nat, n: nat)
    requires bi + n < |ws| && bb + n < |ws| && (bi + n < bb || bb + n < bi)
    ensures XoredRun(ws, bi, bb, n)[bi + n] == ws[bi + n] && XoredRun(ws, bi, bb, n)[bb + n] == ws[bb + n]
    ensures XoredRun(ws, bi, bb, n + 1) == XoredRun(ws, bi, bb, n)[bi + n := Xored(ws[bi + n], ws[bb + n])]
  {
    hide Xored;
  }

  lemma XoredRunFirst(ws: seq<Word>, bi: nat, bb: nat, n: nat)
    requires bi + n < |ws| && bb + n < |ws| && (bi + n < bb || bb + n < bi)
    ensures XoredRun(ws, bi + 1, bb + 1, n)[bi] == ws[bi] && XoredRun(ws, bi + 1, bb + 1, n)[bb] == ws[bb]
    ensures XoredRun(ws, bi, bb, n + 1) == XoredRun(ws, bi + 1, bb + 1, n)[bi := Xored(ws[bi], ws[bb])]
  {
    hide Xored;
  }

  lemma SwappedRunNone(ws: seq<Word>, bi: nat, bb: nat)
    requires bi <= |ws| && bb <= |ws|
    ensures SwappedRun(ws, bi, bb, 0) == ws
  {
  }

  lemma SwappedRunNext(ws: seq<Word>, bi: nat, bb: nat, n: nat)
    requires bi + n < |ws| && bb + n < |ws| && (bi + n < bb || bb + n < bi)
    ensures SwappedRun(ws, bi, bb, n)[bi + n] == ws[bi + n] && SwappedRun(ws, bi, bb, n)[bb + n] == ws[bb + n]
    ensures SwappedRun(ws, bi, bb, n + 1) == SwappedRun(ws, bi, bb, n)[bi + n := ws[bb + n]][bb + n := ws[bi + n]]
  {
  }

  lemma XorHalfRep(a: seq<Word>, b: seq<Word>, ha: Half, hb: Half)
    requires HalfRep(a, ha) && HalfRep(b, hb) && |a| == |b|
    ensures HalfRep(XorWords(a, b), XorHalf(ha, hb))
  {
    var c := XorWords(a, b);
    assert c[0] == (if ha.rhs != hb.rhs then 1 else 0) by {
      hide BitsOf;
    }
    XorInWords(a[1..], b[1..], c[1..]);
  }

  /** Xoring two whole blocks word by word is the row xor, on both halves at once. */
  lemma XorRowRep(a: seq<Word>, b: seq<Word>, cols: nat, ra: Row, rb: Row)
    requires RowRep(a, cols, ra) && RowRep(b, cols, rb)
    ensures RowWide(ra, 64 * cols) && RowWide(rb, 64 * cols)
    ensures RowRep(XorWords(a, b), cols, XorRow(ra, rb, 64 * cols))
  {
    hide HalfRep;
    assert |ra.mat.bits| == |ra.vars.bits| == |rb.mat.bits| == |rb.vars.bits| == 64 * cols by {
      RepWidth(a, cols, ra);
      RepWidth(b, cols, rb);
    }
    XorHalfRep(a[..cols + 1], b[..cols + 1], ra.mat, rb.mat);
    XorHalfRep(a[cols + 1..], b[cols + 1..], ra.vars, rb.vars);
    assert XorWords(a, b)[..cols + 1] == XorWords(a[..cols + 1], b[..cols + 1]);
    assert XorWords(a, b)[cols + 1..] == XorWords(a[cols + 1..], b[cols + 1..]);
  }

  lemma RepWidth(ws: seq<Word>, cols: nat, r: Row)
    requires RowRep(ws, cols, r)
    ensures RowWide(r, 64 * cols)
  {
  }

  /** The rows as blocks of the array. */
  ghost predicate Rep(mp: seq<Word>, cols: nat, rows: seq<Row>) {
    && Base(|rows|, cols) <= |mp|
    && forall i {:trigger BlockRep(mp, cols, rows, i)} :: 0 <= i < |rows| ==> BlockRep(mp, cols, rows, i)
  }

  ghost predicate BlockRep(mp: seq<Word>, cols: nat, rows: seq<Row>, i: nat)
    requires i < |rows|
  {
    Base(i, cols) + Stride(cols) <= |mp| && RowRep(Block(mp, cols, i), cols, rows[i])
  }

  ghost function Block(mp: seq<Word>, cols: nat, i: nat): seq<Word>
    requires Base(i, cols) + Stride(cols) <= |mp|
  {
    mp[Base(i, cols)..Base(i, cols) + Stride(cols)]
  }

  /** The same array but for one block. */
  ghost predicate OnlyBlock(mp: seq<Word>, mp': seq<Word>, cols: nat, i: nat) {
    |mp'| == |mp|
      && forall k {:trigger mp'[k]} ::
      0 <= k < |mp| && !(Base(i, cols) <= k < Base(i, cols) + Stride(cols)) ==> mp'[k] == mp[k]
  }

  lemma BlockFits(mp: seq<Word>, cols: nat, rows: seq<Row>, i: nat)
    requires Rep(mp, cols, rows) && i < |rows|
    ensures Base(i, cols) + Stride(cols) <= |mp| && RowRep(Block(mp, cols, i), cols, rows[i])
  {
    assert BlockRep(mp, cols, rows, i);
  }

  lemma OtherBlock(mp: seq<Word>, mp': seq<Word>, cols: nat, i: nat, j: nat)
    requires OnlyBlock(mp, mp', cols, i) && i != j && Base(j, cols) + Stride(cols) <= |mp|
    ensures Block(mp', cols, j) == Block(mp, cols, j)
  {
    if i < j {
      BaseApart(i, j, cols);
    } else {
      BaseApart(j, i, cols);
    }
  }

  /** Changing one block changes one row. */
  lemma BlockChanged(mp: seq<Word>, mp': seq<Word>, cols: nat, rows: seq<Row>, i: nat, r: Row)
    requires Rep(mp, cols, rows) && i < |rows| && OnlyBlock(mp, mp', cols, i)
    requires Base(i, cols) + Stride(cols) <= |mp'| && RowRep(Block(mp', cols, i), cols, r)
    ensures Rep(mp', cols, rows[i := r])
  {
    hide RowRep, Base;
    var rows' := rows[i := r];
    forall j | 0 <= j < |rows'|
      ensures BlockRep(mp', cols, rows', j)
    {
      BlockFits(mp, cols, rows, j);
      if j != i {
        OtherBlock(mp, mp', cols, i, j);
      }
    }
  }

  // ----- one word of a block -----

  /** Where the words of a half start. */
  function HalfBase(i: nat, cols: nat, orig: bool): nat {
    Base(i, cols) + if orig then cols + 1 else 0
  }

  function HalfOf(r: Row, orig: bool): Half {
    if orig then r.vars else r.mat
  }

  function WithHalf(r: Row, orig: bool, h: Half): Row {
    if orig then r.(vars := h) else r.(mat := h)
  }

  ghost function HalfWords(mp: seq<Word>, cols: nat, i: nat, orig: bool): seq<Word>
    requires Base(i, cols) + Stride(cols) <= |mp|
  {
    mp[HalfBase(i, cols, orig)..HalfBase(i, cols, orig) + cols + 1]
  }

  lemma HalfFits(mp: seq<Word>, cols: nat, rows: seq<Row>, i: nat, orig: bool)
    requires Rep(mp, cols, rows) && i < |rows|
    ensures Base(i, cols) + Stride(cols) <= |mp| && HalfRep(HalfWords(mp, cols, i, orig), HalfOf(rows[i], orig))
    ensures RowWide(rows[i], 64 * cols)
  {
    hide Base, HalfRep;
    BlockFits(mp, cols, rows, i);
    RepWidth(Block(mp, cols, i), cols, rows[i]);
    var ws := Block(mp, cols, i);
    assert ws[..cols + 1] == HalfWords(mp, cols, i, false);
    assert ws[cols + 1..] == HalfWords(mp, cols, i, true);
  }

  /** Changing one word of one half. */
  lemma HalfChanged(mp: seq<Word>, cols: nat, rows: seq<Row>, i: nat, orig: bool, w: nat, x: Word, h: Half)
    requires Rep(mp, cols, rows) && i < |rows| && w <= cols && Base(i, cols) + Stride(cols) <= |mp|
    requires HalfRep(HalfWords(mp, cols, i, orig)[w := x], h)
    ensures Rep(mp[HalfBase(i, cols, orig) + w := x], cols, rows[i := WithHalf(rows[i], orig, h)])
  {
    hide Base, HalfRep;
    var mp' := mp[HalfBase(i, cols, orig) + w := x];
    var r := WithHalf(rows[i], orig, h);
    HalfFits(mp, cols, rows, i, false);
    HalfFits(mp, cols, rows, i, true);
    var ws := Block(mp', cols, i);
    assert ws[..cols + 1] == if orig then HalfWords(mp, cols, i, false) else HalfWords(mp, cols, i, false)[w := x];
    assert ws[cols + 1..] == if orig then HalfWords(mp, cols, i, true)[w := x] else HalfWords(mp, cols, i, true);
    BlockChanged(mp, mp', cols, rows, i, r);
  }

  /** A row of zeros. */
  ghost function ZeroRow(n: nat): Row {
    var h := Half(seq(n, _ => false), false);
    Row(h, h)
  }

  lemma ZeroRep(mp: seq<Word>, cols: nat, n: nat)
    requires |mp| == Base(n, cols) && forall k :: 0 <= k < |mp| ==> mp[k] == 0
    ensures Rep(mp, cols, seq(n, _ => ZeroRow(64 * cols)))
  {
    hide Base, BitsOf, RowRep;
    var rows := seq(n, _ => ZeroRow(64 * cols));
    forall i | 0 <= i < n
      ensures BlockRep(mp, cols, rows, i)
    {
      BaseApart(i, n, cols);
      ZeroBlock(Block(mp, cols, i), cols);
    }
  }

  lemma ZeroBlock(ws: seq<Word>, cols: nat)
    requires |ws| == Stride(cols) && forall k :: 0 <= k < |ws| ==> ws[k] == 0
    ensures RowRep(ws, cols, ZeroRow(64 * cols))
  {
    ZeroBits(ws[..cols + 1][1..]);
    ZeroBits(ws[cols + 1..][1..]);
  }

  lemma ZeroBits(ws: seq<Word>)
    requires forall k :: 0 <= k < |ws| ==> ws[k] == 0
    ensures BitsOf(ws) == seq(64 * |ws|, _ => false)
  {
    hide WordBit;
    forall k | 0 <= k < 64 * |ws|
      ensures !BitAt(ws, k)
    {
      ZeroTest(ws[k / 64]);
    }
  }

  lemma FewerRows(mp: seq<Word>, cols: nat, rows: seq<Row>, n: nat)
    requires Rep(mp, cols, rows) && n <= |rows|
    ensures Rep(mp, cols, rows[..n])
  {
    hide Base, RowRep;
    forall i | 0 <= i < n
      ensures BlockRep(mp, cols, rows[..n], i)
    {
      assert BlockRep(mp, cols, rows, i);
    }
    if n < |rows| {
      BaseApart(n, |rows|, cols);
    }
  }

  lemma PrefixRep(mp: seq<Word>, mp': seq<Word>, cols: nat, rows: seq<Row>)
    requires Rep(mp, cols, rows) && Base(|rows|, cols) <= |mp'| && mp'[..Base(|rows|, cols)] == mp[..Base(|rows|, cols)]
    ensures Rep(mp', cols, rows)
  {
    hide Base, RowRep;
    var n := Base(|rows|, cols);
    forall i | 0 <= i < |rows|
      ensures BlockRep(mp', cols, rows, i)
    {
      assert BlockRep(mp, cols, rows, i);
      BaseApart(i, |rows|, cols);
      assert Block(mp', cols, i) == mp'[..n][Base(i, cols)..Base(i, cols) + Stride(cols)];
      assert Block(mp, cols, i) == mp[..n][Base(i, cols)..Base(i, cols) + Stride(cols)];
    }
  }

  /** The columns listed in `cs`. */
  ghost predicate Marks(bits: seq<bool>, cs: seq<nat>) {
    forall k {:trigger bits[k]} :: 0 <= k < |bits| ==> (bits[k] <==> k in cs)
  }

  class PackedMatrix {
    var mp: array<Word>
    var numRows: nat
    /** Words that hold the bits of one half. */
    var numCols: nat
    /** What the array stands for. */
    ghost var rows: seq<Row>

    ghost predicate Valid()
      reads this, mp
    {
      |rows| == numRows && Rep(mp[..], numCols, rows)
    }

    function Width(): nat
      reads `numCols
    {
      64 * numCols
    }

    lemma Widths()
      requires Valid()
      ensures AllWide(rows, Width())
    {
      forall r | 0 <= r < |rows|
        ensures RowWide(rows[r], Width())
      {
        BlockFits(mp[..], numCols, rows, r);
        RepWidth(Block(mp[..], numCols, r), numCols, rows[r]);
      }
    }

    constructor (rowCount: nat, colCount: nat)
      ensures Valid() && fresh(mp) && numRows == rowCount && numCols == (colCount + 63) / 64
    {
      var words := colCount / 64 + if colCount % 64 != 0 then 1 else 0;
      numRows := rowCount;
      numCols := words;
      mp := new Word[Base(rowCount, words)](_ => 0);
      rows := seq(rowCount, _ => ZeroRow(64 * words));
      new;
      ZeroRep(mp[..], numCols, numRows);
    }

    /** Drops the rows from `n` on; the storage stays. */
    method ResizeNumRows(n: nat)
      requires Valid() && n <= numRows
      modifies `numRows, `rows
      ensures Valid() && numRows == n && rows == old(rows)[..n]
    {
      ghost var was := rows;
      numRows := n;
      rows := rows[..n];
      FewerRows(mp[..], numCols, was, n);
    }

    /** Copies another matrix, reusing the storage if it is large enough. */
    method Assign(b: PackedMatrix)
      requires Valid() && b.Valid() && b != this && b.mp != mp
      modifies this, mp
      ensures Valid() && numRows == b.numRows && numCols == b.numCols && rows == b.rows
      ensures mp == old(mp) || fresh(mp)
    {
      Load(b.mp[..], b.numRows, b.numCols, b.rows);
    }

    /** The copying, from a matrix given by its words. */
    method Load(words: seq<Word>, rowCount: nat, colCount: nat, ghost content: seq<Row>)
      requires Valid() && |content| == rowCount && Rep(words, colCount, content)
      modifies this, mp
      ensures Valid() && numRows == rowCount && numCols == colCount && rows == content
      ensures mp == old(mp) || fresh(mp)
    {
      hide Base;
      var n := Base(rowCount, colCount);
      if Base(numRows, numCols) < n {
        mp := new Word[n](_ => 0);
      }
      CopyWords(words, n);
      numRows := rowCount;
      numCols := colCount;
      rows := content;
      PrefixRep(words, mp[..], numCols, rows);
    }

    method CopyWords(words: seq<Word>, n: nat)
      requires n <= mp.Length && n <= |words|
      modifies mp
      ensures mp[..n] == words[..n]
    {
      for k := 0 to n
        invariant mp[..k] == words[..k]
      {
        mp[k] := words[k];
      }
    }

    /** Both halves of a row set to the columns `cs`. */
    method SetRow(i: nat, cs: seq<nat>, rhs: bool)
      requires Valid() && i < numRows && forall c :: c in cs ==> c < Width()
      modifies mp, `rows
      ensures Valid() && |rows| == |old(rows)| && forall j :: 0 <= j < |rows| && j != i ==> rows[j] == old(rows)[j]
      ensures RowWide(rows[i], Width()) && rows[i].mat == rows[i].vars && Marks(rows[i].mat.bits, cs)
        && rows[i].mat.rhs == rhs
    {
      SetHalf(i, true, cs, rhs);
      SetHalf(i, false, cs, rhs);
      Widths();
      assert RowWide(rows[i], Width());
      assert rows[i].mat.bits == rows[i].vars.bits;
    }

    method SetHalf(i: nat, orig: bool, cs: seq<nat>, rhs: bool)
      requires Valid() && i < numRows && forall c :: c in cs ==> c < Width()
      modifies mp, `rows
      ensures Valid() && |rows| == |old(rows)| && forall j :: 0 <= j < |rows| && j != i ==> rows[j] == old(rows)[j]
      ensures HalfOf(rows[i], !orig) == HalfOf(old(rows)[i], !orig)
      ensures Marks(HalfOf(rows[i], orig).bits, cs) && HalfOf(rows[i], orig).rhs == rhs
    {
      hide Rep, Base, HalfRep;
      SetZero(i, orig);
      Widths();
      for n := 0 to |cs|
        invariant Valid() && |rows| == |old(rows)| && forall j :: 0 <= j < |rows| && j != i ==> rows[j] == old(rows)[j]
        invariant HalfOf(rows[i], !orig) == HalfOf(old(rows)[i], !orig)
        invariant Marks(HalfOf(rows[i], orig).bits, cs[..n])
      {
        assert cs[n] in cs;
        SetBit(i, orig, cs[n]);
        assert cs[..n + 1] == cs[..n] + [cs[n]];
      }
      assert cs[..|cs|] == cs;
      var b := Rhs(i, orig);
      if b != rhs {
        InvertIsTrue(i, orig);
      }
    }

    method SetZero(i: nat, orig: bool)
      requires Valid() && i < numRows
      modifies mp, `rows
      ensures Valid() && |rows| == |old(rows)| && forall j :: 0 <= j < |rows| && j != i ==> rows[j] == old(rows)[j]
      ensures HalfOf(rows[i], !orig) == HalfOf(old(rows)[i], !orig)
      ensures Marks(HalfOf(rows[i], orig).bits, [])
    {
      hide Rep, Base, HalfRep;
      Widths();
      assert RowWide(rows[i], Width());
      var n := Width();
      for k := 0 to n
        invariant Valid() && |rows| == |old(rows)| && forall j :: 0 <= j < |rows| && j != i ==> rows[j] == old(rows)[j]
        invariant HalfOf(rows[i], !orig) == HalfOf(old(rows)[i], !orig)
        invariant RowWide(rows[i], Width()) && forall q :: 0 <= q < k ==> !HalfOf(rows[i], orig).bits[q]
      {
        ClearBit(i, orig, k);
      }
    }

    /** One column of a row. */
    method At(i: nat, orig: bool, k: nat) returns (b: bool)
      requires Valid() && i < numRows && k < Width()
      ensures RowWide(rows[i], Width()) && b == HalfOf(rows[i], orig).bits[k]
    {
      hide Base, Rep;
      HalfFits(mp[..], numCols, rows, i, orig);
      ghost var ws := HalfWords(mp[..], numCols, i, orig);
      var w := mp[HalfBase(i, numCols, orig) + 1 + k / 64];
      assert ws[1..][k / 64] == w;
      b := WordBit(w, k % 64);
    }

    method Rhs(i: nat, orig: bool) returns (b: bool)
      requires Valid() && i < numRows
      ensures b == HalfOf(rows[i], orig).rhs
    {
      hide Base, Rep;
      HalfFits(mp[..], numCols, rows, i, orig);
      assert HalfWords(mp[..], numCols, i, orig)[0] == mp[HalfBase(i, numCols, orig)];
      b := mp[HalfBase(i, numCols, orig)] != 0;
    }

    method ClearBit(i: nat, orig: bool, k: nat)
      requires Valid() && i < numRows && k < Width()
      modifies mp, `rows
      ensures Valid() && RowWide(old(rows)[i], Width())
      ensures var h := HalfOf(old(rows)[i], orig);
        rows == old(rows)[i := WithHalf(old(rows)[i], orig, h.(bits := h.bits[k := false]))]
    {
      hide Base, Rep, Cleared;
      HalfFits(mp[..], numCols, rows, i, orig);
      ghost var ws, h := HalfWords(mp[..], numCols, i, orig), HalfOf(rows[i], orig);
      var at := HalfBase(i, numCols, orig) + 1 + k / 64;
      var x := Cleared(mp[at], k % 64);
      assert ws[1..][k / 64] == mp[at];
      ClearInWords(ws[1..], k);
      assert ws[1 + k / 64 := x][1..] == ws[1..][k / 64 := x];
      HalfChanged(mp[..], numCols, rows, i, orig, 1 + k / 64, x, h.(bits := h.bits[k := false]));
      Store(at, x);
      rows := rows[i := WithHalf(rows[i], orig, h.(bits := h.bits[k := false]))];
    }

    method SetBit(i: nat, orig: bool, k: nat)
      requires Valid() && i < numRows && k < Width()
      modifies mp, `rows
      ensures Valid() && RowWide(old(rows)[i], Width())
      ensures var h := HalfOf(old(rows)[i], orig);
        rows == old(rows)[i := WithHalf(old(rows)[i], orig, h.(bits := h.bits[k := true]))]
    {
      hide Base, Rep, Raised;
      HalfFits(mp[..], numCols, rows, i, orig);
      ghost var ws, h := HalfWords(mp[..], numCols, i, orig), HalfOf(rows[i], orig);
      var at := HalfBase(i, numCols, orig) + 1 + k / 64;
      var x := Raised(mp[at], k % 64);
      assert ws[1..][k / 64] == mp[at];
      RaiseInWords(ws[1..], k);
      assert ws[1 + k / 64 := x][1..] == ws[1..][k / 64 := x];
      HalfChanged(mp[..], numCols, rows, i, orig, 1 + k / 64, x, h.(bits := h.bits[k := true]));
      Store(at, x);
      rows := rows[i := WithHalf(rows[i], orig, h.(bits := h.bits[k := true]))];
    }

    method InvertIsTrue(i: nat, orig: bool)
      requires Valid() && i < numRows
      modifies mp, `rows
      ensures Valid()
      ensures var h := HalfOf(old(rows)[i], orig);
        rows == old(rows)[i := WithHalf(old(rows)[i], orig, h.(rhs := !h.rhs))]
    {
      hide Base, Rep;
      HalfFits(mp[..], numCols, rows, i, orig);
      ghost var ws, h := HalfWords(mp[..], numCols, i, orig), HalfOf(rows[i], orig);
      var at := HalfBase(i, numCols, orig);
      assert ws[0] == mp[at];
      var x := Xored(mp[at], 1);
      assert ws[0 := x][1..] == ws[1..];
      HalfChanged(mp[..], numCols, rows, i, orig, 0, x, h.(rhs := !h.rhs));
      Store(at, x);
      rows := rows[i := WithHalf(rows[i], orig, h.(rhs := !h.rhs))];
    }

    /** Whether the one at `from`, the first of the substituted half, is the only one. */
    method PopcntIsOne(i: nat, from: nat) returns (one: bool)
      requires Valid() && i < numRows && from < Width()
      requires RowWide(rows[i], Width()) && forall k :: 0 <= k <= from ==> (rows[i].mat.bits[k] <==> k == from)
      ensures one <==> forall k :: 0 <= k < Width() ==> (rows[i].mat.bits[k] <==> k == from)
    {
      hide Base, Rep;
      HalfFits(mp[..], numCols, rows, i, false);
      ghost var ws := HalfWords(mp[..], numCols, i, false)[1..];
      ghost var bits := rows[i].mat.bits;
      var b := Base(i, numCols) + 1;
      assert mp[b..b + numCols] == ws && bits == BitsOf(ws);
      if (from + 1) / 64 == numCols {
        return true;
      }
      one := RestZero(b, from + 1);
      assert mp[b..b + numCols] == ws;
      assert one <==> forall k :: from + 1 <= k < Width() ==> !bits[k];
    }

    /** Whether all bits from `from` on are zero: the rest of its word, then whole words. */
    method RestZero(b: nat, from: nat) returns (zero: bool)
      requires b + numCols <= mp.Length && from < 64 * numCols
      ensures zero <==>
        forall k {:trigger BitsOf(mp[b..b + numCols])[k]} :: from <= k < 64 * numCols ==> !BitsOf(mp[b..b + numCols])[k]
    {
      hide Shifted, BitsOf;
      ghost var ws := mp[b..b + numCols];
      ZeroFrom(ws, from);
      assert mp[b + from / 64] == ws[from / 64];
      var tmp := Shifted(mp[b + from / 64], from % 64);
      if tmp != 0 {
        assert Shifted(ws[from / 64], from % 64) != 0;
        return false;
      }
      var k: nat := from / 64 + 1;
      while k != numCols
        invariant from / 64 < k <= numCols && forall q :: from / 64 < q < k ==> ws[q] == 0
      {
        assert mp[b + k] == ws[k];
        if mp[b + k] != 0 {
          return false;
        }
        k := k + 1;
      }
      return true;
    }

    /** The first one of the original half from column `from` on, or `None`. */
    method Scan(i: nat, from: nat) returns (at: Option<nat>)
      requires Valid() && i < numRows && from <= Width()
      ensures RowWide(rows[i], Width())
      ensures at.Some? ==> from <= at.value < Width() && rows[i].vars.bits[at.value]
      ensures forall k :: from <= k < (if at.Some? then at.value else Width()) ==> !rows[i].vars.bits[k]
    {
      hide Rep, HalfRep;
      HalfFits(mp[..], numCols, rows, i, true);
      var k: nat := from;
      while k != Width()
        invariant from <= k <= Width() && forall q :: from <= q < k ==> !rows[i].vars.bits[q]
      {
        var b := At(i, true, k);
        if b {
          return Some(k);
        }
        k := k + 1;
      }
      at := None;
    }

    method Store(at: nat, x: Word)
      requires at < mp.Length
      modifies mp
      ensures mp[..] == old(mp[..])[at := x]
    {
      mp[at] := x;
    }

    /** `rows[i] ^= rows[b]`, both halves. */
    method XorBoth(i: nat, b: nat)
      requires Valid() && i < numRows && b < numRows && i != b
      modifies mp, `rows
      ensures Valid() && RowWide(old(rows)[i], Width()) && RowWide(old(rows)[b], Width())
      ensures rows == old(rows)[i := XorRow(old(rows)[i], old(rows)[b], Width())]
    {
      hide Base, RowRep, Rep, XoredRun;
      XorRep(mp[..], numCols, rows, i, b);
      RowsApart(i, b, numCols);
      XorBlocks(Base(i, numCols), Base(b, numCols));
      rows := rows[i := XorRow(rows[i], rows[b], Width())];
    }

    /** The word loop behind `XorBoth`: everything after the first word, then the first word itself. */
    method XorBlocks(bi: nat, bb: nat)
      requires bi + Stride(numCols) <= mp.Length && bb + Stride(numCols) <= mp.Length
      requires bi + Stride(numCols) <= bb || bb + Stride(numCols) <= bi
      modifies mp
      ensures mp[..] == XoredRun(old(mp[..]), bi, bb, Stride(numCols))
    {
      hide Xored, XoredRun;
      ghost var was := mp[..];
      XoredRunNone(was, bi + 1, bb + 1);
      var w: nat := 0;
      while w < 2 * numCols + 1
        invariant w <= 2 * numCols + 1
        invariant mp[..] == XoredRun(was, bi + 1, bb + 1, w)
      {
        XoredRunNext(was, bi + 1, bb + 1, w);
        Store(bi + 1 + w, Xored(mp[bi + 1 + w], mp[bb + 1 + w]));
        w := w + 1;
      }
      XoredRunFirst(was, bi, bb, w);
      Store(bi, Xored(mp[bi], mp[bb]));
    }

    /** Exchanges two rows, both halves. */
    method SwapBoth(i: nat, b: nat)
      requires Valid() && i < numRows && b < numRows && i != b
      modifies mp, `rows
      ensures Valid() && rows == old(rows)[i := old(rows)[b]][b := old(rows)[i]]
    {
      hide Base, RowRep;
      BlockFits(mp[..], numCols, rows, i);
      BlockFits(mp[..], numCols, rows, b);
      RowsApart(i, b, numCols);
      SwapRep(mp[..], numCols, rows, i, b);
      SwapBlocks(Base(i, numCols), Base(b, numCols));
      rows := rows[i := rows[b]][b := rows[i]];
    }

    method SwapWords(mp1: nat, mp2: nat)
      requires mp1 < mp.Length && mp2 < mp.Length
      modifies mp
      ensures mp[..] == old(mp[..])[mp1 := old(mp[mp2])][mp2 := old(mp[mp1])]
    {
      var x := mp[mp1];
      Store(mp1, mp[mp2]);
      Store(mp2, x);
    }

    /** The word loop behind `SwapBoth`. */
    method SwapBlocks(bi: nat, bb: nat)
      requires bi + Stride(numCols) <= mp.Length && bb + Stride(numCols) <= mp.Length
      requires bi + Stride(numCols) <= bb || bb + Stride(numCols) <= bi
      modifies mp
      ensures mp[..] == SwappedRun(old(mp[..]), bi, bb, Stride(numCols))
    {
      hide SwappedRun, Stride;
      ghost var was := mp[..];
      SwappedRunNone(was, bi, bb);
      var mp1, mp2 := bi, bb;
      var i: nat := Stride(numCols);
      while i != 0
        invariant i <= Stride(numCols) && mp1 == bi + Stride(numCols) - i && mp2 == bb + Stride(numCols) - i
        invariant mp[..] == SwappedRun(was, bi, bb, Stride(numCols) - i)
      {
        ghost var run := mp[..];
        SwappedRunNext(was, bi, bb, Stride(numCols) - i);
        assert run[mp1] == was[mp1] && run[mp2] == was[mp2];
        SwapWords(mp1, mp2);
        mp1 := mp1 + 1;
        mp2 := mp2 + 1;
        i := i - 1;
      }
    }
  }

  lemma RowsApart(i: nat, j: nat, cols: nat)
    requires i != j
    ensures Base(i, cols) + Stride(cols) <= Base(j, cols) || Base(j, cols) + Stride(cols) <= Base(i, cols)
  {
    if i < j {
      BaseApart(i, j, cols);
    } else {
      BaseApart(j, i, cols);
    }
  }

  lemma XorRep(mp: seq<Word>, cols: nat, rows: seq<Row>, i: nat, b: nat)
    requires Rep(mp, cols, rows) && i < |rows| && b < |rows| && i != b
    ensures Base(i, cols) + Stride(cols) <= |mp| && Base(b, cols) + Stride(cols) <= |mp|
    ensures RowWide(rows[i], 64 * cols) && RowWide(rows[b], 64 * cols)
    ensures Rep(XoredRun(mp, Base(i, cols), Base(b, cols), Stride(cols)), cols,
      rows[i := XorRow(rows[i], rows[b], 64 * cols)])
  {
    hide Base, RowRep;
    BlockFits(mp, cols, rows, i);
    BlockFits(mp, cols, rows, b);
    RowsApart(i, b, cols);
    var mp' := XoredRun(mp, Base(i, cols), Base(b, cols), Stride(cols));
    var wi, wb := Block(mp, cols, i), Block(mp, cols, b);
    assert Block(mp', cols, i) == XorWords(wi, wb);
    XorRowRep(wi, wb, cols, rows[i], rows[b]);
    BlockChanged(mp, mp', cols, rows, i, XorRow(rows[i], rows[b], 64 * cols));
  }

  lemma SwapRep(mp: seq<Word>, cols: nat, rows: seq<Row>, i: nat, b: nat)
    requires Rep(mp, cols, rows) && i < |rows| && b < |rows| && i != b
    requires Base(i, cols) + Stride(cols) <= |mp| && Base(b, cols) + Stride(cols) <= |mp|
    ensures Rep(SwappedRun(mp, Base(i, cols), Base(b, cols), Stride(cols)), cols, rows[i := rows[b]][b := rows[i]])
  {
    hide Base, RowRep;
    var rows' := rows[i := rows[b]][b := rows[i]];
    var mp' := SwappedRun(mp, Base(i, cols), Base(b, cols), Stride(cols));
    RowsApart(i, b, cols);
    assert Block(mp', cols, i) == Block(mp, cols, b);
    assert Block(mp', cols, b) == Block(mp, cols, i);
    forall j | 0 <= j < |rows'|
      ensures BlockRep(mp', cols, rows', j)
    {
      BlockFits(mp, cols, rows, j);
      BlockFits(mp, cols, rows, i);
      BlockFits(mp, cols, rows, b);
      if j != i && j != b {
        RowsApart(i, j, cols);
        RowsApart(b, j, cols);
        assert Block(mp', cols, j) == Block(mp, cols, j);
      }
    }
  }
}
