/**
 Sorting by keys: what the calls of `std::sort` rely on. Keys are compared element by element.
 */
module Sorting {
  import opened Literals
  import opened Elimination

  /** `Lit::toInt` */
  function ToInt(l: Lit): nat {
    2 * l.v + if l.sign then 1 else 0
  }

  predicate LexLess(a: seq<nat>, b: seq<nat>) {
    if b == [] then false
    else if a == [] then true
    else a[0] < b[0] || (a[0] == b[0] && LexLess(a[1..], b[1..]))
  }

  lemma {:induction false} LexTrans(a: seq<nat>, b: seq<nat>, c: seq<nat>)
    requires LexLess(a, b) && LexLess(b, c)
    ensures LexLess(a, c)
  {
    if a != [] && b != [] && c != [] && a[0] == b[0] == c[0] {
      LexTrans(a[1..], b[1..], c[1..]);
    }
  }

  lemma {:induction false} LexTotal(a: seq<nat>, b: seq<nat>)
    ensures LexLess(a, b) || LexLess(b, a) || a == b
    ensures !(LexLess(a, b) && LexLess(b, a)) && (LexLess(a, b) ==> a != b)
  {
    if a != [] && b != [] {
      LexTotal(a[1..], b[1..]);
      assert a == [a[0]] + a[1..] && b == [b[0]] + b[1..];
    }
  }

  predicate LexLe(a: seq<nat>, b: seq<nat>) {
    a == b || LexLess(a, b)
  }

  lemma LexLeTrans(a: seq<nat>, b: seq<nat>, c: seq<nat>)
    requires LexLe(a, b) && LexLe(b, c)
    ensures LexLe(a, c)
    ensures LexLess(a, b) || LexLess(b, c) ==> LexLess(a, c)
  {
    if a != b && b != c {
      LexTrans(a, b, c);
    }
  }

  ghost predicate Ordered(keys: seq<seq<nat>>, at: seq<nat>) {
    && (forall i {:trigger at[i]} :: 0 <= i < |at| ==> at[i] < |keys|)
    && forall i, j {:trigger at[i], at[j]} :: 0 <= i < j < |at| ==> at[i] != at[j] && LexLe(keys[at[i]], keys[at[j]])
  }

  /** An order in which the keys increase. Every position occurs once. */
  method SortIndices(keys: seq<seq<nat>>) returns (at: seq<nat>)
    ensures |at| == |keys| && Ordered(keys, at) && forall k: nat :: k < |keys| ==> k in at
  {
    at := [];
    for n := 0 to |keys|
      invariant |at| == n && Ordered(keys, at) && forall k: nat :: k in at <==> k < n
    {
      var i: nat := |at|;
      while i > 0 && LexLess(keys[n], keys[at[i - 1]])
        invariant i <= |at| && forall k {:trigger at[k]} :: i <= k < |at| ==> LexLess(keys[n], keys[at[k]])
      {
        i := i - 1;
      }
      Inserted(keys, at, n, i);
      InsertedMembers(at, n, i);
      at := at[..i] + [n] + at[i..];
    }
  }

  lemma Inserted(keys: seq<seq<nat>>, at: seq<nat>, n: nat, i: nat)
    requires Ordered(keys, at) && n < |keys| && n !in at && i <= |at|
    requires i > 0 ==> !LexLess(keys[n], keys[at[i - 1]])
    requires forall k {:trigger at[k]} :: i <= k < |at| ==> LexLess(keys[n], keys[at[k]])
    ensures Ordered(keys, at[..i] + [n] + at[i..])
  {
    hide LexLess, LexLe;
    var r := at[..i] + [n] + at[i..];
    forall a | 0 <= a < i
      ensures LexLe(keys[at[a]], keys[n])
    {
      NotLess(keys[at[i - 1]], keys[n]);
      if a < i - 1 {
        LexLeTrans(keys[at[a]], keys[at[i - 1]], keys[n]);
      }
    }
    forall a | i <= a < |at|
      ensures LexLe(keys[n], keys[at[a]])
    {
      LessIsLe(keys[n], keys[at[a]]);
    }
    forall a, b | 0 <= a < b < |r|
      ensures r[a] != r[b] && LexLe(keys[r[a]], keys[r[b]])
    {
      InsertedPair(keys, at, n, i, a, b);
    }
    forall a | 0 <= a < |r|
      ensures r[a] < |keys|
    {
      assert r[a] == if a < i then at[a] else if a == i then n else at[a - 1];
    }
  }

  lemma InsertedMembers(at: seq<nat>, n: nat, i: nat)
    requires i <= |at|
    ensures forall k: nat :: k in at[..i] + [n] + at[i..] <==> k in at || k == n
  {
    assert at == at[..i] + at[i..];
  }

  lemma NotLess(a: seq<nat>, b: seq<nat>)
    requires !LexLess(b, a)
    ensures LexLe(a, b)
  {
    LexTotal(a, b);
  }

  lemma LessIsLe(a: seq<nat>, b: seq<nat>)
    requires LexLess(a, b)
    ensures LexLe(a, b)
  {
  }

  lemma InsertedPair(keys: seq<seq<nat>>, at: seq<nat>, n: nat, i: nat, a: nat, b: nat)
    requires Ordered(keys, at) && n < |keys| && n !in at && i <= |at| && a < b <= |at|
    requires forall k {:trigger at[k]} :: 0 <= k < i ==> LexLe(keys[at[k]], keys[n])
    requires forall k {:trigger at[k]} :: i <= k < |at| ==> LexLe(keys[n], keys[at[k]])
    ensures var r := at[..i] + [n] + at[i..];
      r[a] < |keys| && r[b] < |keys| && r[a] != r[b] && LexLe(keys[r[a]], keys[r[b]])
  {
    hide LexLess, LexLe;
    var r := at[..i] + [n] + at[i..];
    assert r[a] == if a < i then at[a] else if a == i then n else at[a - 1];
    assert r[b] == if b < i then at[b] else if b == i then n else at[b - 1];
    assert forall k :: 0 <= k < |at| ==> at[k] in at;
  }

  // ----- literals in order -----

  ghost predicate SortedLits(s: seq<Lit>) {
    forall i, j {:trigger s[i], s[j]} :: 0 <= i < j < |s| ==> ToInt(s[i]) < ToInt(s[j])
  }

  /** Any literals, those that occur twice side by side. */
  method SortWithCopies(lits: seq<Lit>) returns (s: seq<Lit>)
    ensures |s| == |lits| && Lits(s) == Lits(lits)
    ensures forall i, j {:trigger s[i], s[j]} :: 0 <= i < j < |s| ==> ToInt(s[i]) <= ToInt(s[j])
  {
    var keys := seq(|lits|, i requires 0 <= i < |lits| => [ToInt(lits[i])]);
    var at := SortIndices(keys);
    s := seq(|at|, i requires 0 <= i < |at| => lits[at[i]]);
    forall i, j | 0 <= i < j < |s|
      ensures ToInt(s[i]) <= ToInt(s[j])
    {
      assert LexLe(keys[at[i]], keys[at[j]]);
    }
    forall l
      ensures l in s <==> l in lits
    {
      SameElement(lits, at, s, l);
    }
  }

  lemma SameElement(lits: seq<Lit>, at: seq<nat>, s: seq<Lit>, l: Lit)
    requires |s| == |at| && (forall i {:trigger at[i]} :: 0 <= i < |at| ==> at[i] < |lits| && s[i] == lits[at[i]])
    requires forall k: nat :: k < |lits| ==> k in at
    ensures l in s <==> l in lits
  {
    if l in lits {
      var k: nat :| k < |lits| && lits[k] == l;
      assert k in at;
      var i :| 0 <= i < |at| && at[i] == k;
      assert s[i] == l;
    }
    if l in s {
      var i :| 0 <= i < |s| && s[i] == l;
      assert lits[at[i]] == l;
    }
  }

  method SortLits(lits: seq<Lit>) returns (s: seq<Lit>)
    requires DistinctVarsOf(lits)
    ensures SortedLits(s) && DistinctVarsOf(s) && |s| == |lits| && Lits(s) == Lits(lits)
  {
    var keys := seq(|lits|, i requires 0 <= i < |lits| => [ToInt(lits[i])]);
    var at := SortIndices(keys);
    s := seq(|at|, i requires 0 <= i < |at| => lits[at[i]]);
    forall i, j | 0 <= i < j < |s|
      ensures ToInt(s[i]) < ToInt(s[j]) && s[i].v != s[j].v
    {
      assert at[i] != at[j] && LexLe(keys[at[i]], keys[at[j]]);
      assert lits[at[i]].v != lits[at[j]].v;
    }
    forall l
      ensures l in s <==> l in lits
    {
      SameElement(lits, at, s, l);
    }
  }

  /** Sorted clauses with the same literals are the same. */
  lemma {:induction false} SortedUnique(a: seq<Lit>, b: seq<Lit>)
    requires SortedLits(a) && SortedLits(b) && Lits(a) == Lits(b)
    ensures a == b
  {
    assert b != [] ==> b[0] in Lits(b);
    assert a != [] ==> a[0] in Lits(a);
    if a != [] {
      var n, m := |a| - 1, |b| - 1;
      LastIsMax(a, b);
      LastIsMax(b, a);
      SameInt(a[n], b[m]);
      assert Lits(a[..n]) == Lits(a) - {a[n]} by {
        WithoutLast(a);
      }
      assert Lits(b[..m]) == Lits(b) - {b[m]} by {
        WithoutLast(b);
      }
      SortedUnique(a[..n], b[..m]);
    }
  }

  lemma LastIsMax(a: seq<Lit>, b: seq<Lit>)
    requires SortedLits(b) && a != [] && Lits(a) == Lits(b)
    ensures b != [] && ToInt(a[|a| - 1]) <= ToInt(b[|b| - 1])
  {
    assert a[|a| - 1] in Lits(a);
    var i :| 0 <= i < |b| && b[i] == a[|a| - 1];
    assert i < |b| - 1 ==> ToInt(b[i]) < ToInt(b[|b| - 1]);
  }

  lemma SameInt(a: Lit, b: Lit)
    requires ToInt(a) == ToInt(b)
    ensures a == b
  {
  }

  lemma WithoutLast(a: seq<Lit>)
    requires SortedLits(a) && a != []
    ensures Lits(a[..|a| - 1]) == Lits(a) - {a[|a| - 1]}
  {
    var n := |a| - 1;
    assert a == a[..n] + [a[n]];
    assert forall i :: 0 <= i < n ==> ToInt(a[i]) < ToInt(a[n]);
  }
}
