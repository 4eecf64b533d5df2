/**
 The numbering of variables: inner numbers, in which the variables in use come first, and outer numbers, which
 never change. New variables, re-inserted ones and renumbering all rearrange the inner numbers.
 (cryptoms/cnf.cpp:36-147, 212-218, 319-347; cryptoms/varupdatehelper.h:35-125; cryptoms/solver.cpp:783-822)
 */
module Cnf {
  import opened Literals
  import opened Watches

  const MAX_VARS: nat := 0x1000_0000

  /** What the solver knows about a variable. */
  datatype VarData = VarData(isBva: bool, rest: int)

  const FRESH := VarData(false, 0)

  datatype Numbering = Numbering(nVars: nat, interToOuter: seq<nat>, outerToInter: seq<nat>, assigns: seq<LBool>,
    varData: seq<VarData>,
                                 numBva: nat, withBva: seq<nat>) {
    function NVarsOuter(): nat {
      |assigns|
    }
  }

  // ----- inverse permutations -----

  ghost predicate Inverse(a: seq<nat>, b: seq<nat>) {
    && |a| == |b|
    && (forall i {:trigger a[i]} :: 0 <= i < |a| ==> a[i] < |b| && b[a[i]] == i)
    && forall o {:trigger b[o]} :: 0 <= o < |b| ==> b[o] < |a| && a[b[o]] == o
  }

  ghost predicate Sizes(s: Numbering) {
    && |s.interToOuter| == |s.outerToInter| == |s.varData| == s.NVarsOuter() && s.nVars <= s.NVarsOuter()
  }

  /** The outer numbers below `n` that are not of added variables, in order. */
  ghost function NonBva(s: Numbering, n: nat): seq<nat>
    requires Sizes(s) && Inverse(s.interToOuter, s.outerToInter) && n <= s.NVarsOuter()
  {
    if n == 0 then [] else NonBva(s, n - 1) + if s.varData[s.outerToInter[n - 1]].isBva then [] else [n - 1]
  }

  ghost predicate Inv(s: Numbering) {
    Sizes(s) && Inverse(s.interToOuter, s.outerToInter) && s.withBva == NonBva(s, s.NVarsOuter())
      && s.numBva == s.NVarsOuter() - |s.withBva|
  }

  /** What belongs to an outer variable, wherever it is kept. */
  ghost function ValueOf(s: Numbering, o: nat): LBool
    requires Inv(s) && o < s.NVarsOuter()
  {
    s.assigns[s.outerToInter[o]]
  }

  ghost function DataOf(s: Numbering, o: nat): VarData
    requires Inv(s) && o < s.NVarsOuter()
  {
    s.varData[s.outerToInter[o]]
  }

  /** The outer variables of `s` keep value and data in `t`. */
  ghost predicate Kept(s: Numbering, t: Numbering)
    requires Inv(s) && Inv(t)
  {
    s.NVarsOuter() <= t.NVarsOuter()
      && forall o: nat {:trigger ValueOf(t, o)} {:trigger DataOf(t, o)} ::
      o < s.NVarsOuter() ==> ValueOf(t, o) == ValueOf(s, o) && DataOf(t, o) == DataOf(s, o)
  }

  function Swap<T>(a: seq<T>, i: nat, j: nat): seq<T>
    requires i < |a| && j < |a|
  {
    a[i := a[j]][j := a[i]]
  }

  function Repeat<T>(x: T, n: nat): seq<T> {
    seq(n, _ => x)
  }

  // ----- one more variable -----

  /** The inner position `m` goes to a new outer number; what was there moves to the end. */
  function NewInter(inter: seq<nat>, m: nat): seq<nat>
    requires m <= |inter|
  {
    (inter + [|inter|])[m := |inter|][|inter| := (inter + [|inter|])[m]]
  }

  function NewOuter(outer: seq<nat>, x: nat, m: nat): seq<nat>
    requires x <= |outer|
  {
    (outer + [|outer|])[|outer| := m][x := |outer|]
  }

  /** Where the new number goes, and that the number it displaces goes to the end. */
  lemma NewInverse(inter: seq<nat>, outer: seq<nat>, m: nat)
    requires Inverse(inter, outer) && m <= |inter|
    ensures var n := |inter|; var x := (inter + [n])[m];
      x <= n && Inverse(NewInter(inter, m), NewOuter(outer, x, m)) && NewOuter(outer, x, m)[n] == m
    ensures var n := |inter|; var x := (inter + [n])[m];
      forall o: nat {:trigger NewOuter(outer, x, m)[o]} ::
      o < n ==> outer[o] < n && NewOuter(outer, x, m)[o] == if outer[o] == m then n else outer[o]
  {
  }

  /** A variable that did not exist: it gets the last outer number and the first inner number not in use. */
  function Fresh(s: Numbering, bva: bool): Numbering
    requires Sizes(s) && Inverse(s.interToOuter, s.outerToInter)
  {
    var n, m := s.NVarsOuter(), s.nVars;
    Numbering(m + 1, NewInter(s.interToOuter, m), NewOuter(s.outerToInter, (s.interToOuter + [n])[m], m),
              Swap(s.assigns + [Undef], m, n), Swap(s.varData + [FRESH], m, n)[m := VarData(bva, 0)],
              if bva then s.numBva + 1 else s.numBva, if bva then s.withBva else s.withBva + [n])
  }

  /** An eliminated variable comes back into use: it changes places with the first one not in use. */
  function Reinserted(s: Numbering, o: nat): Numbering
    requires Sizes(s) && Inverse(s.interToOuter, s.outerToInter) && s.nVars < s.NVarsOuter() && o < s.NVarsOuter()
  {
    var m := s.nVars;
    var k, z := s.interToOuter[m], s.outerToInter[o];
    s.(nVars := m + 1, interToOuter := s.interToOuter[m := o][z := k], outerToInter := s.outerToInter[k := z][o := m],
       assigns := Swap(s.assigns, m, z), varData := Swap(s.varData, m, z))
  }

  lemma FreshInverse(s: Numbering, bva: bool)
    requires Sizes(s) && Inverse(s.interToOuter, s.outerToInter)
    ensures Sizes(Fresh(s, bva)) && Inverse(Fresh(s, bva).interToOuter, Fresh(s, bva).outerToInter)
    ensures forall o: nat ::
      o < s.NVarsOuter() ==> var t := Fresh(s, bva);
      t.varData[t.outerToInter[o]] == s.varData[s.outerToInter[o]]
      && t.assigns[t.outerToInter[o]] == s.assigns[s.outerToInter[o]]
    ensures var t := Fresh(s, bva); var n := s.NVarsOuter();
      t.varData[t.outerToInter[n]] == VarData(bva, 0) && t.assigns[t.outerToInter[n]] == Undef
      && t.outerToInter[n] == s.nVars
  {
    NewInverse(s.interToOuter, s.outerToInter, s.nVars);
    hide Inverse, NewInter, NewOuter;
    InRange(s, s);
  }

  lemma {:induction false} SameNonBva(s: Numbering, t: Numbering, n: nat)
    requires Sizes(s) && Inverse(s.interToOuter, s.outerToInter) && Sizes(t) && Inverse(t.interToOuter, t.outerToInter)
    requires n <= s.NVarsOuter() && n <= t.NVarsOuter()
    requires forall o: nat {:trigger t.outerToInter[o]} ::
      o < n ==> t.varData[t.outerToInter[o]].isBva == s.varData[s.outerToInter[o]].isBva
    ensures NonBva(t, n) == NonBva(s, n)
  {
    if n > 0 {
      SameNonBva(s, t, n - 1);
    }
  }

  /** A new variable disturbs no other one, and is there with nothing known about it. */
  lemma FreshKeeps(s: Numbering, bva: bool)
    requires Inv(s)
    ensures var t := Fresh(s, bva);
      && Inv(t) && Kept(s, t) && t.nVars == s.nVars + 1 && t.NVarsOuter() == s.NVarsOuter() + 1
      && ValueOf(t, s.NVarsOuter()) == Undef && DataOf(t, s.NVarsOuter()) == VarData(bva, 0)
        && t.outerToInter[s.NVarsOuter()] == s.nVars
  {
    hide Inverse;
    var t, n := Fresh(s, bva), s.NVarsOuter();
    FreshInverse(s, bva);
    hide Fresh;
    assert t.NVarsOuter() == n + 1 && t.withBva == s.withBva + (if bva then [] else [n])
      && t.numBva == s.numBva + (if bva then 1 else 0) by { FreshSizes(s, bva); }
    InRange(s, t);
    SameNonBva(s, t, n);
  }

  lemma InRange(s: Numbering, t: Numbering)
    requires Sizes(s) && Inverse(s.interToOuter, s.outerToInter) && Sizes(t) && Inverse(t.interToOuter, t.outerToInter)
    ensures forall o: nat {:trigger s.outerToInter[o]} :: o < |s.outerToInter| ==> s.outerToInter[o] < |s.varData|
    ensures forall o: nat {:trigger t.outerToInter[o]} :: o < |t.outerToInter| ==> t.outerToInter[o] < |t.varData|
  {
  }

  lemma FreshSizes(s: Numbering, bva: bool)
    requires Sizes(s) && Inverse(s.interToOuter, s.outerToInter)
    ensures var t, n := Fresh(s, bva), s.NVarsOuter();
      t.NVarsOuter() == n + 1 && t.withBva == s.withBva + (if bva then [] else [n])
        && t.numBva == s.numBva + (if bva then 1 else 0) && t.nVars == s.nVars + 1
  {
  }

  lemma ReinsertedKeeps(s: Numbering, o: nat)
    requires Inv(s) && s.nVars < s.NVarsOuter() && o < s.NVarsOuter() && s.outerToInter[o] >= s.nVars
    ensures var t := Reinserted(s, o);
      Inv(t) && Kept(s, t) && t.nVars == s.nVars + 1 && t.NVarsOuter() == s.NVarsOuter() && t.outerToInter[o] == s.nVars
    ensures forall i: nat :: i < s.nVars ==> Reinserted(s, o).interToOuter[i] == s.interToOuter[i]
  {
    var t := Reinserted(s, o);
    assert Inverse(t.interToOuter, t.outerToInter);
    SameNonBva(s, t, s.NVarsOuter());
  }

  // ----- several at once -----

  /** `n` new variables, one after the other. */
  function FreshTimes(s: Numbering, n: nat): (t: Numbering)
    requires Inv(s)
    ensures Inv(t) && t.nVars == s.nVars + n && t.NVarsOuter() == s.NVarsOuter() + n
  {
    if n == 0 then s else
      var t := FreshTimes(s, n - 1);
      FreshKeeps(t, false);
      Fresh(t, false)
  }

  lemma {:induction false} FreshTimesKeeps(s: Numbering, n: nat)
    requires Inv(s)
    ensures Kept(s, FreshTimes(s, n))
    ensures forall o: nat {:trigger ValueOf(FreshTimes(s, n), o)} :: s.NVarsOuter() <= o < s.NVarsOuter() + n ==>
      ValueOf(FreshTimes(s, n), o) == Undef && DataOf(FreshTimes(s, n), o) == FRESH
  {
    hide Inv, Fresh;
    if n > 0 {
      FreshTimesKeeps(s, n - 1);
      var t := FreshTimes(s, n - 1);
      SizesOf(t);
      FreshKeeps(t, false);
      assert FreshTimes(s, n) == Fresh(t, false);
      forall o: nat | o < s.NVarsOuter() + n
        ensures o < s.NVarsOuter() + n - 1 ==>
          ValueOf(FreshTimes(s, n), o) == ValueOf(t, o) && DataOf(FreshTimes(s, n), o) == DataOf(t, o)
      {
      }
    }
  }

  // ----- rearranging by a permutation -----

  /** `updateArray` */
  method UpdateArray<T>(a: seq<T>, mapper: seq<nat>) returns (r: seq<T>)
    requires |mapper| == |a| && forall i {:trigger mapper[i]} :: 0 <= i < |a| ==> mapper[i] < |a|
    ensures |r| == |a| && forall i {:trigger r[i]} :: 0 <= i < |a| ==> r[i] == a[mapper[i]]
  {
    r := a;
    for i := 0 to |a|
      invariant |r| == |a|
      invariant forall k {:trigger r[k]} :: 0 <= k < |a| ==> r[k] == if k < i then a[mapper[k]] else a[k]
    {
      r := r[i := a[mapper[i]]];
    }
  }

  /** `updateArrayMapCopy` */
  method UpdateArrayMapCopy(a: seq<nat>, mapper: seq<nat>) returns (r: seq<nat>)
    ensures |r| == |a| && forall i {:trigger r[i]} :: 0 <= i < |a| ==> r[i] == if a[i] < |mapper| then mapper[a[i]]
      else a[i]
  {
    r := a;
    for i := 0 to |a|
      invariant |r| == |a|
      invariant forall k {:trigger r[k]} ::
        0 <= k < |a| ==> r[k] == if k < i && a[k] < |mapper| then mapper[a[k]] else a[k]
    {
      if a[i] < |mapper| {
        r := r[i := mapper[a[i]]];
      }
    }
  }

  ghost predicate Injective(m: seq<nat>) {
    forall i, j {:trigger m[i], m[j]} :: 0 <= i < j < |m| ==> m[i] != m[j]
  }

  /** Positions already updated form whole cycles; the others are untouched. */
  ghost predicate CyclesDone<T>(a: seq<T>, b: seq<T>, m: seq<nat>, seen: set<nat>) {
    && |a| == |b| == |m| && (forall k {:trigger m[k]} :: 0 <= k < |m| ==> m[k] < |m| && (k in seen <==> m[k] in seen))
    && (forall k {:trigger a[k]} :: 0 <= k < |a| ==> a[k] == if k in seen then b[m[k]] else b[k])
    && forall k {:trigger k in seen} :: k in seen ==> k < |m|
  }

  /** Some position of the path other than `v` is followed by `k`. */
  ghost predicate LeadsTo(m: seq<nat>, path: set<nat>, v: nat, k: nat) {
    exists u :: u in path && u != v && u < |m| && m[u] == k
  }

  /** The positions from `i` on, in the order of the permutation, up to `v`. */
  ghost predicate PathOk(m: seq<nat>, seen0: set<nat>, path: set<nat>, i: nat, v: nat) {
    PathSet(m, seen0, path, i, v) && PathNext(m, path, i, v) && PathBack(m, path, i, v)
  }

  ghost predicate PathSet(m: seq<nat>, seen0: set<nat>, path: set<nat>, i: nat, v: nat) {
    && i < |m| && v < |m| && i in path && v in path && (forall k {:trigger m[k]} :: 0 <= k < |m| ==> m[k] < |m|)
    && forall k {:trigger k in path} :: k in path ==> k < |m| && k !in seen0
  }

  ghost predicate PathNext(m: seq<nat>, path: set<nat>, i: nat, v: nat) {
    forall k {:trigger m[k]} :: k in path && k != v && 0 <= k < |m| ==> m[k] in path && m[k] != i
  }

  ghost predicate PathBack(m: seq<nat>, path: set<nat>, i: nat, v: nat) {
    forall k {:trigger k in path} :: k in path && k != i ==> LeadsTo(m, path, v, k)
  }

  /**
   On the way round the cycle: all positions passed have their element but the last, which has the one of the first.
   */
  ghost predicate PathValues<T>(a: seq<T>, b: seq<T>, m: seq<nat>, seen0: set<nat>, path: set<nat>, i: nat, v: nat)
    requires PathOk(m, seen0, path, i, v)
  {
    && |a| == |b| == |m|
    && forall k {:trigger a[k]} ::
      0 <= k < |a| ==> a[k] == if k == v then b[i] else if k in path || k in seen0 then b[m[k]] else b[k]
  }

  ghost predicate OnCycle<T>(a: seq<T>, b: seq<T>, m: seq<nat>, seen0: set<nat>, path: set<nat>, i: nat, v: nat) {
    PathOk(m, seen0, path, i, v) && PathValues(a, b, m, seen0, path, i, v)
  }

  /** Updated positions form whole cycles. */
  ghost predicate Rounds(m: seq<nat>, seen: set<nat>) {
    && (forall k {:trigger m[k]} :: 0 <= k < |m| ==> m[k] < |m| && (k in seen <==> m[k] in seen))
    && forall k {:trigger k in seen} :: k in seen ==> k < |m|
  }

  lemma CycleStarts<T>(a: seq<T>, b: seq<T>, m: seq<nat>, seen: set<nat>, i: nat)
    requires CyclesDone(a, b, m, seen) && i < |m| && i !in seen
    ensures OnCycle(a, b, m, seen, {i}, i, i) && Rounds(m, seen)
  {
  }

  lemma NotOnPath(m: seq<nat>, seen0: set<nat>, path: set<nat>, i: nat, v: nat)
    requires PathOk(m, seen0, path, i, v) && Injective(m) && m[v] != i
    ensures m[v] !in path
  {
    forall k | k in path && k != i
      ensures m[v] != k
    {
      var u :| u in path && u != v && u < |m| && m[u] == k;
      assert u < v || v < u;
    }
  }

  lemma LeadsOn(m: seq<nat>, path: set<nat>, v: nat, k: nat)
    requires v in path && v < |m| && m[v] !in path && (k == m[v] || LeadsTo(m, path, v, k))
    ensures LeadsTo(m, path + {m[v]}, m[v], k)
  {
    if k == m[v] {
      assert v in path + {m[v]} && v != m[v];
    } else {
      var u :| u in path && u != v && u < |m| && m[u] == k;
      assert u in path + {m[v]} && u != m[v];
    }
  }

  lemma PathStep(m: seq<nat>, seen0: set<nat>, path: set<nat>, i: nat, v: nat)
    requires PathOk(m, seen0, path, i, v) && Injective(m) && Rounds(m, seen0) && m[v] != i
    ensures var w := m[v]; w !in seen0 && w !in path && PathOk(m, seen0, path + {w}, i, w)
  {
    NotOnPath(m, seen0, path, i, v);
    BackStep(m, path, i, v);
    hide Injective, LeadsTo, PathBack;
    assert PathNext(m, path + {m[v]}, i, m[v]);
  }

  lemma BackStep(m: seq<nat>, path: set<nat>, i: nat, v: nat)
    requires PathBack(m, path, i, v) && v in path && v < |m| && m[v] !in path
    ensures PathBack(m, path + {m[v]}, i, m[v])
  {
    hide LeadsTo;
    forall k | k in path + {m[v]} && k != i
      ensures LeadsTo(m, path + {m[v]}, m[v], k)
    {
      LeadsOn(m, path, v, k);
    }
  }

  lemma CycleStep<T>(a: seq<T>, b: seq<T>, m: seq<nat>, seen0: set<nat>, path: set<nat>, i: nat, v: nat)
    requires OnCycle(a, b, m, seen0, path, i, v) && Injective(m) && Rounds(m, seen0) && m[v] != i
    ensures var w := m[v]; w !in seen0 && w !in path && OnCycle(Swap(a, v, w), b, m, seen0, path + {w}, i, w)
  {
    PathStep(m, seen0, path, i, v);
    hide Injective, PathOk, Rounds;
    assert a[m[v]] == b[m[v]] && a[v] == b[i];
  }

  /** Back at the start, the whole cycle has its elements. */
  lemma CycleCloses<T>(a: seq<T>, b: seq<T>, m: seq<nat>, seen0: set<nat>, path: set<nat>, i: nat, v: nat)
    requires OnCycle(a, b, m, seen0, path, i, v) && Injective(m) && Rounds(m, seen0) && m[v] == i
    ensures CyclesDone(a, b, m, seen0 + path)
  {
    var seen := seen0 + path;
    forall k | 0 <= k < |m|
      ensures k in seen <==> m[k] in seen
    {
      if m[k] in path && m[k] != i {
        assert LeadsTo(m, path, v, m[k]);
        var u :| u in path && u != v && u < |m| && m[u] == m[k];
        assert u == k || u < k || k < u;
      }
      if m[k] == i {
        assert k == v || k < v || v < k;
      }
    }
  }

  /** The state of the walk: `seen` has what was passed, and the start only once the walk is back there. */
  ghost predicate Walking<T>(r: seq<T>, a: seq<T>, m: seq<nat>, seen0: set<nat>, seen: set<nat>, path: set<nat>, i: nat,
                             v: nat, first: bool)
  {
    && OnCycle(r, a, m, seen0, path, i, v) && Rounds(m, seen0) && i < |m|
    && (if first then v == i && seen == seen0 && path == {i}
      else seen == seen0 + path - (if m[i] == i then {} else {i}))
    && (!first && m[i] == i ==> v == i && path == {i})
  }

  lemma WalkStep<T>(r: seq<T>, a: seq<T>, m: seq<nat>, seen0: set<nat>, seen: set<nat>, path: set<nat>, i: nat, v: nat,
                    first: bool)
    requires Walking(r, a, m, seen0, seen, path, i, v, first) && Injective(m) && v < |m| == |r| && m[v] < |m|
      && (first || m[v] != i)
    ensures |Swap(r, v, m[v])| == |r|
      && Walking(Swap(r, v, m[v]), a, m, seen0, seen + {m[v]}, path + {m[v]}, i, m[v], false)
    ensures m[v] == i ==> first && path + {m[v]} == path && m[i] == i
    ensures m[v] != i ==> m[v] !in path
  {
    var w := m[v];
    assert |Swap(r, v, w)| == |r|;
    if w == i {
      hide OnCycle, Rounds, Injective;
      assert Swap(r, v, w) == r && path + {w} == path;
    } else {
      assert w !in path && OnCycle(Swap(r, v, w), a, m, seen0, path + {w}, i, w) by {
        CycleStep(r, a, m, seen0, path, i, v);
      }
      assert i in path && i !in seen0 by {
        PathInRange(m, seen0, path, i, v, w);
      }
      hide OnCycle, Rounds, Injective, Swap;
      assert m[i] == i ==> first && w == i;
      assert seen + {w} == seen0 + (path + {w}) - {i};
    }
  }

  lemma PathInRange(m: seq<nat>, seen0: set<nat>, path: set<nat>, i: nat, v: nat, w: nat)
    requires PathOk(m, seen0, path, i, v)
    ensures i in path && i !in seen0
  {
  }

  lemma WalkEnds<T>(r: seq<T>, a: seq<T>, m: seq<nat>, seen0: set<nat>, seen: set<nat>, path: set<nat>, i: nat, v: nat)
    requires Walking(r, a, m, seen0, seen, path, i, v, false) && Injective(m) && v < |m| && m[v] == i
    ensures CyclesDone(r, a, m, seen + {i})
  {
    CycleCloses(r, a, m, seen0, path, i, v);
    PathInRange(m, seen0, path, i, v, i);
    assert seen + {i} == seen0 + path;
  }

  /** `updateBySwap`: the same as `updateArray`, in place, cycle by cycle. */
  method UpdateBySwap<T>(a: seq<T>, mapper: seq<nat>) returns (r: seq<T>)
    requires |mapper| == |a| && Injective(mapper) && forall i {:trigger mapper[i]} :: 0 <= i < |a| ==> mapper[i] < |a|
    ensures |r| == |a| && forall i {:trigger r[i]} :: 0 <= i < |a| ==> r[i] == a[mapper[i]]
  {
    hide CyclesDone, OnCycle, Rounds, Injective, Swap;
    r := a;
    var seen: set<nat> := {};
    assert CyclesDone(r, a, mapper, seen) by { NothingDone(a, mapper); }
    for i := 0 to |a|
      invariant CyclesDone(r, a, mapper, seen) && |r| == |a| && forall k :: 0 <= k < i ==> k in seen
    {
      if i in seen {
        continue;
      }
      var v: nat := i;
      ghost var seen0: set<nat>, path: set<nat> := seen, {i};
      CycleStarts(r, a, mapper, seen, i);
      var first := true;
      while first || mapper[v] != i
        invariant Walking(r, a, mapper, seen0, seen, path, i, v, first) && |r| == |a| == |mapper| && v < |a|
        decreases first && mapper[v] == i, UpTo(|a|) - path
      {
        var swapwith: nat := mapper[v];
        WalkStep(r, a, mapper, seen0, seen, path, i, v, first);
        r := Swap(r, v, swapwith);
        seen := seen + {swapwith};
        path := path + {swapwith};
        v := swapwith;
        first := false;
      }
      WalkEnds(r, a, mapper, seen0, seen, path, i, v);
      seen := seen + {i};
    }
    DoneAll(r, a, mapper, seen);
  }

  lemma NothingDone<T>(a: seq<T>, m: seq<nat>)
    requires |m| == |a| && forall i {:trigger m[i]} :: 0 <= i < |a| ==> m[i] < |a|
    ensures CyclesDone(a, a, m, {})
  {
  }

  lemma DoneAll<T>(a: seq<T>, b: seq<T>, m: seq<nat>, seen: set<nat>)
    requires CyclesDone(a, b, m, seen) && forall k :: 0 <= k < |m| ==> k in seen
    ensures forall i {:trigger a[i]} :: 0 <= i < |a| ==> a[i] == b[m[i]]
  {
  }

  // ----- the solver's variables -----

  class CNF {
    var minNumVars: nat
    var interToOuterMain: seq<nat>
    var outerToInterMain: seq<nat>
    var assigns: seq<LBool>
    var varData: seq<VarData>
    var numBvaVars: nat
    var outerToWithBvaMap: seq<nat>

    function Abs(): Numbering
      reads this
    {
      Numbering(minNumVars, interToOuterMain, outerToInterMain, assigns, varData, numBvaVars, outerToWithBvaMap)
    }

    ghost predicate Valid()
      reads this
    {
      Inv(Abs())
    }

    method SwapVars(which: nat, offBy: nat)
      requires offBy < minNumVars && minNumVars - offBy - 1 < |assigns| == |varData| && which < |assigns|
      modifies `assigns, `varData
      ensures assigns == Swap(old(assigns), minNumVars - offBy - 1, which)
        && varData == Swap(old(varData), minNumVars - offBy - 1, which)
    {
      var at := minNumVars - offBy - 1;
      assigns := assigns[at := assigns[which]][which := assigns[at]];
      varData := varData[at := varData[which]][which := varData[at]];
    }

    /** One more variable in use: a new one, or an eliminated one. Every outer variable keeps what belongs to it. */
    method NewVar(bva: bool, origOuter: Option<nat>) returns (ok: bool)
      requires Valid() && |outerToInterMain| == |assigns|
        && (origOuter.Some? ==> origOuter.value < |assigns| && outerToInterMain[origOuter.value] >= minNumVars)
      modifies this
      ensures ok <==> old(minNumVars) < MAX_VARS
      ensures Valid() && Kept(old(Abs()), Abs()) && (!ok ==> Abs() == old(Abs()))
      ensures ok ==>
        minNumVars == old(minNumVars) + 1 && (origOuter.None? ==> Abs() == Fresh(old(Abs()), bva))
        && (origOuter.Some? ==> Abs() == Reinserted(old(Abs()), origOuter.value))
    {
      if minNumVars >= MAX_VARS {
        return false;
      }
      if origOuter.None? {
        NewFreshVar(bva);
      } else {
        ReinsertVar(origOuter.value);
      }
      ok := true;
    }

    method NewFreshVar(bva: bool)
      requires Valid()
      modifies this
      ensures Valid() && Abs() == Fresh(old(Abs()), bva) && Kept(old(Abs()), Abs())
    {
      ghost var s := Abs();
      SizesOf(s);
      FreshKeeps(s, bva);
      hide Inv, Inverse, NewInter, NewOuter, Kept;
      minNumVars := minNumVars + 1;
      assigns := assigns + [Undef];
      varData := varData + [FRESH];
      NumberVar(minNumVars - 1, |assigns| - 1);
      SwapVars(|assigns| - 1, 0);
      varData := varData[minNumVars - 1 := varData[minNumVars - 1].(isBva := bva)];
      if bva {
        numBvaVars := numBvaVars + 1;
      } else {
        outerToWithBvaMap := outerToWithBvaMap + [|assigns| - 1];
      }
      assert Abs() == Fresh(s, bva);
    }

    /** The two maps for the next new variable. */
    method NumberVar(minVar: nat, maxVar: nat)
      requires |interToOuterMain| == |outerToInterMain| == maxVar && minVar <= maxVar
        && Inverse(interToOuterMain, outerToInterMain)
      modifies `interToOuterMain, `outerToInterMain
      ensures (old(interToOuterMain) + [maxVar])[minVar] <= maxVar
      ensures interToOuterMain == NewInter(old(interToOuterMain), minVar)
        && outerToInterMain == NewOuter(old(outerToInterMain), (old(interToOuterMain) + [maxVar])[minVar], minVar)
    {
      NewInverse(interToOuterMain, outerToInterMain, minVar);
      hide Inverse;
      interToOuterMain := interToOuterMain + [maxVar];
      var x := interToOuterMain[minVar];
      interToOuterMain := interToOuterMain[minVar := maxVar][maxVar := x];
      outerToInterMain := outerToInterMain + [maxVar];
      outerToInterMain := outerToInterMain[maxVar := minVar][x := maxVar];
    }

    method ReinsertVar(orig: nat)
      requires Valid() && orig < |assigns| && outerToInterMain[orig] >= minNumVars
      modifies this
      ensures Valid() && Abs() == Reinserted(old(Abs()), orig) && Kept(old(Abs()), Abs())
        && minNumVars == old(minNumVars) + 1
    {
      ghost var s := Abs();
      SizesOf(s);
      ReinsertedKeeps(s, orig);
      hide Inv;
      minNumVars := minNumVars + 1;
      var minVar := minNumVars - 1;
      var k, z := interToOuterMain[minVar], outerToInterMain[orig];
      interToOuterMain := interToOuterMain[minVar := orig][z := k];
      outerToInterMain := outerToInterMain[k := z][orig := minVar];
      SwapVars(z, 0);
      assert Abs() == Reinserted(s, orig);
    }

    /** The state in the middle of adding several: everything is enlarged, the numbers of `j` of them are set. */
    ghost predicate HalfWay(s: Numbering, n: nat, j: nat)
      requires Inv(s) && j <= n
      reads this
    {
      var t := FreshTimes(s, j);
      && minNumVars == s.nVars + n && interToOuterMain == t.interToOuter && outerToInterMain == t.outerToInter
      && assigns == t.assigns + Repeat(Undef, n - j) && varData == t.varData + Repeat(FRESH, n - j)
      && numBvaVars == t.numBva && outerToWithBvaMap == t.withBva
    }

    /** Several at once are the same as one after the other. */
    method NewVars(n: nat) returns (ok: bool)
      requires Valid()
      modifies this
      ensures ok <==> old(minNumVars) + n < MAX_VARS
      ensures Abs() == if ok then FreshTimes(old(Abs()), n) else old(Abs())
      ensures Valid() && Kept(old(Abs()), Abs())
    {
      if minNumVars + n >= MAX_VARS {
        return false;
      }
      ghost var s := Abs();
      minNumVars := minNumVars + n;
      assigns := assigns + Repeat(Undef, n);
      varData := varData + Repeat(FRESH, n);
      for j := 0 to n
        invariant HalfWay(s, n, j)
      {
        NextOfSeveral(s, n, j);
      }
      assert assigns + [] == assigns && varData + [] == varData;
      FreshTimesKeeps(s, n);
      ok := true;
    }

    /** The body of the loop; `j` variables are done. */
    method NextOfSeveral(ghost s: Numbering, n: nat, j: nat)
      requires Inv(s) && j < n && HalfWay(s, n, j)
      modifies this
      ensures HalfWay(s, n, j + 1)
    {
      hide Inv, Inverse, NewInter, NewOuter, Kept;
      ghost var t := FreshTimes(s, j);
      SizesOf(t);
      FreshKeeps(t, false);
      var i := n - 1 - j;
      var minVar, maxVar := minNumVars - i - 1, |assigns| - i - 1;
      NumberVar(minVar, maxVar);
      SwapVars(maxVar, i);
      varData := varData[minVar := varData[minVar].(isBva := false)];
      outerToWithBvaMap := outerToWithBvaMap + [maxVar];
      SwapInFront(t.assigns, Undef, n - j, minVar);
      SwapInFront(t.varData, FRESH, n - j, minVar);
      UpdateInFront(Swap(t.varData + [FRESH], minVar, maxVar), Repeat(FRESH, n - j - 1), minVar, VarData(false, 0));
      hide Swap, Repeat;
      assert FreshTimes(s, j + 1) == Fresh(t, false);
    }

    /** The outer numbers of the variables that were not added: the inverse of the map kept. */
    method BuildOuterToWithoutBvaMap() returns (ret: seq<Option<nat>>)
      requires Valid()
      ensures |ret| == |assigns|
      ensures forall k {:trigger outerToWithBvaMap[k]} ::
        0 <= k < |outerToWithBvaMap| ==> outerToWithBvaMap[k] < |ret| && ret[outerToWithBvaMap[k]] == Some(k)
      ensures forall o {:trigger ret[o]} :: 0 <= o < |ret| ==> (ret[o].None? <==> DataOf(Abs(), o).isBva)
      ensures forall o {:trigger ret[o]} ::
        0 <= o < |ret| && ret[o].Some? ==> ret[o].value < |outerToWithBvaMap| && outerToWithBvaMap[ret[o].value] == o
    {
      ret := [];
      var at := 0;
      ghost var s := Abs();
      for i := 0 to |assigns|
        invariant Without(s, ret, i, at)
      {
        WithoutNext(s, ret, i, at);
        if !varData[outerToInterMain[i]].isBva {
          ret := ret + [Some(at)];
          at := at + 1;
        } else {
          ret := ret + [None];
        }
      }
    }

    /** Of a solution over outer numbers, the part for the variables that were not added. */
    method MapBackToWithoutBva(val: seq<LBool>) returns (ret: seq<LBool>)
      requires Valid() && |val| == |assigns|
      ensures |ret| == |assigns| - numBvaVars == |outerToWithBvaMap|
      ensures forall k {:trigger outerToWithBvaMap[k]} ::
        0 <= k < |ret| ==> outerToWithBvaMap[k] < |val| && ret[k] == val[outerToWithBvaMap[k]]
    {
      ret := [];
      for i := 0 to |assigns|
        invariant |ret| == |NonBva(Abs(), i)| && NonBva(Abs(), i) <= outerToWithBvaMap
        invariant forall k {:trigger outerToWithBvaMap[k]} ::
          0 <= k < |ret| ==> outerToWithBvaMap[k] < i && ret[k] == val[outerToWithBvaMap[k]]
      {
        NonBvaPrefix(Abs(), i + 1, |assigns|);
        if !varData[outerToInterMain[i]].isBva {
          assert outerToWithBvaMap[|ret|] == NonBva(Abs(), i + 1)[|ret|] == i;
          ret := ret + [val[i]];
        }
      }
    }

    // ----- renumbering -----

    /** Variables that are set or gone move behind the others; the rest stay where they are. */
    method CalculateInterToOuter(gone: seq<bool>)
      returns (outerToInter: seq<nat>, interToOuter: seq<nat>, numEffectiveVars: nat)
      requires Valid() && |gone| == |assigns|
      ensures |interToOuter| == |assigns| && Inverse(interToOuter, outerToInter) && numEffectiveVars <= minNumVars
      ensures forall i {:trigger interToOuter[i]} :: 0 <= i < |assigns| ==>
        (i < numEffectiveVars ==>
          interToOuter[i] < minNumVars && assigns[interToOuter[i]] == Undef && !gone[interToOuter[i]])
        && (numEffectiveVars <= i < minNumVars ==>
          interToOuter[i] < minNumVars && (assigns[interToOuter[i]] != Undef || gone[interToOuter[i]]))
        && (minNumVars <= i ==> interToOuter[i] == i)
    {
      var useless: seq<nat>;
      outerToInter, interToOuter, useless := PlaceEffective(gone);
      numEffectiveVars := minNumVars - |useless|;
      outerToInter, interToOuter := PlaceUseless(gone, outerToInter, interToOuter, useless);
      for i := minNumVars to |assigns|
        invariant |outerToInter| == |interToOuter| == |assigns| && Assigning(outerToInter, interToOuter, i, i)
          && Waiting(outerToInter, interToOuter, i, i, [])
        invariant Sorted(gone, interToOuter, numEffectiveVars, minNumVars)
        invariant forall q {:trigger interToOuter[q]} :: minNumVars <= q < i ==> interToOuter[q] == q
      {
        outerToInter := outerToInter[i := i];
        interToOuter := interToOuter[i := i];
      }
      AllAssigned(outerToInter, interToOuter);
    }

    /** The positions below `m` are taken by variables in use, those from there on below `at` by the others. */
    ghost predicate Sorted(gone: seq<bool>, interToOuter: seq<nat>, m: nat, at: nat)
      reads `assigns, `minNumVars
    {
      && at <= |interToOuter| && |gone| == |assigns| && minNumVars <= |assigns|
      && (forall q {:trigger interToOuter[q]} :: 0 <= q < at ==> interToOuter[q] < minNumVars)
      && forall q {:trigger interToOuter[q]} ::
        0 <= q < at ==> (q < m <==> assigns[interToOuter[q]] == Undef && !gone[interToOuter[q]])
    }

    method PlaceEffective(gone: seq<bool>) returns (outerToInter: seq<nat>, interToOuter: seq<nat>, useless: seq<nat>)
      requires |gone| == |assigns| && minNumVars <= |assigns|
      ensures |outerToInter| == |interToOuter| == |assigns| && |useless| <= minNumVars
      ensures var at := minNumVars - |useless|;
        Assigning(outerToInter, interToOuter, at, minNumVars)
          && Waiting(outerToInter, interToOuter, at, minNumVars, useless) && Sorted(gone, interToOuter, at, at)
      ensures forall k {:trigger useless[k]} ::
        0 <= k < |useless| ==> useless[k] < minNumVars && (assigns[useless[k]] != Undef || gone[useless[k]])
    {
      var n := |assigns|;
      useless := [];
      outerToInter, interToOuter := seq(n, _ => 0), seq(n, _ => 0);
      var at: nat := 0;
      for i := 0 to minNumVars
        invariant |outerToInter| == |interToOuter| == n && at + |useless| == i
        invariant Assigning(outerToInter, interToOuter, at, i) && Waiting(outerToInter, interToOuter, at, i, useless)
          && Sorted(gone, interToOuter, at, at)
        invariant forall k {:trigger useless[k]} ::
          0 <= k < |useless| ==> useless[k] < i && (assigns[useless[k]] != Undef || gone[useless[k]])
      {
        if assigns[i] != Undef || gone[i] {
          WaitingMore(outerToInter, interToOuter, at, i, useless);
          useless := useless + [i];
        } else {
          PlacedNext(outerToInter, interToOuter, at, i, useless);
          outerToInter := outerToInter[i := at];
          interToOuter := interToOuter[at := i];
          at := at + 1;
        }
      }
    }

    method PlaceUseless(gone: seq<bool>, outerToInter0: seq<nat>, interToOuter0: seq<nat>, useless: seq<nat>)
      returns (outerToInter: seq<nat>, interToOuter: seq<nat>)
      requires |outerToInter0| == |interToOuter0| == |assigns| == |gone| && |useless| <= minNumVars <= |assigns|
      requires var at := minNumVars - |useless|;
        Assigning(outerToInter0, interToOuter0, at, minNumVars)
          && Waiting(outerToInter0, interToOuter0, at, minNumVars, useless) && Sorted(gone, interToOuter0, at, at)
      requires forall k {:trigger useless[k]} ::
        0 <= k < |useless| ==> useless[k] < minNumVars && (assigns[useless[k]] != Undef || gone[useless[k]])
      ensures |outerToInter| == |interToOuter| == |assigns|
      ensures Assigning(outerToInter, interToOuter, minNumVars, minNumVars)
        && Waiting(outerToInter, interToOuter, minNumVars, minNumVars, [])
      ensures Sorted(gone, interToOuter, minNumVars - |useless|, minNumVars)
    {
      outerToInter, interToOuter := outerToInter0, interToOuter0;
      var at := minNumVars - |useless|;
      assert useless[0..] == useless;
      for k := 0 to |useless|
        invariant |outerToInter| == |interToOuter| == |assigns| && at == minNumVars - |useless| + k
        invariant Assigning(outerToInter, interToOuter, at, minNumVars)
          && Waiting(outerToInter, interToOuter, at, minNumVars, useless[k..])
        invariant Sorted(gone, interToOuter, minNumVars - |useless|, at)
      {
        assert useless[k..] == [useless[k]] + useless[k + 1..];
        WaitingLess(outerToInter, interToOuter, at, minNumVars, useless[k..]);
        assert useless[k..][1..] == useless[k + 1..];
        outerToInter := outerToInter[useless[k] := at];
        interToOuter := interToOuter[at := useless[k]];
        at := at + 1;
      }
      assert useless[|useless|..] == [];
    }

    /**
     Renumbering by two inverse permutations: all arrays move along, so every outer variable keeps what belongs to it.
     */
    method UpdateVars(outerToInter: seq<nat>, interToOuter: seq<nat>)
      requires Valid() && |interToOuter| == |assigns| && Inverse(interToOuter, outerToInter)
      modifies this
      ensures Valid() && Kept(old(Abs()), Abs()) && |assigns| == old(|assigns|) && minNumVars == old(minNumVars)
      ensures forall o {:trigger outerToInterMain[o]} ::
        0 <= o < |assigns| ==>
        old(outerToInterMain)[o] < |assigns| && outerToInterMain[o] == outerToInter[old(outerToInterMain)[o]]
    {
      ghost var s := Abs();
      SizesOf(s);
      hide Inv, Kept, Inverse;
      interToOuterMain := UpdateArray(interToOuterMain, interToOuter);
      outerToInterMain := UpdateArrayMapCopy(outerToInterMain, outerToInter);
      varData := UpdateArray(varData, interToOuter);
      assigns := UpdateArray(assigns, interToOuter);
      Renumbered(s, Abs(), outerToInter, interToOuter);
    }
  }

  /** The first `at` new positions are taken, by old positions below `i`. */
  ghost predicate Assigning(outerToInter: seq<nat>, interToOuter: seq<nat>, at: nat, i: nat) {
    at <= |interToOuter| == |outerToInter|
      && forall k {:trigger interToOuter[k]} ::
      0 <= k < at ==> interToOuter[k] < i <= |outerToInter| && outerToInter[interToOuter[k]] == k
  }

  /** Of the old positions below `i`, those not waiting have their new position. */
  ghost predicate Waiting(outerToInter: seq<nat>, interToOuter: seq<nat>, at: nat, i: nat, waiting: seq<nat>) {
    && at <= |interToOuter| == |outerToInter| && i <= |outerToInter| && at + |waiting| == i
    && (forall o: nat {:trigger o in waiting} ::
      o < i && o !in waiting ==> outerToInter[o] < at && interToOuter[outerToInter[o]] == o)
    && (forall k {:trigger waiting[k]} ::
      0 <= k < |waiting| ==>
      waiting[k] < i && forall q {:trigger interToOuter[q]} :: 0 <= q < at ==> interToOuter[q] != waiting[k])
    && forall j, k {:trigger waiting[j], waiting[k]} :: 0 <= j < k < |waiting| ==> waiting[j] != waiting[k]
  }

  lemma WaitingMore(outerToInter: seq<nat>, interToOuter: seq<nat>, at: nat, i: nat, waiting: seq<nat>)
    requires Assigning(outerToInter, interToOuter, at, i) && Waiting(outerToInter, interToOuter, at, i, waiting)
      && i < |outerToInter|
    ensures Assigning(outerToInter, interToOuter, at, i + 1)
      && Waiting(outerToInter, interToOuter, at, i + 1, waiting + [i])
  {
    forall o: nat | o < i + 1 && o !in waiting + [i]
      ensures outerToInter[o] < at && interToOuter[outerToInter[o]] == o
    {
      assert (waiting + [i])[|waiting|] == i;
      assert o !in waiting;
    }
  }

  lemma PlacedNext(outerToInter: seq<nat>, interToOuter: seq<nat>, at: nat, i: nat, waiting: seq<nat>)
    requires Assigning(outerToInter, interToOuter, at, i) && Waiting(outerToInter, interToOuter, at, i, waiting)
      && i < |outerToInter| && at < |outerToInter|
    ensures Assigning(outerToInter[i := at], interToOuter[at := i], at + 1, i + 1)
      && Waiting(outerToInter[i := at], interToOuter[at := i], at + 1, i + 1, waiting)
  {
  }

  lemma WaitingLess(outerToInter: seq<nat>, interToOuter: seq<nat>, at: nat, i: nat, waiting: seq<nat>)
    requires Assigning(outerToInter, interToOuter, at, i) && Waiting(outerToInter, interToOuter, at, i, waiting)
      && waiting != [] && at < |outerToInter|
    ensures waiting[0] < |outerToInter|
    ensures Assigning(outerToInter[waiting[0] := at], interToOuter[at := waiting[0]], at + 1, i)
      && Waiting(outerToInter[waiting[0] := at], interToOuter[at := waiting[0]], at + 1, i, waiting[1..])
  {
    var w := waiting[0];
    var outer', inter' := outerToInter[w := at], interToOuter[at := w];
    assert waiting == [w] + waiting[1..];
    forall o: nat | o < i && o !in waiting[1..]
      ensures outer'[o] < at + 1 && inter'[outer'[o]] == o
    {
      if o != w {
        assert o !in waiting;
      }
    }
  }

  lemma AllAssigned(outerToInter: seq<nat>, interToOuter: seq<nat>)
    requires Assigning(outerToInter, interToOuter, |interToOuter|, |interToOuter|)
      && Waiting(outerToInter, interToOuter, |interToOuter|, |interToOuter|, [])
    ensures Inverse(interToOuter, outerToInter)
  {
    forall o: nat | o < |outerToInter|
      ensures outerToInter[o] < |interToOuter| && interToOuter[outerToInter[o]] == o
    {
      assert !(o in []);
    }
  }

  lemma SizesOf(s: Numbering)
    requires Inv(s)
    ensures Sizes(s) && Inverse(s.interToOuter, s.outerToInter)
  {
  }

  lemma UpdateInFront<T>(a: seq<T>, b: seq<T>, m: nat, x: T)
    requires m < |a|
    ensures (a + b)[m := x] == a[m := x] + b && (a + b)[m] == a[m]
  {
  }

  lemma SwapInFront<T>(a: seq<T>, x: T, n: nat, m: nat)
    requires m <= |a| && n > 0
    ensures Swap(a + Repeat(x, n), m, |a|) == Swap(a + [x], m, |a|) + Repeat(x, n - 1)
  {
  }

  /** The map for the outer numbers below `i`, of which `at` are not of added variables. */
  ghost predicate Without(s: Numbering, ret: seq<Option<nat>>, i: nat, at: nat)
  {
    && Inv(s) && |ret| == i <= s.NVarsOuter() && at == |NonBva(s, i)| && NonBva(s, i) <= s.withBva
    && (forall k {:trigger s.withBva[k]} :: 0 <= k < at ==> s.withBva[k] < i && ret[s.withBva[k]] == Some(k))
    && (forall o {:trigger ret[o]} :: 0 <= o < i ==> (ret[o].None? <==> DataOf(s, o).isBva))
    && forall o {:trigger ret[o]} :: 0 <= o < i && ret[o].Some? ==> ret[o].value < at && s.withBva[ret[o].value] == o
  }

  lemma WithoutNext(s: Numbering, ret: seq<Option<nat>>, i: nat, at: nat)
    requires Without(s, ret, i, at) && i < s.NVarsOuter()
    ensures s.outerToInter[i] < |s.varData|
    ensures s.varData[s.outerToInter[i]].isBva ==> Without(s, ret + [None], i + 1, at)
    ensures !s.varData[s.outerToInter[i]].isBva ==> Without(s, ret + [Some(at)], i + 1, at + 1)
  {
    NonBvaPrefix(s, i + 1, s.NVarsOuter());
    assert s.outerToInter[i] < |s.varData| by { InRange(s, s); }
    assert Sizes(s) && Inverse(s.interToOuter, s.outerToInter);
    hide Inv, Inverse;
    if !s.varData[s.outerToInter[i]].isBva {
      assert NonBva(s, i + 1) == NonBva(s, i) + [i];
      assert s.withBva[at] == NonBva(s, i + 1)[at] == i;
    }
  }

  lemma {:induction false} NonBvaPrefix(s: Numbering, i: nat, n: nat)
    requires Sizes(s) && Inverse(s.interToOuter, s.outerToInter) && i <= n <= s.NVarsOuter()
    ensures NonBva(s, i) <= NonBva(s, n)
  {
    if i < n {
      NonBvaPrefix(s, i, n - 1);
    }
  }

  lemma Renumbered(s: Numbering, t: Numbering, outerToInter: seq<nat>, interToOuter: seq<nat>)
    requires Inv(s) && |interToOuter| == s.NVarsOuter() && Inverse(interToOuter, outerToInter)
    requires |t.interToOuter| == |t.outerToInter| == |t.varData| == |t.assigns| == |s.assigns|
    requires t.nVars == s.nVars && t.numBva == s.numBva && t.withBva == s.withBva
    requires forall i {:trigger t.interToOuter[i]} ::
      0 <= i < |s.assigns| ==> t.interToOuter[i] == s.interToOuter[interToOuter[i]]
    requires forall o {:trigger t.outerToInter[o]} ::
      0 <= o < |s.assigns| ==>
      t.outerToInter[o] == if s.outerToInter[o] < |outerToInter| then outerToInter[s.outerToInter[o]]
      else s.outerToInter[o]
    requires forall i {:trigger t.varData[i]} :: 0 <= i < |s.assigns| ==> t.varData[i] == s.varData[interToOuter[i]]
    requires forall i {:trigger t.assigns[i]} :: 0 <= i < |s.assigns| ==> t.assigns[i] == s.assigns[interToOuter[i]]
    ensures Inv(t) && Kept(s, t)
  {
    assert Inverse(t.interToOuter, t.outerToInter);
    SameNonBva(s, t, s.NVarsOuter());
  }

  /** The watch lists move along with the literals: what was the list of a literal is found under its new number. */
  method UpdateWatches<T>(watches: seq<T>, interToOuter: seq<nat>, ghost outerToInter: seq<nat>) returns (r: seq<T>)
    requires Inverse(interToOuter, outerToInter) && |watches| == 2 * |interToOuter|
    ensures |r| == |watches|
      && forall q: nat {:trigger r[q]} :: q < |watches| ==> r[q] == watches[2 * interToOuter[q / 2] + q % 2]
  {
    var interToOuter2: seq<nat> := [];
    for i := 0 to |interToOuter|
      invariant |interToOuter2| == 2 * i
      invariant forall q: nat {:trigger interToOuter2[q]} ::
        q < 2 * i ==> interToOuter2[q] == 2 * interToOuter[q / 2] + q % 2
    {
      interToOuter2 := interToOuter2 + [2 * interToOuter[i], 2 * interToOuter[i] + 1];
    }
    LitsInjective(interToOuter, outerToInter, interToOuter2);
    r := UpdateBySwap(watches, interToOuter2);
  }

  lemma LitsInjective(interToOuter: seq<nat>, outerToInter: seq<nat>, twice: seq<nat>)
    requires Inverse(interToOuter, outerToInter) && |twice| == 2 * |interToOuter|
    requires forall q: nat {:trigger twice[q]} :: q < |twice| ==> twice[q] == 2 * interToOuter[q / 2] + q % 2
    ensures Injective(twice) && forall i {:trigger twice[i]} :: 0 <= i < |twice| ==> twice[i] < |twice|
  {
    forall i, j | 0 <= i < j < |twice|
      ensures twice[i] != twice[j]
    {
      assert outerToInter[interToOuter[i / 2]] == i / 2 && outerToInter[interToOuter[j / 2]] == j / 2;
    }
  }
}
