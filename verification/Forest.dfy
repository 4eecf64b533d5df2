/**
 The implication forest of level-1 propagation, as a mathematical object: the reason edges recorded in
 `varData`, together with the path from the root to every propagated literal. (cryptoms/hyperengine.cpp)
 */
module Forest {
  import opened Literals

  /** How a literal was reached: from which ancestor and by what kind of clause. (cryptoms/propby.h) */
  datatype Edge = Edge(anc: Option<Lit>, red: bool, hyper: bool, notAdded: bool)

  /** A binary clause as stored in `uselessBin` and `needToAddBinClause`: unordered. */
  datatype BinClause = BinClause(lits: Clause, red: bool)

  type Edges = map<nat, Edge>

  /** For every literal of the forest, the path that leads to it from the root, both ends included. */
  type Paths = map<Lit, seq<Lit>>

  ghost predicate NodeOk(root: Lit, rs: Edges, ps: Paths, l: Lit)
    requires l in ps
  {
    && l.v in rs
    && (l == root <==> rs[l.v].anc.None?)
    && (l != root ==> rs[l.v].anc.value in ps && ps[l] == ps[rs[l.v].anc.value] + [l])
    && 0 < |ps[l]|
    && ps[l][|ps[l]| - 1] == l
    && forall i {:trigger ps[l][i]} :: 0 <= i < |ps[l]| ==> ps[l][i] in ps && ps[ps[l][i]] == ps[l][..i + 1]
  }

  /** The edges form a tree under `root`, and `ps` are its paths. In particular there is no cycle. */
  ghost predicate ForestOk(root: Lit, rs: Edges, ps: Paths) {
    && root in ps
    && ps[root] == [root]
    && (forall l {:trigger NodeOk(root, rs, ps, l)} :: l in ps ==> NodeOk(root, rs, ps, l))
    && forall l, k {:trigger SameVar(l, k)} :: l in ps && k in ps && SameVar(l, k) ==> l == k
  }

  predicate SameVar(l: Lit, k: Lit) {
    l.v == k.v
  }

  /** `a` lies on the path to `l`. */
  ghost predicate OnPath(ps: Paths, a: Lit, l: Lit)
    requires a in ps && l in ps
  {
    0 < |ps[a]| <= |ps[l]| && ps[l][|ps[a]| - 1] == a
  }

  /** The step into `l` was made with an irredundant binary clause. */
  predicate IrredStep(rs: Edges, l: Lit) {
    l.v in rs && !rs[l.v].red && !rs[l.v].hyper
  }

  /** Every step on the path from `a` down to `l` is irredundant. */
  ghost predicate IrredPath(rs: Edges, ps: Paths, a: Lit, l: Lit)
    requires a in ps && l in ps
  {
    forall i {:trigger ps[l][i]} :: |ps[a]| <= i < |ps[l]| ==> IrredStep(rs, ps[l][i])
  }

  /**
   The clause (~a or l) can be done without: `l` is reached from `a` by a path of at least two steps, and
   if the clause is irredundant, by irredundant steps only.
   */
  ghost predicate Bypassed(rs: Edges, ps: Paths, a: Lit, l: Lit, red: bool) {
    && a in ps && l in ps
    && OnPath(ps, a, l)
    && |ps[a]| + 2 <= |ps[l]|
    && (!red ==> IrredPath(rs, ps, a, l))
  }

  ghost predicate UselessOk(rs: Edges, ps: Paths, useless: set<BinClause>) {
    forall b :: b in useless ==> UselessBin(rs, ps, b)
  }

  ghost predicate UselessBin(rs: Edges, ps: Paths, b: BinClause) {
    exists a: Lit, l: Lit :: b.lits == {a.Neg(), l} && Bypassed(rs, ps, a, l, b.red)
  }

  lemma OnPathTransitive(root: Lit, rs: Edges, ps: Paths, a: Lit, b: Lit, c: Lit)
    requires ForestOk(root, rs, ps)
    requires a in ps && b in ps && c in ps && OnPath(ps, a, b) && OnPath(ps, b, c)
    ensures OnPath(ps, a, c)
  {
    assert NodeOk(root, rs, ps, c);
    assert ps[b] == ps[c][..|ps[b]|];
  }

  /** The paths to two ancestors of one literal are comparable. */
  lemma OnPathLinear(root: Lit, rs: Edges, ps: Paths, a: Lit, b: Lit, c: Lit)
    requires ForestOk(root, rs, ps)
    requires a in ps && b in ps && c in ps && OnPath(ps, a, c) && OnPath(ps, b, c) && |ps[a]| <= |ps[b]|
    ensures OnPath(ps, a, b)
  {
    assert NodeOk(root, rs, ps, c);
    assert ps[b] == ps[c][..|ps[b]|];
  }

  lemma RootOnPath(root: Lit, rs: Edges, ps: Paths, l: Lit)
    requires ForestOk(root, rs, ps) && l in ps
    ensures OnPath(ps, root, l)
    decreases |ps[l]|
  {
    assert NodeOk(root, rs, ps, l);
    if l != root {
      var a := rs[l.v].anc.value;
      assert NodeOk(root, rs, ps, a);
      RootOnPath(root, rs, ps, a);
    }
  }

  /** Stepping to the reason of `l` goes to the last but one literal of its path. */
  lemma AncestorIsPrevious(root: Lit, rs: Edges, ps: Paths, l: Lit)
    requires ForestOk(root, rs, ps) && l in ps && l != root
    ensures l.v in rs && rs[l.v].anc.Some?
    ensures var a := rs[l.v].anc.value; a in ps && |ps[a]| + 1 == |ps[l]| && OnPath(ps, a, l)
  {
    assert NodeOk(root, rs, ps, l);
    assert NodeOk(root, rs, ps, rs[l.v].anc.value);
  }

  // ----- a new literal is propagated -----

  lemma Grow(root: Lit, rs: Edges, ps: Paths, l: Lit, r: Edge)
    requires ForestOk(root, rs, ps)
    requires forall k :: k in ps ==> k.v != l.v
    requires r.anc.Some? && r.anc.value in ps
    ensures ForestOk(root, rs[l.v := r], ps[l := ps[r.anc.value] + [l]])
  {
    var rs' := rs[l.v := r];
    var ps' := ps[l := ps[r.anc.value] + [l]];
    var a := r.anc.value;
    forall k | k in ps'
      ensures NodeOk(root, rs', ps', k)
    {
      if k == l {
        assert NodeOk(root, rs, ps, a);
        forall i | 0 <= i < |ps'[l]|
          ensures ps'[l][i] in ps' && ps'[ps'[l][i]] == ps'[l][..i + 1]
        {
          if i < |ps[a]| {
            assert ps'[l][i] == ps[a][i];
            assert ps'[l][..i + 1] == ps[a][..i + 1];
          } else {
            assert ps'[l][..i + 1] == ps'[l];
          }
        }
      } else {
        assert NodeOk(root, rs, ps, k);
      }
    }
  }

  /** What was bypassed before a literal is propagated still is. */
  lemma GrowKeepsUseless(root: Lit, rs: Edges, ps: Paths, l: Lit, r: Edge, useless: set<BinClause>)
    requires ForestOk(root, rs, ps) && UselessOk(rs, ps, useless)
    requires forall k :: k in ps ==> k.v != l.v
    requires r.anc.Some? && r.anc.value in ps
    ensures UselessOk(rs[l.v := r], ps[l := ps[r.anc.value] + [l]], useless)
  {
    var rs' := rs[l.v := r];
    var ps' := ps[l := ps[r.anc.value] + [l]];
    forall b | b in useless
      ensures UselessBin(rs', ps', b)
    {
      assert UselessBin(rs, ps, b);
      var a: Lit, k: Lit :| b.lits == {a.Neg(), k} && Bypassed(rs, ps, a, k, b.red);
      assert NodeOk(root, rs, ps, k);
      assert Bypassed(rs', ps', a, k, b.red);
    }
  }

  // ----- an edge is replaced -----

  /** The paths after the reason of `l` has been changed to `p`: the whole subtree of `l` moves. */
  ghost function Moved(ps: Paths, l: Lit, p: Lit): Paths
    requires l in ps && p in ps
  {
    map x | x in ps :: if OnPath(ps, l, x) then ps[p] + ps[x][|ps[l]| - 1..] else ps[x]
  }

  lemma MovedPrefix(root: Lit, rs: Edges, ps: Paths, l: Lit, p: Lit, x: Lit, i: nat)
    requires ForestOk(root, rs, ps)
    requires l in ps && p in ps && x in ps && !OnPath(ps, l, p)
    requires i < |Moved(ps, l, p)[x]|
    ensures var q := Moved(ps, l, p); q[x][i] in q && q[q[x][i]] == q[x][..i + 1]
  {
    var q := Moved(ps, l, p);
    var d := |ps[l]| - 1;
    assert NodeOk(root, rs, ps, x);
    assert NodeOk(root, rs, ps, p);
    assert NodeOk(root, rs, ps, l);
    if OnPath(ps, l, x) {
      if i < |ps[p]| {
        var y := ps[p][i];
        assert q[x][i] == y;
        assert ps[y] == ps[p][..i + 1];
        assert !OnPath(ps, l, y);
        assert q[x][..i + 1] == ps[p][..i + 1];
      } else {
        var k := i - |ps[p]| + d;
        var y := ps[x][k];
        assert q[x][i] == y;
        assert ps[y] == ps[x][..k + 1];
        assert OnPath(ps, l, y);
        assert q[y] == ps[p] + ps[y][d..];
        assert ps[y][d..] == ps[x][d..k + 1];
        assert q[x][..i + 1] == ps[p] + ps[x][d..k + 1];
      }
    } else {
      var y := ps[x][i];
      assert ps[y] == ps[x][..i + 1];
      assert !OnPath(ps, l, y);
    }
  }

  lemma MovedNode(root: Lit, rs: Edges, ps: Paths, l: Lit, r: Edge, x: Lit)
    requires ForestOk(root, rs, ps)
    requires l in ps && l != root && r.anc.Some? && r.anc.value in ps && !OnPath(ps, l, r.anc.value)
    requires x in ps
    ensures NodeOk(root, rs[l.v := r], Moved(ps, l, r.anc.value), x)
  {
    var p := r.anc.value;
    var q := Moved(ps, l, p);
    var rs' := rs[l.v := r];
    assert NodeOk(root, rs, ps, x);
    assert NodeOk(root, rs, ps, l);
    forall i | 0 <= i < |q[x]|
      ensures q[x][i] in q && q[q[x][i]] == q[x][..i + 1]
    {
      MovedPrefix(root, rs, ps, l, p, x, i);
    }
    if x == l {
      assert ps[l][|ps[l]| - 1..] == [l];
      assert q[l] == ps[p] + [l];
      assert q[p] == ps[p];
    } else if x != root {
      var a := rs[x.v].anc.value;
      assert !SameVar(x, l);
      assert NodeOk(root, rs, ps, a);
      assert ps[x] == ps[a] + [x];
      if OnPath(ps, l, x) {
        assert |ps[l]| != |ps[x]|;
        assert OnPath(ps, l, a);
        assert q[x] == q[a] + [x];
      } else {
        assert !OnPath(ps, l, a);
      }
    }
  }

  /** Re-parenting below a literal that is not a descendant keeps the forest a forest. */
  lemma MoveKeepsForest(root: Lit, rs: Edges, ps: Paths, l: Lit, r: Edge)
    requires ForestOk(root, rs, ps)
    requires l in ps && l != root && r.anc.Some? && r.anc.value in ps && !OnPath(ps, l, r.anc.value)
    ensures ForestOk(root, rs[l.v := r], Moved(ps, l, r.anc.value))
  {
    var rs' := rs[l.v := r];
    var q := Moved(ps, l, r.anc.value);
    forall x | x in q
      ensures NodeOk(root, rs', q, x)
    {
      MovedNode(root, rs, ps, l, r, x);
    }
    assert !OnPath(ps, l, root);
  }

  /** Re-parenting only grows the ancestor relation, and never shortens the way from one literal to another. */
  lemma MoveGrows(root: Lit, rs: Edges, ps: Paths, l: Lit, r: Edge, a: Lit, x: Lit)
    requires ForestOk(root, rs, ps)
    requires l in ps && l != root && r.anc.Some? && r.anc.value in ps && !OnPath(ps, l, r.anc.value)
    requires NodeOk(root, rs, ps, l) && OnPath(ps, rs[l.v].anc.value, r.anc.value)
    requires a in ps && x in ps && OnPath(ps, a, x)
    ensures var q := Moved(ps, l, r.anc.value);
      OnPath(q, a, x) && |ps[x]| - |ps[a]| <= |q[x]| - |q[a]|
  {
    var p := r.anc.value;
    var o := rs[l.v].anc.value;
    assert NodeOk(root, rs, ps, x);
    assert NodeOk(root, rs, ps, a);
    assert NodeOk(root, rs, ps, o);
    assert NodeOk(root, rs, ps, p);
    assert ps[a] == ps[x][..|ps[a]|] && ps[l] == ps[o] + [l] && ps[p][..|ps[o]|] == ps[o];
    assert OnPath(ps, l, x) ==> ps[l] == ps[x][..|ps[l]|];
    hide ForestOk, NodeOk;
    if OnPath(ps, l, x) {
      if |ps[l]| <= |ps[a]| {
        assert OnPath(ps, l, a);
      } else {
        assert !OnPath(ps, l, a);
        assert ps[x][|ps[a]| - 1] == ps[o][|ps[a]| - 1] == ps[p][|ps[a]| - 1];
      }
    } else {
      assert !OnPath(ps, l, a);
    }
  }

  /** A path of irredundant steps stays one if an irredundant step is only replaced by irredundant ones. */
  lemma MoveKeepsIrred(root: Lit, rs: Edges, ps: Paths, l: Lit, r: Edge, a: Lit, x: Lit)
    requires ForestOk(root, rs, ps)
    requires l in ps && l != root && r.anc.Some? && r.anc.value in ps && !OnPath(ps, l, r.anc.value)
    requires NodeOk(root, rs, ps, l) && OnPath(ps, rs[l.v].anc.value, r.anc.value)
    requires IrredStep(rs, l) ==> !r.red && !r.hyper && IrredPath(rs, ps, rs[l.v].anc.value, r.anc.value)
    requires a in ps && x in ps && OnPath(ps, a, x) && IrredPath(rs, ps, a, x)
    ensures IrredPath(rs[l.v := r], Moved(ps, l, r.anc.value), a, x)
  {
    var p := r.anc.value;
    var o := rs[l.v].anc.value;
    var q := Moved(ps, l, p);
    var rs' := rs[l.v := r];
    var d := |ps[l]| - 1;
    MoveGrows(root, rs, ps, l, r, a, x);
    assert NodeOk(root, rs, ps, x);
    assert NodeOk(root, rs, ps, p);
    forall i | |q[a]| <= i < |q[x]|
      ensures IrredStep(rs', q[x][i])
    {
      MovedPrefix(root, rs, ps, l, p, x, i);
      if OnPath(ps, l, x) {
        if i < |ps[p]| {
          // on the part of the path above the new edge: it leads from `a` through `o` to `p`
          assert !OnPath(ps, l, a);
          assert ps[x][d] == l && |ps[a]| <= d;
          assert IrredStep(rs, l);
          assert q[x][i] == ps[p][i];
          assert ps[ps[p][i]] == ps[p][..i + 1];
          if i < |ps[o]| {
            assert ps[o] == ps[p][..|ps[o]|];
            assert ps[l] == ps[x][..d + 1];
            assert ps[p][i] == ps[x][i];
          }
          assert IrredStep(rs, ps[p][i]);
          assert !SameVar(ps[p][i], l);
        } else {
          var k := i - |ps[p]| + d;
          assert q[x][i] == ps[x][k];
          if k == d {
            assert !OnPath(ps, l, a);
            assert |ps[a]| <= d;
            assert IrredStep(rs, l);
          } else {
            assert |ps[a]| <= k by {
              if OnPath(ps, l, a) {
                assert |q[a]| == |ps[p]| + |ps[a]| - d;
              } else {
                assert |ps[a]| <= d;
              }
            }
            assert IrredStep(rs, ps[x][k]);
            assert ps[ps[x][k]] == ps[x][..k + 1];
            assert !SameVar(ps[x][k], l);
          }
        }
      } else {
        assert q[x] == ps[x];
        assert !OnPath(ps, l, a) by {
          if OnPath(ps, l, a) {
            OnPathTransitive(root, rs, ps, l, a, x);
            assert false;
          }
        }
        assert IrredStep(rs, ps[x][i]);
        assert ps[ps[x][i]] == ps[x][..i + 1];
        assert !SameVar(ps[x][i], l);
      }
    }
  }

  /**
   The heart of on-the-fly transitive reduction: when the edge o -> l is replaced by p -> l because `o` is
   an ancestor of `p`, everything discarded so far stays bypassed and so does the discarded edge itself.
   */
  lemma MoveKeepsUseless(root: Lit, rs: Edges, ps: Paths, l: Lit, r: Edge, useless: set<BinClause>)
    requires ForestOk(root, rs, ps) && UselessOk(rs, ps, useless)
    requires l in ps && l != root && r.anc.Some? && r.anc.value in ps && !OnPath(ps, l, r.anc.value)
    requires NodeOk(root, rs, ps, l)
    requires OnPath(ps, rs[l.v].anc.value, r.anc.value) && rs[l.v].anc.value != r.anc.value
    requires !rs[l.v].red ==> !r.red && !r.hyper && IrredPath(rs, ps, rs[l.v].anc.value, r.anc.value)
    ensures UselessOk(rs[l.v := r], Moved(ps, l, r.anc.value), useless)
    ensures Bypassed(rs[l.v := r], Moved(ps, l, r.anc.value), rs[l.v].anc.value, l, rs[l.v].red)
  {
    var p := r.anc.value;
    var o := rs[l.v].anc.value;
    var q := Moved(ps, l, p);
    var rs' := rs[l.v := r];
    forall b | b in useless
      ensures UselessBin(rs', q, b)
    {
      assert UselessBin(rs, ps, b);
      var a: Lit, k: Lit :| b.lits == {a.Neg(), k} && Bypassed(rs, ps, a, k, b.red);
      MoveGrows(root, rs, ps, l, r, a, k);
      if !b.red {
        MoveKeepsIrred(root, rs, ps, l, r, a, k);
      }
      assert Bypassed(rs', q, a, k, b.red);
    }
    AncestorIsPrevious(root, rs, ps, l);
    MoveGrows(root, rs, ps, l, r, o, l);
    assert |ps[o]| < |ps[p]| by {
      assert NodeOk(root, rs, ps, o) && NodeOk(root, rs, ps, p);
    }
    assert q[l] == ps[p] + [l];
    assert !OnPath(ps, l, o);
    assert NodeOk(root, rs, ps, p);
    if !rs[l.v].red {
      forall i | |q[o]| <= i < |q[l]|
        ensures IrredStep(rs', q[l][i])
      {
        if i < |ps[p]| {
          assert IrredStep(rs, ps[p][i]);
          assert ps[ps[p][i]] == ps[p][..i + 1];
          assert ps[p][i] != l;
        }
      }
    }
  }
}
