/**
 The trail: what has been set, in which order and at which decision level.
 (cryptoms/propengine.cpp, cryptoms/propengine.h)
 */
module Trail {
  import opened Literals
  import opened Watches

  /** A falsified clause: binary, as the other literal beside the one recorded, or long. */
  datatype Conflict = BinConfl(lit2: Lit) | LongConfl(off: nat)

  // ----- trail and decision levels -----

  /** `lv` is the number of decision levels opened at or before trail position `i`. */
  ghost predicate IsLevelOf(lim: seq<nat>, i: nat, lv: nat) {
    && lv <= |lim|
    && (forall k :: 0 <= k < lv ==> lim[k] <= i)
    && forall k :: lv <= k < |lim| ==> i < lim[k]
  }

  /** A position after the opening of every level belongs to the last one. */
  lemma AllOpened(lim: seq<nat>, i: nat, lv: nat)
    requires IsLevelOf(lim, i, lv) && forall k :: 0 <= k < |lim| ==> lim[k] <= i
    ensures lv == |lim|
  {
    NextOpensLater(lim, i, lv);
  }

  lemma NextOpensLater(lim: seq<nat>, i: nat, lv: nat)
    requires IsLevelOf(lim, i, lv)
    ensures lv < |lim| ==> i < lim[lv]
  {
  }

  ghost predicate EntryOk(trail: seq<Lit>, lim: seq<nat>, a: Assigns, level: map<nat, nat>, n: nat, i: nat)
    requires i < |trail|
  {
    var l := trail[i];
    l.v < n && Value(a, l) == True && l.v in level && IsLevelOf(lim, i, level[l.v])
  }

  ghost predicate TrailOk(trail: seq<Lit>, lim: seq<nat>, a: Assigns, level: map<nat, nat>, n: nat) {
    && (forall i {:trigger trail[i]} :: 0 <= i < |trail| ==> EntryOk(trail, lim, a, level, n, i))
    && (forall i, j :: 0 <= i < j < |trail| ==> trail[i].v != trail[j].v)
    && (forall v :: v in a ==> exists i :: 0 <= i < |trail| && trail[i].v == v)
    && (forall i, j :: 0 <= i <= j < |lim| ==> lim[i] <= lim[j])
    && (forall i :: 0 <= i < |lim| ==> lim[i] <= |trail|)
  }

  lemma OnTrail(trail: seq<Lit>, lim: seq<nat>, a: Assigns, level: map<nat, nat>, n: nat, l: Lit) returns (i: nat)
    requires TrailOk(trail, lim, a, level, n) && Value(a, l) == True
    ensures i < |trail| && trail[i] == l && l.v in level && IsLevelOf(lim, i, level[l.v])
  {
    i :| 0 <= i < |trail| && trail[i].v == l.v;
    assert EntryOk(trail, lim, a, level, n, i);
  }

  lemma TrailBounded(trail: seq<Lit>, lim: seq<nat>, a: Assigns, level: map<nat, nat>, n: nat)
    requires TrailOk(trail, lim, a, level, n)
    ensures |trail| <= n
  {
    forall i | 0 <= i < |trail|
      ensures trail[i].v < n
    {
      assert EntryOk(trail, lim, a, level, n, i);
    }
    DistinctBounded(trail, n);
  }

  lemma TrailGrows(trail: seq<Lit>, lim: seq<nat>, a: Assigns, level: map<nat, nat>, n: nat, l: Lit)
    requires TrailOk(trail, lim, a, level, n) && Value(a, l) == Undef && l.v < n
    ensures TrailOk(trail + [l], lim, a[l.v := !l.sign], level[l.v := |lim|], n)
  {
    var trail' := trail + [l];
    var a' := a[l.v := !l.sign];
    var level' := level[l.v := |lim|];
    forall i | 0 <= i < |trail'|
      ensures EntryOk(trail', lim, a', level', n, i)
    {
      if i < |trail| {
        assert trail'[i] == trail[i];
        assert EntryOk(trail, lim, a, level, n, i);
      }
    }
    forall v | v in a'
      ensures exists i :: 0 <= i < |trail'| && trail'[i].v == v
    {
      if v == l.v {
        assert trail'[|trail|].v == v;
      } else {
        var i :| 0 <= i < |trail| && trail[i].v == v;
        assert trail'[i].v == v;
      }
    }
  }

  // ----- undoing levels -----

  lemma LevelInPrefix(lim: seq<nat>, k: nat, i: nat, lv: nat)
    requires IsLevelOf(lim, i, lv) && k < |lim| && i < lim[k]
    ensures IsLevelOf(lim[..k], i, lv)
  {
  }

  lemma TrailPrefix(trail: seq<Lit>, lim: seq<nat>, a: Assigns, a': Assigns, level: map<nat, nat>, n: nat, k: nat)
    requires TrailOk(trail, lim, a, level, n) && k < |lim|
    requires forall v :: v in a' ==> v in a && a'[v] == a[v] && exists i :: 0 <= i < lim[k] && trail[i].v == v
    requires forall i :: 0 <= i < lim[k] ==> trail[i].v in a'
    ensures TrailOk(trail[..lim[k]], lim[..k], a', level, n)
    ensures forall l :: Value(a, l) == True && l in trail[..lim[k]] ==> Value(a', l) == True
  {
    var trail' := trail[..lim[k]];
    forall i | 0 <= i < lim[k]
      ensures EntryOk(trail', lim[..k], a', level, n, i)
    {
      assert EntryOk(trail, lim, a, level, n, i);
      LevelInPrefix(lim, k, i, level[trail[i].v]);
      assert trail'[i] == trail[i];
    }
    hide EntryOk, IsLevelOf;
    forall v | v in a'
      ensures exists i :: 0 <= i < |trail'| && trail'[i].v == v
    {
      var i :| 0 <= i < lim[k] && trail[i].v == v;
      assert trail'[i].v == v;
    }
    forall i, j | 0 <= i < j < |trail'|
      ensures trail'[i].v != trail'[j].v
    {
      assert trail[i].v != trail[j].v;
    }
  }
}
