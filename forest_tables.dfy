/**
 * The converse of soundness for the upstream table's validation: a table
 * shaped as a forest of hybrids, where no label is listed twice, passes
 * `check`. Together with the rejection of shared descendants this pins down
 * what the walk accepts.
 */
module ForestTables {

  import opened RouterUpstreams
  import opened HybridGraph

  /** Each label appears at most once among all hybrid lists of the table. */
  ghost predicate ListedOnce(m: map<Label, Upstream>)
  {
    forall k1, i1, k2, i2 ::
      (k1 in m && k2 in m && 0 <= i1 < |Children(m[k1])| && 0 <= i2 < |Children(m[k2])| &&
       Children(m[k1])[i1] == Children(m[k2])[i2]) ==> k1 == k2 && i1 == i2
  }

  ghost predicate Forest(m: map<Label, Upstream>, rank: Label -> nat)
  {
    Closed(m) && NoEmptyHybrid(m) && Ranked(m, rank) && ListedOnce(m)
  }

  ghost predicate Reaches(m: map<Label, Upstream>, a: Label, x: Label)
  {
    exists p :: Path(m, p) && p[0] == a && p[|p| - 1] == x
  }

  /** No chain of references from `t` leads into the visited set `l`. */
  ghost predicate Fresh(m: map<Label, Upstream>, l: set<Label>, t: Label)
  {
    forall p :: Path(m, p) && p[0] == t ==> p[|p| - 1] !in l
  }

  lemma PathInit(m: map<Label, Upstream>, p: seq<Label>)
    requires Path(m, p) && |p| >= 2
    ensures Path(m, p[..|p| - 1])
  {
  }

  lemma PathCons(m: map<Label, Upstream>, t: Label, p: seq<Label>)
    requires t in m && Path(m, p) && p[0] in Children(m[t])
    ensures Path(m, [t] + p)
  {
  }

  /** In a forest two different children of one hybrid reach no common
      label. */
  lemma {:induction false} ChildrenReachDisjoint(m: map<Label, Upstream>, rank: Label -> nat, t: Label,
                                                 i: nat, j: nat, p: seq<Label>, q: seq<Label>)
    requires Forest(m, rank) && t in m
    requires i < |Children(m[t])| && j < |Children(m[t])| && i != j
    requires Path(m, p) && p[0] == Children(m[t])[i]
    requires Path(m, q) && q[0] == Children(m[t])[j]
    ensures p[|p| - 1] != q[|q| - 1]
    decreases |p| + |q|
  {
    var v := Children(m[t]);
    if |p| > 1 && |q| > 1 {
      var y, z := p[|p| - 2], q[|q| - 2];
      assert y in m && p[|p| - 1] in Children(m[y]);
      assert z in m && q[|q| - 1] in Children(m[z]);
      var a :| 0 <= a < |Children(m[y])| && Children(m[y])[a] == p[|p| - 1];
      var b :| 0 <= b < |Children(m[z])| && Children(m[z])[b] == q[|q| - 1];
      if p[|p| - 1] == q[|q| - 1] {
        assert y == z;
        PathInit(m, p);
        PathInit(m, q);
        ChildrenReachDisjoint(m, rank, t, i, j, p[..|p| - 1], q[..|q| - 1]);
      }
    } else if |p| > 1 {
      ParentOnPathImpossible(m, rank, t, i, j, p);
    } else if |q| > 1 {
      ParentOnPathImpossible(m, rank, t, j, i, q);
    }
  }

  /** A path from one child of `t` cannot end at another child of `t`: the
      only hybrid listing that child is `t`, which ranks below both. */
  lemma ParentOnPathImpossible(m: map<Label, Upstream>, rank: Label -> nat, t: Label, i: nat, j: nat, p: seq<Label>)
    requires Forest(m, rank) && t in m
    requires i < |Children(m[t])| && j < |Children(m[t])| && i != j
    requires Path(m, p) && |p| > 1 && p[0] == Children(m[t])[i]
    ensures p[|p| - 1] != Children(m[t])[j]
  {
    var y := p[|p| - 2];
    assert y in m && p[|p| - 1] in Children(m[y]);
    var a :| 0 <= a < |Children(m[y])| && Children(m[y])[a] == p[|p| - 1];
    if p[|p| - 1] == Children(m[t])[j] {
      assert y == t;
      if |p| > 2 {
        RankIncreasesAlongPath(m, rank, p, 0, |p| - 2);
      }
    }
  }

  /** Once `t` is marked, its children are fresh: nothing they reach was
      visited before, and none of them reaches back to `t`. */
  lemma ChildrenFresh(m: map<Label, Upstream>, rank: Label -> nat, l: set<Label>, t: Label)
    requires Forest(m, rank) && t in m && Fresh(m, l, t)
    ensures forall i :: 0 <= i < |Children(m[t])| ==> Fresh(m, l + {t}, Children(m[t])[i])
  {
    var v := Children(m[t]);
    forall i, p | 0 <= i < |v| && Path(m, p) && p[0] == v[i]
      ensures p[|p| - 1] !in l + {t}
    {
      PathCons(m, t, p);
      assert ([t] + p)[|[t] + p| - 1] == p[|p| - 1];
      assert v[i] in Children(m[t]) && rank(t) < rank(v[i]);
      if |p| > 1 {
        RankIncreasesAlongPath(m, rank, p, 0, |p| - 1);
      }
    }
  }

  lemma ReachesThroughChild(m: map<Label, Upstream>, t: Label, c: Label, x: Label)
    requires t in m && c in Children(m[t]) && Reaches(m, c, x)
    ensures Reaches(m, t, x)
  {
    var p :| Path(m, p) && p[0] == c && p[|p| - 1] == x;
    PathCons(m, t, p);
    assert ([t] + p)[|[t] + p| - 1] == x;
  }

  lemma {:induction false} Complete(m: map<Label, Upstream>, rank: Label -> nat, l: set<Label>, t: Label)
    requires Forest(m, rank) && t in m && Fresh(m, l, t)
    ensures Traversal(m, l, t).0.Ok?
    ensures forall x :: x in Traversal(m, l, t).1 && x !in l ==> Reaches(m, t, x)
    decreases |m.Keys - l|, 0, 0
  {
    assert Path(m, [t]);
    var l' := l + {t};
    if m[t].Hybrid? {
      var v := m[t].tags;
      ChildrenFresh(m, rank, l, t);
      UnvisitedShrinks(m.Keys, l, l', t);
      assert v[0..] == v;
      CompleteAll(m, rank, l', t, 0);
      assert Traversal(m, l, t) == TraversalAll(m, l', v);
      forall x | x in Traversal(m, l, t).1 && x !in l ensures Reaches(m, t, x) {
        if x != t {
          var i :| 0 <= i < |v| && Reaches(m, v[i], x);
          ReachesThroughChild(m, t, v[i], x);
        }
      }
    }
  }

  lemma {:induction false} CompleteAll(m: map<Label, Upstream>, rank: Label -> nat, l: set<Label>, t: Label, s: nat)
    requires Forest(m, rank) && t in m && s <= |Children(m[t])|
    requires forall i :: s <= i < |Children(m[t])| ==> Fresh(m, l, Children(m[t])[i])
    ensures TraversalAll(m, l, Children(m[t])[s..]).0.Ok?
    ensures forall x :: x in TraversalAll(m, l, Children(m[t])[s..]).1 && x !in l ==>
              exists i :: s <= i < |Children(m[t])| && Reaches(m, Children(m[t])[i], x)
    decreases |m.Keys - l|, 1, |Children(m[t])| - s
  {
    var v := Children(m[t]);
    if s < |v| {
      var ts := v[s..];
      assert ts[0] == v[s] && ts[1..] == v[s + 1..];
      Complete(m, rank, l, v[s]);
      var l1 := Traversal(m, l, v[s]).1;
      UnvisitedMonotone(m.Keys, l, l1);
      forall i, p | s + 1 <= i < |v| && Path(m, p) && p[0] == v[i]
        ensures p[|p| - 1] !in l1
      {
        if p[|p| - 1] in l1 {
          var w :| Path(m, w) && w[0] == v[s] && w[|w| - 1] == p[|p| - 1];
          ChildrenReachDisjoint(m, rank, t, s, i, w, p);
        }
      }
      CompleteAll(m, rank, l1, t, s + 1);
    }
  }

  /** A forest of hybrids passes `check`. */
  lemma ForestAccepted(m: map<Label, Upstream>, rank: Label -> nat)
    requires Forest(m, rank)
    ensures Accepted(m)
  {
    forall k | k in m ensures Traversal(m, {}, k).0.Ok? {
      Complete(m, rank, {}, k);
    }
  }
}
