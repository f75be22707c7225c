/**
 * What the depth-first walk of the upstream table guarantees, stated over
 * the graph whose edges go from a hybrid upstream to the labels it lists.
 */
module HybridGraph {

  import opened RouterUpstreams

  /** A chain of references: every label but the last is a key of the table
      and lists the next one. */
  ghost predicate Path(m: map<Label, Upstream>, p: seq<Label>)
  {
    |p| >= 1 && forall i :: 0 <= i < |p| - 1 ==> p[i] in m && p[i + 1] in Children(m[p[i]])
  }

  /** `t` is defined, and is not an empty hybrid. */
  ghost predicate WellFormedAt(m: map<Label, Upstream>, t: Label)
  {
    t in m && (m[t].Hybrid? ==> m[t].tags != [])
  }

  /** Every hybrid reference names a key of the table. */
  ghost predicate Closed(m: map<Label, Upstream>)
  {
    forall k, t :: k in m && t in Children(m[k]) ==> t in m
  }

  ghost predicate NoEmptyHybrid(m: map<Label, Upstream>)
  {
    forall k :: k in m && m[k].Hybrid? ==> m[k].tags != []
  }

  /** No chain of references meets the same label twice. */
  ghost predicate Acyclic(m: map<Label, Upstream>)
  {
    forall p :: Path(m, p) ==> Distinct(p)
  }

  /** A path a successful walk has covered: its labels are distinct, were
      not visited before the walk and are visited after it, and it ends at
      a well-formed upstream. */
  ghost predicate Walked(m: map<Label, Upstream>, p: seq<Label>, before: set<Label>, after: set<Label>)
  {
    && |p| >= 1
    && Distinct(p)
    && (forall i :: 0 <= i < |p| ==> p[i] !in before && p[i] in after)
    && WellFormedAt(m, p[|p| - 1])
  }

  lemma {:induction false} PathsFrom(m: map<Label, Upstream>, l: set<Label>, tag: Label, p: seq<Label>)
    requires Traversal(m, l, tag).0.Ok?
    requires Path(m, p) && p[0] == tag
    ensures Walked(m, p, l, Traversal(m, l, tag).1)
    decreases |m.Keys - l|, 0, 0
  {
    var out := Traversal(m, l, tag).1;
    if |p| > 1 {
      assert p[1] in Children(m[tag]);
      var v := m[tag].tags;
      var i :| 0 <= i < |v| && v[i] == p[1];
      var l' := l + {tag};
      assert Traversal(m, l, tag) == TraversalAll(m, l', v);
      UnvisitedShrinks(m.Keys, l, l', tag);
      var rest := p[1..];
      assert Path(m, rest) by {
        forall k | 0 <= k < |rest| - 1 ensures rest[k] in m && rest[k + 1] in Children(m[rest[k]]) {
          assert rest[k] == p[k + 1] && rest[k + 1] == p[k + 2];
        }
      }
      PathsFromAll(m, l', v, i, rest);
      assert p == [tag] + rest;
    }
  }

  lemma {:induction false} PathsFromAll(m: map<Label, Upstream>, l: set<Label>, ts: seq<Label>, i: nat, p: seq<Label>)
    requires TraversalAll(m, l, ts).0.Ok?
    requires i < |ts| && Path(m, p) && p[0] == ts[i]
    ensures Walked(m, p, l, TraversalAll(m, l, ts).1)
    decreases |m.Keys - l|, 1, i
  {
    var first := Traversal(m, l, ts[0]);
    UnvisitedMonotone(m.Keys, l, first.1);
    if i == 0 {
      PathsFrom(m, l, ts[0], p);
    } else {
      PathsFromAll(m, first.1, ts[1..], i - 1, p);
    }
  }

  /** A table `check` accepts has no dangling reference, no empty hybrid
      and no recursive chain of hybrids. */
  lemma AcceptedIsSound(m: map<Label, Upstream>)
    requires Accepted(m)
    ensures Closed(m) && NoEmptyHybrid(m) && Acyclic(m)
  {
    forall p | Path(m, p) ensures Distinct(p) {
      if |p| > 1 {
        PathsFrom(m, {}, p[0], p);
      }
    }
    forall k, t | k in m && t in Children(m[k]) ensures t in m {
      PathsFrom(m, {}, k, [k, t]);
    }
    forall k | k in m && m[k].Hybrid? ensures m[k].tags != [] {
      PathsFrom(m, {}, k, [k]);
    }
  }

  lemma {:induction false} SharedDescendantInList(m: map<Label, Upstream>, l: set<Label>, ts: seq<Label>,
                                                  i: nat, j: nat, p: seq<Label>, q: seq<Label>)
    requires i < j < |ts|
    requires Path(m, p) && p[0] == ts[i]
    requires Path(m, q) && q[0] == ts[j]
    requires p[|p| - 1] == q[|q| - 1]
    ensures TraversalAll(m, l, ts).0.Err?
    decreases i
  {
    var first := Traversal(m, l, ts[0]);
    if first.0.Ok? {
      if i == 0 {
        if TraversalAll(m, first.1, ts[1..]).0.Ok? {
          PathsFrom(m, l, ts[0], p);
          PathsFromAll(m, first.1, ts[1..], j - 1, q);
        }
      } else {
        SharedDescendantInList(m, first.1, ts[1..], i - 1, j - 1, p, q);
      }
    }
  }

  /** The walk shares one visited set among the children of a hybrid, so a
      hybrid two of whose children reach a common label is rejected, even
      when the table has no cycle. */
  lemma SharedDescendantRejected(m: map<Label, Upstream>, l: set<Label>, tag: Label,
                                 i: nat, j: nat, p: seq<Label>, q: seq<Label>)
    requires tag in m && tag !in l && m[tag].Hybrid?
    requires i < j < |m[tag].tags|
    requires Path(m, p) && p[0] == m[tag].tags[i]
    requires Path(m, q) && q[0] == m[tag].tags[j]
    requires p[|p| - 1] == q[|q| - 1]
    ensures Traversal(m, l, tag).0.Err?
  {
    SharedDescendantInList(m, l + {tag}, m[tag].tags, i, j, p, q);
  }

  /** A hybrid that lists the same label twice makes `check` fail. */
  lemma DuplicateChildRejected(m: map<Label, Upstream>, tag: Label, i: nat, j: nat)
    requires tag in m && m[tag].Hybrid?
    requires i < j < |m[tag].tags| && m[tag].tags[i] == m[tag].tags[j]
    ensures !Accepted(m)
  {
    var v := m[tag].tags;
    SharedDescendantRejected(m, {}, tag, i, j, [v[i]], [v[j]]);
  }

  /** What a failure points at: the failing label is reached from the start
      by a chain of references; a missing tag is not a key; an empty hybrid
      is a key bound to an empty list. */
  ghost predicate Explains(m: map<Label, Upstream>, e: UpstreamError)
  {
    match e
    case MissingTag(t) => t !in m
    case EmptyHybrid(t) => t in m && m[t] == Hybrid([])
    case HybridRecursion(_) => true
    case MultipleDef(_) => false
  }

  lemma {:induction false} ErrorPath(m: map<Label, Upstream>, l: set<Label>, tag: Label) returns (p: seq<Label>)
    requires Traversal(m, l, tag).0.Err?
    ensures Path(m, p) && p[0] == tag
    ensures p[|p| - 1] == Traversal(m, l, tag).0.error.tag
    ensures Explains(m, Traversal(m, l, tag).0.error)
    decreases |m.Keys - l|, 0, 0
  {
    if tag in l || tag !in m || m[tag].tags == [] {
      p := [tag];
    } else {
      var v := m[tag].tags;
      var l' := l + {tag};
      assert Traversal(m, l, tag) == TraversalAll(m, l', v);
      UnvisitedShrinks(m.Keys, l, l', tag);
      var i, q := ErrorPathAll(m, l', v);
      p := [tag] + q;
      assert p[1..] == q;
    }
  }

  lemma {:induction false} ErrorPathAll(m: map<Label, Upstream>, l: set<Label>, ts: seq<Label>) returns (i: nat, p: seq<Label>)
    requires TraversalAll(m, l, ts).0.Err?
    ensures i < |ts| && Path(m, p) && p[0] == ts[i]
    ensures p[|p| - 1] == TraversalAll(m, l, ts).0.error.tag
    ensures Explains(m, TraversalAll(m, l, ts).0.error)
    decreases |m.Keys - l|, 1, |ts|
  {
    var first := Traversal(m, l, ts[0]);
    if first.0.Err? {
      i := 0;
      p := ErrorPath(m, l, ts[0]);
    } else {
      UnvisitedMonotone(m.Keys, l, first.1);
      var k;
      k, p := ErrorPathAll(m, first.1, ts[1..]);
      i := k + 1;
    }
  }

  /** `check` never fails with a duplicate definition, and whatever it
      reports is reachable from some key. */
  lemma RejectionExplained(m: map<Label, Upstream>, e: UpstreamError)
    requires Rejects(m, e)
    ensures Explains(m, e) && !e.MultipleDef?
    ensures exists p :: Path(m, p) && p[0] in m && p[|p| - 1] == e.tag
  {
    var k :| k in m && Traversal(m, {}, k).0 == Err(e);
    var p := ErrorPath(m, {}, k);
  }

  /** Labels can be ranked so that every reference points to a higher rank. */
  ghost predicate Ranked(m: map<Label, Upstream>, rank: Label -> nat)
  {
    forall k, t :: k in m && t in Children(m[k]) ==> rank(k) < rank(t)
  }

  lemma {:induction false} RankIncreasesAlongPath(m: map<Label, Upstream>, rank: Label -> nat, p: seq<Label>, i: nat, j: nat)
    requires Ranked(m, rank) && Path(m, p) && i < j < |p|
    ensures rank(p[i]) < rank(p[j])
    decreases j - i
  {
    assert p[i] in m && p[i + 1] in Children(m[p[i]]);
    if i + 1 < j {
      RankIncreasesAlongPath(m, rank, p, i + 1, j);
    }
  }

  /** A ranked table has no recursive chain of hybrids. */
  lemma RankedIsAcyclic(m: map<Label, Upstream>, rank: Label -> nat)
    requires Ranked(m, rank)
    ensures Acyclic(m)
  {
    forall p, i, j | Path(m, p) && 0 <= i < j < |p| ensures p[i] != p[j] {
      RankIncreasesAlongPath(m, rank, p, i, j);
    }
  }

  /** a lists b and c, which both list d. */
  function Diamond(): map<Label, Upstream>
  {
    map["a" := Hybrid(["b", "c"]), "b" := Hybrid(["d"]), "c" := Hybrid(["d"]), "d" := Leaf]
  }

  /** The diamond has no cycle, yet `check` rejects it: the walk from a
      reaches d a second time through c. */
  lemma DiamondRejected()
    ensures Acyclic(Diamond())
    ensures !Accepted(Diamond())
    ensures Traversal(Diamond(), {}, "a").0 == Err(HybridRecursion("d"))
  {
    var m := Diamond();
    assert "b" != "a" && "c" != "a" && "d" != "a" && "c" != "b" && "d" != "b" && "d" != "c";
    assert m["a"] == Hybrid(["b", "c"]) && m["b"] == Hybrid(["d"]) && m["c"] == Hybrid(["d"]) && m["d"] == Leaf;
    var d := Traversal(m, {"a", "b"}, "d");
    assert d.0 == Ok(()) && d.1 == {"a", "b", "d"};
    var bs := TraversalAll(m, {"a", "b"}, ["d"]);
    assert bs == d;
    assert {"a"} + {"b"} == {"a", "b"};
    var b := Traversal(m, {"a"}, "b");
    assert b == bs;
    var c := Traversal(m, {"a", "b", "d"}, "c");
    assert c.0 == Err(HybridRecursion("d"));
    var cs := TraversalAll(m, {"a", "b", "d"}, ["c"]);
    assert cs == c;
    assert ["b", "c"][1..] == ["c"];
    assert TraversalAll(m, {"a"}, ["b", "c"]) == cs;
    assert {} + {"a"} == {"a"};
    RankedIsAcyclic(m, t => if t == "a" then 0 else if t == "d" then 2 else 1);
  }

  /** a lists b twice. */
  function TwiceListed(): map<Label, Upstream>
  {
    map["a" := Hybrid(["b", "b"]), "b" := Leaf]
  }

  lemma TwiceListedRejected()
    ensures Acyclic(TwiceListed())
    ensures !Accepted(TwiceListed())
  {
    RankedIsAcyclic(TwiceListed(), t => if t == "a" then 0 else 1);
    DuplicateChildRejected(TwiceListed(), "a", 0, 1);
  }

  /** a lists b and c, both leaves. */
  function Tree(): map<Label, Upstream>
  {
    map["a" := Hybrid(["b", "c"]), "b" := Leaf, "c" := Leaf]
  }

  lemma TreeAccepted()
    ensures Accepted(Tree())
  {
    var m := Tree();
    assert "b" != "a" && "c" != "a" && "c" != "b";
    assert m["a"] == Hybrid(["b", "c"]) && m["b"] == Leaf && m["c"] == Leaf;
    assert {"a"} + {"b"} == {"a", "b"};
    var b := Traversal(m, {"a"}, "b");
    assert b.0.Ok? && b.1 == {"a", "b"};
    var c := Traversal(m, {"a", "b"}, "c");
    assert c.0.Ok?;
    var cs := TraversalAll(m, {"a", "b"}, ["c"]);
    assert cs == c;
    assert ["b", "c"][1..] == ["c"];
    assert TraversalAll(m, {"a"}, ["b", "c"]) == cs;
    assert {} + {"a"} == {"a"};
    assert Traversal(m, {}, "a").0.Ok?;
    assert Traversal(m, {}, "b").0.Ok?;
    assert Traversal(m, {}, "c").0.Ok?;
  }
}
