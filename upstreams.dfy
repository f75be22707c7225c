/**
 * The upstream table of droute's router: a map from labels to upstreams,
 * built from a list of labelled upstreams and validated so that every
 * hybrid upstream refers only to defined labels, is not empty, and never
 * reaches the same label twice in one depth-first walk.
 */
module RouterUpstreams {

  type Label = string

  /** An upstream, reduced to what validation looks at: a hybrid upstream
      lists the labels of other upstreams, any other upstream is a leaf. */
  datatype Upstream = Hybrid(tags: seq<Label>) | Leaf

  datatype UpstreamError =
    | MultipleDef(tag: Label)
    | HybridRecursion(tag: Label)
    | MissingTag(tag: Label)
    | EmptyHybrid(tag: Label)

  datatype Result<+T> = Ok(value: T) | Err(error: UpstreamError)

  /** The aggregated table the router is created from. */
  datatype Upstreams = Upstreams(upstreams: map<Label, Upstream>)

  /** The labels a hybrid upstream refers to; a leaf refers to none. */
  function Children(u: Upstream): seq<Label>
  {
    match u
    case Hybrid(v) => v
    case Leaf => []
  }

  // ---------------------------------------------------------------------
  // Building the table

  function Labels(pairs: seq<(Label, Upstream)>): (ls: seq<Label>)
    ensures |ls| == |pairs|
    ensures forall i :: 0 <= i < |pairs| ==> ls[i] == pairs[i].0
  {
    seq(|pairs|, i requires 0 <= i < |pairs| => pairs[i].0)
  }

  predicate Distinct(ls: seq<Label>)
  {
    forall i, j :: 0 <= i < j < |ls| ==> ls[i] != ls[j]
  }

  /** Position j holds the first label that repeats an earlier one. */
  predicate FirstRepeatAt(ls: seq<Label>, j: nat)
  {
    j < |ls| && Distinct(ls[..j]) && ls[j] in ls[..j]
  }

  /** The map obtained by inserting the pairs one after another. */
  function Table(pairs: seq<(Label, Upstream)>): map<Label, Upstream>
  {
    if pairs == [] then map[]
    else
      var last := pairs[|pairs| - 1];
      Table(pairs[..|pairs| - 1])[last.0 := last.1]
  }

  /** With distinct labels the table holds exactly the input labels, each
      bound to the upstream it was paired with. */
  lemma {:induction false} TableContents(pairs: seq<(Label, Upstream)>)
    requires Distinct(Labels(pairs))
    ensures forall k :: k in Table(pairs) <==> k in Labels(pairs)
    ensures forall i :: 0 <= i < |pairs| ==> Table(pairs)[pairs[i].0] == pairs[i].1
  {
    if pairs != [] {
      var n := |pairs| - 1;
      var init := pairs[..n];
      assert Labels(init) == Labels(pairs)[..n];
      TableContents(init);
      assert Labels(pairs) == Labels(init) + [pairs[n].0];
      forall i | 0 <= i < |pairs|
        ensures Table(pairs)[pairs[i].0] == pairs[i].1
      {
        if i < n {
          assert Labels(pairs)[i] != Labels(pairs)[n];
          assert init[i] == pairs[i];
        }
      }
    }
  }

  /** The first repeated label is unique. */
  lemma FirstRepeatUnique(ls: seq<Label>, j: nat, k: nat)
    requires FirstRepeatAt(ls, j) && FirstRepeatAt(ls, k)
    ensures j == k
  {
  }

  /** A label list that is not duplicate-free has a first repeat. */
  lemma {:induction false} FirstRepeatExists(ls: seq<Label>) returns (j: nat)
    requires !Distinct(ls)
    ensures FirstRepeatAt(ls, j)
  {
    var n := |ls| - 1;
    if !Distinct(ls[..n]) {
      j := FirstRepeatExists(ls[..n]);
      assert ls[..n][..j] == ls[..j];
    } else {
      var a, b :| 0 <= a < b < |ls| && ls[a] == ls[b];
      assert b == n;
      assert ls[..n][a] == ls[n];
      j := n;
    }
  }

  // ---------------------------------------------------------------------
  // The depth-first walk

  lemma SubsetCardinality(a: set<Label>, b: set<Label>)
    requires a <= b
    ensures |a| <= |b|
  {
    if a != {} {
      var x :| x in a;
      SubsetCardinality(a - {x}, b - {x});
    }
  }

  lemma UnvisitedMonotone(keys: set<Label>, l: set<Label>, l2: set<Label>)
    requires l <= l2
    ensures |keys - l2| <= |keys - l|
  {
    SubsetCardinality(keys - l2, keys - l);
  }

  /** Marking an unvisited key visited shrinks the keys left to visit. */
  lemma UnvisitedShrinks(keys: set<Label>, l: set<Label>, l2: set<Label>, tag: Label)
    requires tag in keys && tag !in l && l + {tag} <= l2
    ensures |keys - l2| < |keys - l|
  {
    SubsetCardinality(keys - l2, (keys - l) - {tag});
    assert |(keys - l) - {tag}| == |keys - l| - 1;
  }

  /**
   * The walk from `tag` with visited set `l`: its outcome and the visited
   * set it leaves behind (the set is updated in place by the walk, also
   * when it fails). It terminates because every step that goes deeper
   * first marks a key of the table that was not visited before.
   */
  function Traversal(m: map<Label, Upstream>, l: set<Label>, tag: Label): (res: (Result<()>, set<Label>))
    ensures l <= res.1
    ensures tag in l ==> res == (Err(HybridRecursion(tag)), l)
    ensures tag !in l ==> tag in res.1
    ensures res.0.Ok? ==> tag in m && tag !in l
    decreases |m.Keys - l|, 0, 0
  {
    if tag in l then (Err(HybridRecursion(tag)), l)
    else
      var l' := l + {tag};
      if tag !in m then (Err(MissingTag(tag)), l')
      else match m[tag]
        case Leaf => (Ok(()), l')
        case Hybrid(v) =>
          if v == [] then (Err(EmptyHybrid(tag)), l')
          else
            UnvisitedShrinks(m.Keys, l, l', tag);
            TraversalAll(m, l', v)
  }

  /** The walks from `ts` in order, all sharing one visited set, stopping at
      the first failure. */
  function TraversalAll(m: map<Label, Upstream>, l: set<Label>, ts: seq<Label>): (res: (Result<()>, set<Label>))
    ensures l <= res.1
    ensures res.0.Ok? ==> forall t :: t in ts ==> t in res.1
    decreases |m.Keys - l|, 1, |ts|
  {
    if ts == [] then (Ok(()), l)
    else
      var first := Traversal(m, l, ts[0]);
      if first.0.Err? then first
      else
        UnvisitedMonotone(m.Keys, l, first.1);
        TraversalAll(m, first.1, ts[1..])
  }

  /** Every key's walk, each from an empty visited set, succeeds. */
  predicate Accepted(m: map<Label, Upstream>)
  {
    forall k :: k in m ==> Traversal(m, {}, k).0.Ok?
  }

  /** Some key's walk from an empty visited set fails with `e`. */
  predicate Rejects(m: map<Label, Upstream>, e: UpstreamError)
  {
    exists k :: k in m && Traversal(m, {}, k).0 == Err(e)
  }

  // ---------------------------------------------------------------------
  // Operations

  method Traverse(u: Upstreams, l: set<Label>, tag: Label) returns (res: Result<()>, visited: set<Label>)
    ensures (res, visited) == Traversal(u.upstreams, l, tag)
    decreases |u.upstreams.Keys - l|
  {
    if tag in l {
      return Err(HybridRecursion(tag)), l;
    }
    visited := l + {tag};
    if tag !in u.upstreams {
      return Err(MissingTag(tag)), visited;
    }
    match u.upstreams[tag]
    case Leaf =>
      res := Ok(());
    case Hybrid(v) =>
      if v == [] {
        return Err(EmptyHybrid(tag)), visited;
      }
      ghost var start := visited;
      var i := 0;
      while i < |v|
        invariant 0 <= i <= |v|
        invariant start <= visited
        invariant TraversalAll(u.upstreams, start, v) == TraversalAll(u.upstreams, visited, v[i..])
      {
        assert v[i..][0] == v[i] && v[i..][1..] == v[i + 1..];
        UnvisitedShrinks(u.upstreams.Keys, l, visited, tag);
        var r, after := Traverse(u, visited, v[i]);
        visited := after;
        if r.Err? {
          return r, visited;
        }
        i := i + 1;
      }
      res := Ok(());
  }

  method Check(u: Upstreams) returns (r: Result<bool>)
    ensures r.Ok? <==> Accepted(u.upstreams)
    ensures r.Ok? ==> r.value
    ensures r.Err? ==> Rejects(u.upstreams, r.error)
  {
    var pending := u.upstreams.Keys;
    while pending != {}
      invariant pending <= u.upstreams.Keys
      invariant forall k :: k in u.upstreams && k !in pending ==> Traversal(u.upstreams, {}, k).0.Ok?
      decreases pending
    {
      var tag :| tag in pending;
      var res, _ := Traverse(u, {}, tag);
      if res.Err? {
        return Err(res.error);
      }
      pending := pending - {tag};
    }
    return Ok(true);
  }

  method New(pairs: seq<(Label, Upstream)>) returns (r: Result<Upstreams>)
    ensures forall j: nat :: FirstRepeatAt(Labels(pairs), j) ==> r == Err(MultipleDef(pairs[j].0))
    ensures r.Ok? <==> Distinct(Labels(pairs)) && Accepted(Table(pairs))
    ensures r.Ok? ==> r.value == Upstreams(Table(pairs))
    ensures r.Ok? ==> forall k :: k in r.value.upstreams <==> k in Labels(pairs)
    ensures r.Ok? ==> forall i :: 0 <= i < |pairs| ==> r.value.upstreams[pairs[i].0] == pairs[i].1
    ensures Distinct(Labels(pairs)) && r.Err? ==> Rejects(Table(pairs), r.error)
  {
    var table := map[];
    var i := 0;
    while i < |pairs|
      invariant 0 <= i <= |pairs|
      invariant Distinct(Labels(pairs)[..i])
      invariant table == Table(pairs[..i])
      invariant forall k :: k in table <==> k in Labels(pairs)[..i]
    {
      assert pairs[..i + 1][..i] == pairs[..i];
      if pairs[i].0 in table {
        assert FirstRepeatAt(Labels(pairs), i);
        forall j: nat | FirstRepeatAt(Labels(pairs), j) ensures j == i {
          FirstRepeatUnique(Labels(pairs), i, j);
        }
        return Err(MultipleDef(pairs[i].0));
      }
      table := table[pairs[i].0 := pairs[i].1];
      assert Labels(pairs)[..i + 1] == Labels(pairs)[..i] + [pairs[i].0];
      i := i + 1;
    }
    assert pairs[..i] == pairs;
    assert Labels(pairs)[..i] == Labels(pairs);
    TableContents(pairs);
    var u := Upstreams(table);
    var ok := Check(u);
    if ok.Err? {
      return Err(ok.error);
    }
    return Ok(u);
  }

  function Exists(u: Upstreams, tag: Label): (r: Result<bool>)
    ensures r.Ok? <==> tag in u.upstreams
    ensures r.Ok? ==> r.value
    ensures r.Err? ==> r.error == MissingTag(tag)
  {
    if tag in u.upstreams then Ok(true) else Err(MissingTag(tag))
  }
}
