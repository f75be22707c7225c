# droute upstream table — a Dafny model

droute (the routing library behind the dcompass DNS forwarder) keeps its
upstreams in a table `Upstreams` that maps a `Label` to an `Upstream`. Some
upstreams are *hybrid*: they list the labels of other upstreams, and a query
sent to a hybrid races those upstreams. The list references form a graph.
`Upstreams::new` builds the table from a list of labelled upstreams. It
rejects a label defined twice, then validates the graph with `check`.
`check` runs a depth-first walk (`traverse`) from every key. The walk
rejects a tag that is already visited, a tag that is not a key, and an empty
hybrid list.

The model covers that construction and validation:

- `upstreams.dfy`, module `RouterUpstreams`: the data model and the four
  operations. `Upstream` is reduced to what validation looks at:
  `Hybrid(tags)` for an upstream whose `try_hybrid()` returns a list, and
  `Leaf` for any other upstream. The pure functions `Traversal` and
  `TraversalAll` specify the walk. They return its outcome together with
  the visited set it leaves behind. The methods `Traverse`, `Check` and
  `New` follow the source's loops and recursion and are proved against those
  functions. `Table` specifies the map built by the insertion loop.
- `hybrid_graph.dfy`, module `HybridGraph`: what the walk guarantees about
  the reference graph. An accepted table has no dangling reference, no empty
  hybrid and no cycle. Every error points at a label reachable from the
  start. The visited set is shared by the siblings of a hybrid, so a hybrid
  two of whose children reach a common label is rejected. This covers a
  "diamond" a→[b,c], b→[d], c→[d] and a hybrid that lists one label twice,
  even though neither has a cycle.
- `forest_tables.dfy`, module `ForestTables`: the converse. A table shaped
  as a forest is accepted. In a forest every reference resolves, no hybrid
  is empty, labels can be ranked so that references go up in rank, and no
  label is listed twice.

The walk terminates because each step that goes deeper first marks a key
that was not visited before. The functions' `decreases` clauses use the
number of unvisited keys as the measure. For the loop over siblings, that
count is combined lexicographically with the number of siblings left.

## Model

| member | source | states |
|---|---|---|
| RouterUpstreams.New | droute/src/router/upstreams.rs:44-58 | the first label that repeats an earlier one is reported as `MultipleDef`; success iff labels are distinct and the table passes `check`; on success the table is the inserted pairs; a `check` failure is some key's walk error |
| RouterUpstreams.TableContents | droute/src/router/upstreams.rs:45-55 | with distinct labels, the table's keys are exactly the input labels and each maps to the upstream paired with it |
| RouterUpstreams.FirstRepeatExists | droute/src/router/upstreams.rs:46-52 | a label list with a duplicate has a first repeated position, so `new` never silently drops a repeated pair |
| RouterUpstreams.Traversal | droute/src/router/upstreams.rs:75-100 | the visited set only grows; a tag already visited fails with `HybridRecursion` and leaves the set unchanged; otherwise the tag is marked; success implies the tag was unvisited and is a key |
| RouterUpstreams.TraversalAll | droute/src/router/upstreams.rs:93-95 | the sibling walks share one visited set, which only grows; if all succeed, every sibling is marked visited |
| RouterUpstreams.Traverse | droute/src/router/upstreams.rs:75-100 | the recursive walk with its loop over the hybrid list returns exactly the outcome and visited set of `Traversal` |
| RouterUpstreams.Check | droute/src/router/upstreams.rs:103-108 | returns `Ok(true)` iff the walk from every key with a fresh visited set succeeds; never `Ok(false)`; an error is the error of some key's walk |
| RouterUpstreams.Exists | droute/src/router/upstreams.rs:111-117 | `Ok(true)` iff the tag is a key, `Err(MissingTag(tag))` otherwise |
| HybridGraph.PathsFrom | droute/src/router/upstreams.rs:75-100 | after a successful walk, every reference chain from the start has distinct labels, was unvisited before, is visited after, and ends at a defined, non-empty upstream |
| HybridGraph.PathsFromAll | droute/src/router/upstreams.rs:93-95 | the same for every chain from any sibling of a successful sibling walk |
| HybridGraph.AcceptedIsSound | droute/src/router/upstreams.rs:102-108 | a table `check` accepts has every hybrid reference resolving to a key, no empty hybrid and no recursive chain |
| HybridGraph.SharedDescendantInList | droute/src/router/upstreams.rs:93-95 | if two siblings reach a common label, the shared-set sibling walk fails |
| HybridGraph.SharedDescendantRejected | droute/src/router/upstreams.rs:76-79 | a hybrid two of whose children reach a common label fails its walk, even without a cycle |
| HybridGraph.DuplicateChildRejected | droute/src/router/upstreams.rs:93-95 | a hybrid listing the same label twice makes `check` fail |
| HybridGraph.ErrorPath | droute/src/router/upstreams.rs:81-90 | a failing walk's error label is reached from the start by a reference chain; `MissingTag` names a non-key, `EmptyHybrid` a key bound to an empty list, and the walk never reports `MultipleDef` |
| HybridGraph.ErrorPathAll | droute/src/router/upstreams.rs:93-95 | the same for a failing sibling walk, from the sibling that failed |
| HybridGraph.RejectionExplained | droute/src/router/upstreams.rs:103-108 | an error `check` can report is never `MultipleDef`, matches its kind, and names a label reachable from some key |
| HybridGraph.RankedIsAcyclic | droute/src/router/upstreams.rs:92-95 | a table whose references all go up in some rank has no recursive chain |
| HybridGraph.DiamondRejected | droute/src/router/upstreams.rs:76-79 | the diamond a→[b,c], b→[d], c→[d] has no cycle, yet its walk from a fails with `HybridRecursion(d)` and `check` rejects it |
| HybridGraph.TwiceListedRejected | droute/src/router/upstreams.rs:93-95 | a→[b,b] has no cycle, yet `check` rejects it |
| HybridGraph.TreeAccepted | droute/src/router/upstreams.rs:103-108 | a→[b,c] with leaves b and c passes `check` |
| ForestTables.ChildrenReachDisjoint | droute/src/router/upstreams.rs:93-95 | in a forest, two different children of one hybrid reach no common label |
| ForestTables.ChildrenFresh | droute/src/router/upstreams.rs:79-95 | in a forest, once a hybrid is marked, none of its children reaches a visited label |
| ForestTables.Complete | droute/src/router/upstreams.rs:75-100 | in a forest, the walk from a key that reaches no visited label succeeds, and marks only labels it reaches |
| ForestTables.CompleteAll | droute/src/router/upstreams.rs:93-95 | in a forest, the sibling walk over a hybrid's remaining children succeeds, and marks only labels they reach |
| ForestTables.ForestAccepted | droute/src/router/upstreams.rs:102-108 | every forest-shaped table passes `check` |

## Left out

- `Upstreams::with_parsed` (droute/src/router/upstreams.rs:62-70) is not modelled. It is async, and it only builds the pair list that `new` receives, using `Upstream::with_parsed`, which is not part of this model.
- `Upstreams::resolve` (droute/src/router/upstreams.rs:121-137) is not modelled. It races upstream queries over the network with async futures.
- `Upstream` internals are not modelled: client pools, the response cache and DNS messages. Only the result of `try_hybrid()` is kept.
- HashMap iteration order is not modelled. `Check` picks the next key by an arbitrary choice, so it only states that the error it reports comes from some key's walk, not which key's.
- Hashing and the representation of `Label` are not modelled. A label is a string compared by equality.
- The `&mut HashSet` of `traverse` is passed in and returned as a value. Each walk owns its own set, so there is no aliasing to model.
- `dcompass/src/main.rs` is not part of this model. It holds CLI parsing, config file reading, YAML deserialisation, the UDP socket, the worker tasks, the rate limiter and Ctrl-C shutdown.
- The repository's Nix build-matrix composition (variants and the registries built from them) is not part of this model. No source for it is available.
- HybridGraph.ErrorPath: for `HybridRecursion(t)` it states only that `t` is reachable from the start, not that the walk reached `t` twice.
- ForestTables.ForestAccepted: it gives a sufficient condition, not an exact one. A table in which two unrelated top-level hybrids list the same label is accepted, but it is not a forest in this sense.
