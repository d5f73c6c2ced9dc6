/** The transition graph and its breadth-first searches (src/lint/graph.rs). */
module Graphs {
  import opened Wrappers
  import opened ProtocolConfig

  datatype Edge = Edge(from: string, to: string, command: string, index: nat)

  // ---------------------------------------------------------------------------
  // Runs of the transition graph, independent of any search
  // ---------------------------------------------------------------------------

  /** `path` is a walk of `edges` from `a` to `b`; the empty path stays put. */
  ghost predicate IsPath(edges: seq<Edge>, a: string, b: string, path: seq<Edge>)
    decreases |path|
  {
    if path == [] then a == b
    else path[0] in edges && path[0].from == a && IsPath(edges, path[0].to, b, path[1..])
  }

  /** `b` can be reached from `a` by one or more edges. */
  ghost predicate Reaches(edges: seq<Edge>, a: string, b: string) {
    exists path :: path != [] && IsPath(edges, a, b, path)
  }

  lemma {:induction false} PathsCompose(edges: seq<Edge>, a: string, b: string, c: string, p: seq<Edge>, q: seq<Edge>)
    requires IsPath(edges, a, b, p) && IsPath(edges, b, c, q)
    ensures IsPath(edges, a, c, p + q)
    decreases |p|
  {
    if p == [] {
      assert p + q == q;
    } else {
      PathsCompose(edges, p[0].to, b, c, p[1..], q);
      assert (p + q)[1..] == p[1..] + q;
    }
  }

  /** A path can be taken apart at its last edge. */
  lemma {:induction false} PathSplitsAtLast(edges: seq<Edge>, a: string, b: string, p: seq<Edge>)
    requires p != [] && IsPath(edges, a, b, p)
    ensures p[|p| - 1] in edges && p[|p| - 1].to == b
    ensures IsPath(edges, a, p[|p| - 1].from, p[..|p| - 1])
    decreases |p|
  {
    if |p| > 1 {
      PathSplitsAtLast(edges, p[0].to, b, p[1..]);
      assert p[1..][..|p| - 2] == p[..|p| - 1][1..];
    }
  }

  lemma SingleEdgePath(edges: seq<Edge>, e: Edge)
    requires e in edges
    ensures IsPath(edges, e.from, e.to, [e])
  {
    assert [e][1..] == [];
  }

  /** `b` is `a` or can be reached from it. */
  ghost predicate Leads(edges: seq<Edge>, a: string, b: string) {
    a == b || Reaches(edges, a, b)
  }

  lemma LeadsTransitive(edges: seq<Edge>, a: string, b: string, c: string)
    requires Leads(edges, a, b) && Leads(edges, b, c)
    ensures Leads(edges, a, c)
  {
    if a != b && b != c {
      var p: seq<Edge> :| p != [] && IsPath(edges, a, b, p);
      var q: seq<Edge> :| q != [] && IsPath(edges, b, c, q);
      PathsCompose(edges, a, b, c, p, q);
      assert p + q != [];
    }
  }

  lemma EdgeLeads(edges: seq<Edge>, e: Edge)
    requires e in edges
    ensures Leads(edges, e.from, e.to)
  {
    SingleEdgePath(edges, e);
    assert [e] != [];
  }

  // ---------------------------------------------------------------------------
  // Building the graph
  // ---------------------------------------------------------------------------

  function EdgeOf(t: Transition, index: nat): Edge {
    Edge(t.from, t.to, t.command, index)
  }

  /** The edges of the transitions `keep` accepts, in declaration order. */
  function KeptEdges(transitions: seq<Transition>, keep: Transition -> bool): seq<Edge> {
    if transitions == [] then []
    else
      var n := |transitions| - 1;
      KeptEdges(transitions[..n], keep) + if keep(transitions[n]) then [EdgeOf(transitions[n], n)] else []
  }

  const KEEP_ALL: Transition -> bool := (t: Transition) => true

  /** The whole transition graph, one edge per transition. */
  function Edges(config: Config): seq<Edge> {
    KeptEdges(config.transitions, KEEP_ALL)
  }

  lemma {:induction false} AllEdges(transitions: seq<Transition>)
    ensures var edges := KeptEdges(transitions, KEEP_ALL);
      |edges| == |transitions| && forall i :: 0 <= i < |edges| ==> edges[i] == EdgeOf(transitions[i], i)
  {
    if transitions != [] {
      AllEdges(transitions[..|transitions| - 1]);
    }
  }

  /** The adjacency list of `key`: positions of the edges whose `end` is `key`, ascending. */
  function Positions(edges: seq<Edge>, end: Edge -> string, key: string): seq<nat> {
    if edges == [] then []
    else
      var n := |edges| - 1;
      Positions(edges[..n], end, key) + if end(edges[n]) == key then [n] else []
  }

  lemma {:induction false} PositionsAreExact(edges: seq<Edge>, end: Edge -> string, key: string)
    ensures forall i: nat :: i in Positions(edges, end, key) <==> i < |edges| && end(edges[i]) == key
    ensures forall i, j :: 0 <= i < j < |Positions(edges, end, key)| ==>
      Positions(edges, end, key)[i] < Positions(edges, end, key)[j]
  {
    if edges != [] {
      var n := |edges| - 1;
      PositionsAreExact(edges[..n], end, key);
      var shorter := Positions(edges[..n], end, key);
      forall i: nat ensures i in Positions(edges, end, key) <==> i < |edges| && end(edges[i]) == key {
        assert i < n ==> edges[..n][i] == edges[i];
        assert i in Positions(edges, end, key) <==> i in shorter || (i == n && end(edges[n]) == key);
      }
      forall i | 0 <= i < |shorter| ensures shorter[i] < n {
        assert shorter[i] in shorter;
      }
    }
  }

  /** The edge has the ends and the command of its transition. */
  predicate IsEdgeOf(e: Edge, transitions: seq<Transition>) {
    && e.index < |transitions| && e.from == transitions[e.index].from && e.to == transitions[e.index].to
    && e.command == transitions[e.index].command
  }

  lemma {:induction false} KeptEdgesAreExact(transitions: seq<Transition>, keep: Transition -> bool)
    ensures forall e :: e in KeptEdges(transitions, keep) <==> IsEdgeOf(e, transitions) && keep(transitions[e.index])
  {
    if transitions != [] {
      var n := |transitions| - 1;
      KeptEdgesAreExact(transitions[..n], keep);
      forall e ensures e in KeptEdges(transitions, keep) <==> IsEdgeOf(e, transitions) && keep(transitions[e.index]) {
        assert e.index < n ==> transitions[..n][e.index] == transitions[e.index];
      }
    }
  }

  const FROM_STATE: Edge -> string := (e: Edge) => e.from
  const TO_STATE: Edge -> string := (e: Edge) => e.to

  function Ids(adjacency: map<string, seq<nat>>, key: string): seq<nat> {
    if key in adjacency then adjacency[key] else []
  }

  ghost predicate IsAdjacency(adjacency: map<string, seq<nat>>, edges: seq<Edge>, end: Edge -> string) {
    forall s :: Ids(adjacency, s) == Positions(edges, end, s)
  }

  /** `adjacency.entry(key).or_default().push(i)`. */
  function PushId(adjacency: map<string, seq<nat>>, key: string, i: nat): map<string, seq<nat>> {
    adjacency[key := Ids(adjacency, key) + [i]]
  }

  lemma AdjacencyPush(adjacency: map<string, seq<nat>>, edges: seq<Edge>, end: Edge -> string, i: nat)
    requires i < |edges| && IsAdjacency(adjacency, edges[..i], end)
    ensures IsAdjacency(PushId(adjacency, end(edges[i]), i), edges[..i + 1], end)
  {
    var key := end(edges[i]);
    var pushed := PushId(adjacency, key, i);
    assert edges[..i + 1][..i] == edges[..i];
    forall s ensures Ids(pushed, s) == Positions(edges[..i + 1], end, s) {
      assert Ids(adjacency, s) == Positions(edges[..i], end, s);
    }
  }

  class Graph {
    const edges: seq<Edge>
    const out: map<string, seq<nat>>
    const inc: map<string, seq<nat>>

    ghost predicate Valid() {
      IsAdjacency(out, edges, FROM_STATE) && IsAdjacency(inc, edges, TO_STATE)
    }

    constructor BuildFiltered(config: Config, keep: Transition -> bool)
      ensures Valid()
      ensures edges == KeptEdges(config.transitions, keep)
    {
      var edges := SelectEdges(config, keep);
      var out, inc := Adjacency(edges);
      this.edges, this.out, this.inc := edges, out, inc;
    }

    static method Adjacency(edges: seq<Edge>) returns (out: map<string, seq<nat>>, inc: map<string, seq<nat>>)
      ensures IsAdjacency(out, edges, FROM_STATE) && IsAdjacency(inc, edges, TO_STATE)
    {
      out, inc := map[], map[];
      for i := 0 to |edges|
        invariant IsAdjacency(out, edges[..i], FROM_STATE)
        invariant IsAdjacency(inc, edges[..i], TO_STATE)
      {
        AdjacencyPush(out, edges, FROM_STATE, i);
        AdjacencyPush(inc, edges, TO_STATE, i);
        out := PushId(out, edges[i].from, i);
        inc := PushId(inc, edges[i].to, i);
      }
      assert edges[..|edges|] == edges;
    }

    static method SelectEdges(config: Config, keep: Transition -> bool) returns (edges: seq<Edge>)
      ensures edges == KeptEdges(config.transitions, keep)
    {
      edges := [];
      for index := 0 to |config.transitions|
        invariant edges == KeptEdges(config.transitions[..index], keep)
      {
        var t := config.transitions[index];
        assert config.transitions[..index + 1][..index] == config.transitions[..index];
        if keep(t) {
          edges := edges + [EdgeOf(t, index)];
        }
      }
      assert config.transitions[..|config.transitions|] == config.transitions;
    }

    // -------------------------------------------------------------------------
    // Closures
    // -------------------------------------------------------------------------

    /** The states reachable from `start` by one or more edges: `start` itself
        only when a cycle returns to it. */
    method ReachableFrom(start: string) returns (seen: set<string>)
      requires Valid()
      ensures forall s :: s in seen <==> Reaches(edges, start, s)
    {
      seen := Closure(start, out, FROM_STATE, TO_STATE);
      ForwardClosureIsReachability(edges, start, seen);
    }

    /** The states that can precede `target` in a run. */
    method AncestorsOf(target: string) returns (seen: set<string>)
      requires Valid()
      ensures forall s :: s in seen <==> Reaches(edges, s, target)
    {
      seen := Closure(target, inc, TO_STATE, FROM_STATE);
      BackwardClosureIsReachability(edges, target, seen);
    }

    /** Breadth-first closure in either direction: `near` is the end an edge is
        entered by and `far` the end it leads to. The queue is seeded with the
        neighbours of `start`, not with `start`. */
    method Closure(start: string, adjacency: map<string, seq<nat>>, near: Edge -> string, far: Edge -> string)
      returns (seen: set<string>)
      requires IsAdjacency(adjacency, edges, near)
      ensures IsLeastClosure(edges, near, far, start, seen)
    {
      var queue: seq<string>;
      ghost var universe := set i | 0 <= i < |edges| :: far(edges[i]);
      seen, queue := Scan(start, adjacency, near, far, {}, [], universe);
      ghost var done: set<string> := {};
      SeedsAreReachable(edges, near, far, start, seen);
      while queue != []
        invariant seen <= universe
        invariant forall s :: s in seen <==> s in done || s in queue
        invariant AllReachable(edges, near, far, start, seen)
        invariant ClosedAt(edges, near, far, start, seen)
        invariant AllClosed(edges, near, far, done, seen)
        decreases universe - seen, |queue|
      {
        var state := queue[0];
        ghost var before := seen;
        assert forall s :: s in queue <==> s == state || s in queue[1..];
        seen, queue := Scan(state, adjacency, near, far, seen, queue[1..], universe);
        StepReachableGrows(edges, near, far, start, state, before, seen);
        ClosedSetGrows(edges, near, far, start, done, state, before, seen);
        done := done + {state};
      }
    }

    /** Enqueue every unseen neighbour of `state`. */
    method Scan(state: string, adjacency: map<string, seq<nat>>, near: Edge -> string, far: Edge -> string,
                seen0: set<string>, queue0: seq<string>, ghost universe: set<string>)
      returns (seen: set<string>, queue: seq<string>)
      requires IsAdjacency(adjacency, edges, near)
      requires seen0 <= universe == set i | 0 <= i < |edges| :: far(edges[i])
      ensures seen0 <= seen <= universe && ClosedAt(edges, near, far, state, seen)
      ensures StepsFrom(edges, near, far, state, seen0, seen)
      ensures forall s :: s in queue <==> s in queue0 || (s in seen && s !in seen0)
      ensures seen == seen0 ==> queue == queue0
      ensures seen != seen0 ==> universe - seen < universe - seen0
    {
      seen, queue := seen0, queue0;
      var ids := Ids(adjacency, state);
      PositionsAreExact(edges, near, state);
      for k := 0 to |ids|
        invariant seen0 <= seen <= universe
        invariant StepsFrom(edges, near, far, state, seen0, seen)
        invariant forall s :: s in queue <==> s in queue0 || (s in seen && s !in seen0)
        invariant seen == seen0 ==> queue == queue0
        invariant forall j :: 0 <= j < k ==> ids[j] < |edges| && far(edges[ids[j]]) in seen
      {
        assert ids[k] in ids;
        var next := far(edges[ids[k]]);
        if next !in seen {
          seen, queue := seen + {next}, queue + [next];
        }
      }
      forall i | 0 <= i < |edges| && near(edges[i]) == state ensures far(edges[i]) in seen {
        assert i in ids;
      }
      SearchShrinks(universe, seen0, seen);
    }

    // -------------------------------------------------------------------------
    // Shortest path
    // -------------------------------------------------------------------------

    /** A shortest path of one or more edges, if there is any path at all; a
        path from a state to itself is a cycle. */
    method PathBetween(from: string, to: string) returns (path: Option<seq<Edge>>)
      requires Valid()
      ensures path.None? <==> !Reaches(edges, from, to)
      ensures path.Some? ==> path.value != [] && IsPath(edges, from, to, path.value)
      ensures path.Some? ==> forall q :: q != [] && IsPath(edges, from, to, q) ==> |path.value| <= |q|
    {
      var prev: map<string, nat> := map[];
      var seen := {from};
      var queue := [from];
      ghost var dist: map<string, nat> := map[from := 0];
      ghost var done: set<string> := {};
      ghost var universe := {from} + set i | 0 <= i < |edges| :: edges[i].to;
      while queue != []
        invariant dist.Keys == seen <= universe
        invariant Searching(edges, from, to, dist, prev, done, queue)
        decreases universe - seen, |queue|
      {
        var state := queue[0];
        assert queue == [state] + queue[1..];
        var found: Option<nat>;
        found, prev, seen, queue, dist := Expand(from, to, state, prev, seen, queue[1..], dist, done, universe);
        if found.Some? {
          var chain := WalkBack(from, to, state, found.value, prev, dist);
          FirstFoundIsShortest(edges, from, to, dist, prev, done, state, queue);
          return Some(Reverse(chain));
        }
        done := done + {state};
      }
      NothingFound(edges, from, to, dist, prev, done);
      path := None;
    }

    /** Look along every edge out of `state`: stop at one that ends in `to`,
        and queue the states not seen before. */
    method Expand(from: string, to: string, state: string, prev0: map<string, nat>, seen0: set<string>,
                  queue0: seq<string>, ghost dist0: map<string, nat>, ghost done: set<string>, ghost universe: set<string>)
      returns (found: Option<nat>, prev: map<string, nat>, seen: set<string>, queue: seq<string>, ghost dist: map<string, nat>)
      requires Valid()
      requires dist0.Keys == seen0 <= universe && forall i :: 0 <= i < |edges| ==> edges[i].to in universe
      requires Searching(edges, from, to, dist0, prev0, done, [state] + queue0)
      ensures dist.Keys == seen && seen0 <= seen <= universe
      ensures found.Some? ==> found.value < |edges| && edges[found.value].from == state && edges[found.value].to == to
      ensures found.Some? ==> Searching(edges, from, to, dist, prev, done, [state] + queue)
      ensures found.None? ==> Searching(edges, from, to, dist, prev, done + {state}, queue)
      ensures found.None? && seen == seen0 ==> queue == queue0
      ensures seen != seen0 ==> universe - seen < universe - seen0
    {
      prev, seen, queue, dist := prev0, seen0, queue0, dist0;
      var ids := Ids(out, state);
      PositionsAreExact(edges, FROM_STATE, state);
      found := None;
      for k := 0 to |ids|
        invariant dist.Keys == seen && seen0 <= seen <= universe
        invariant seen == seen0 ==> queue == queue0
        invariant Searching(edges, from, to, dist, prev, done, [state] + queue)
        invariant SomeSettled(edges, ids[..k], to, dist, state)
        invariant found.None?
      {
        assert ids[k] in ids;
        var i := ids[k];
        var next := edges[i].to;
        if next == to {
          found := Some(i);
          break;
        }
        if next !in seen {
          NewNext(edges, from, to, dist, prev, done, state, queue, ids, k);
          seen, prev, queue := seen + {next}, prev[next := i], queue + [next];
          dist := dist[next := dist[state] + 1];
        } else {
          KnownNext(edges, to, dist, done, state, queue, ids, k);
        }
      }
      SearchShrinks(universe, seen0, seen);
      if found.None? {
        assert ids[..|ids|] == ids;
        SearchingPop(edges, from, to, dist, prev, done, state, queue, ids);
      }
    }

    /** Follow the predecessors of `state` back to `from`. */
    method WalkBack(from: string, to: string, state: string, last: nat, prev: map<string, nat>,
        ghost dist: map<string, nat>)
      returns (chain: seq<Edge>)
      requires Tree(edges, from, dist, prev) && state in dist
      requires last < |edges| && edges[last].from == state && edges[last].to == to
      ensures IsPath(edges, from, to, Reverse(chain)) && |Reverse(chain)| == dist[state] + 1
    {
      chain := [edges[last]];
      var cursor := state;
      SingleEdgePath(edges, edges[last]);
      assert Reverse(chain) == [edges[last]];
      while cursor != from
        invariant cursor in dist
        invariant IsPath(edges, cursor, to, Reverse(chain))
        invariant |Reverse(chain)| + dist[cursor] == dist[state] + 1
        decreases dist[cursor]
      {
        var e := edges[prev[cursor]];
        assert (chain + [e])[..|chain|] == chain;
        assert Reverse(chain + [e])[1..] == Reverse(chain);
        chain := chain + [e];
        cursor := e.from;
      }
    }
  }

  function Reverse<T>(s: seq<T>): seq<T> {
    if s == [] then [] else [s[|s| - 1]] + Reverse(s[..|s| - 1])
  }

  // ---------------------------------------------------------------------------
  // The breadth-first layers
  // ---------------------------------------------------------------------------

  /** The queue holds the unexpanded states, nearest first, spread over at most
      two neighbouring layers; expanded states are no further than its head. */
  ghost predicate Queued(dist: map<string, nat>, done: set<string>, queue: seq<string>) {
    && (forall s :: s in dist <==> s in done || s in queue)
    && (forall i, j :: 0 <= i <= j < |queue| ==> queue[i] in dist && queue[j] in dist && dist[queue[i]] <= dist[queue[j]])
    && (queue != [] ==> dist[queue[|queue| - 1]] <= dist[queue[0]] + 1)
    && (queue != [] ==> forall s :: s in done ==> s in dist && dist[s] <= dist[queue[0]])
  }

  /** Every seen state but the first records the edge it was first seen by. */
  ghost predicate Tree(edges: seq<Edge>, from: string, dist: map<string, nat>, prev: map<string, nat>) {
    && from in dist && dist[from] == 0
    && (forall s :: s in dist && s != from ==>
      && s in prev && prev[s] < |edges|
      && edges[prev[s]].to == s
      && edges[prev[s]].from in dist && dist[edges[prev[s]].from] + 1 == dist[s])
  }

  /** An edge that does not finish the search and leads at most one layer on. */
  ghost predicate Settled(e: Edge, to: string, dist: map<string, nat>, d: nat) {
    e.to != to && e.to in dist && dist[e.to] <= d + 1
  }

  ghost predicate Explored(edges: seq<Edge>, to: string, dist: map<string, nat>, done: set<string>) {
    && done <= dist.Keys
    && (forall i :: 0 <= i < |edges| && edges[i].from in done ==> Settled(edges[i], to, dist, dist[edges[i].from]))
  }

  ghost predicate Searching(edges: seq<Edge>, from: string, to: string, dist: map<string, nat>, prev: map<string, nat>,
      done: set<string>, queue: seq<string>) {
    Queued(dist, done, queue) && Tree(edges, from, dist, prev) && Explored(edges, to, dist, done)
  }

  /** The edges at `ids`, all out of `state`, are settled. */
  ghost predicate SomeSettled(edges: seq<Edge>, ids: seq<nat>, to: string, dist: map<string, nat>, state: string) {
    && state in dist
    && forall k :: 0 <= k < |ids| ==> ids[k] < |edges| && Settled(edges[ids[k]], to, dist, dist[state])
  }

  lemma SearchingPush(edges: seq<Edge>, from: string, to: string, dist: map<string, nat>, prev: map<string, nat>,
      done: set<string>, state: string, queue: seq<string>, i: nat)
    requires Searching(edges, from, to, dist, prev, done, [state] + queue)
    requires i < |edges| && edges[i].from == state && edges[i].to !in dist && state in dist
    ensures Searching(edges, from, to, dist[edges[i].to := dist[state] + 1], prev[edges[i].to := i], done,
                      [state] + (queue + [edges[i].to]))
  {
    var next := edges[i].to;
    var further, prev' := dist[next := dist[state] + 1], prev[next := i];
    assert Queued(further, done, [state] + (queue + [next])) by {
      QueuedPushBehind(dist, done, state, queue, next);
    }
    assert Tree(edges, from, further, prev') by {
      TreePush(edges, from, dist, prev, i);
    }
    assert Explored(edges, to, further, done);
  }

  lemma QueuedPushBehind(dist: map<string, nat>, done: set<string>, state: string, queue: seq<string>, next: string)
    requires Queued(dist, done, [state] + queue) && state in dist && next !in dist
    ensures Queued(dist[next := dist[state] + 1], done, [state] + (queue + [next]))
  {
    QueuedPush(dist, done, [state] + queue, next);
    assert [state] + queue + [next] == [state] + (queue + [next]);
  }

  /** An edge to an unseen state: the state is queued one layer on. */
  lemma NewNext(edges: seq<Edge>, from: string, to: string, dist: map<string, nat>, prev: map<string, nat>,
      done: set<string>,
                state: string, queue: seq<string>, ids: seq<nat>, k: nat)
    requires Searching(edges, from, to, dist, prev, done, [state] + queue)
    requires k < |ids| && SomeSettled(edges, ids[..k], to, dist, state)
    requires ids[k] < |edges| && edges[ids[k]].from == state && edges[ids[k]].to !in dist && edges[ids[k]].to != to
    ensures var next := edges[ids[k]].to; var further := dist[next := dist[state] + 1];
      && Searching(edges, from, to, further, prev[next := ids[k]], done, [state] + (queue + [next]))
      && SomeSettled(edges, ids[..k + 1], to, further, state)
  {
    SearchingPush(edges, from, to, dist, prev, done, state, queue, ids[k]);
    assert ids[..k + 1] == ids[..k] + [ids[k]];
  }

  /** An edge to a state already seen leads at most one layer on. */
  lemma KnownNext(edges: seq<Edge>, to: string, dist: map<string, nat>, done: set<string>, state: string,
      queue: seq<string>, ids: seq<nat>, k: nat)
    requires Queued(dist, done, [state] + queue)
    requires k < |ids| && SomeSettled(edges, ids[..k], to, dist, state)
    requires ids[k] < |edges| && edges[ids[k]].to in dist && edges[ids[k]].to != to
    ensures SomeSettled(edges, ids[..k + 1], to, dist, state)
  {
    assert ids[..k + 1] == ids[..k] + [ids[k]];
  }

  lemma SearchingPop(edges: seq<Edge>, from: string, to: string, dist: map<string, nat>, prev: map<string, nat>,
      done: set<string>, state: string, queue: seq<string>, ids: seq<nat>)
    requires Searching(edges, from, to, dist, prev, done, [state] + queue)
    requires SomeSettled(edges, ids, to, dist, state)
    requires forall i: nat :: i in ids <==> i < |edges| && FROM_STATE(edges[i]) == state
    ensures Searching(edges, from, to, dist, prev, done + {state}, queue)
  {
    assert ([state] + queue)[1..] == queue;
    QueuedPop(dist, done, [state] + queue);
    forall i | 0 <= i < |edges| && edges[i].from in done + {state}
      ensures Settled(edges[i], to, dist, dist[edges[i].from])
    {
      if edges[i].from == state {
        assert i in ids;
      }
    }
  }

  lemma QueuedPush(dist: map<string, nat>, done: set<string>, queue: seq<string>, next: string)
    requires queue != [] && Queued(dist, done, queue) && next !in dist
    ensures Queued(dist[next := dist[queue[0]] + 1], done, queue + [next])
  {
    var dist', queue' := dist[next := dist[queue[0]] + 1], queue + [next];
    forall i, j | 0 <= i <= j < |queue'|
      ensures queue'[i] in dist' && queue'[j] in dist' && dist'[queue'[i]] <= dist'[queue'[j]]
    {
      assert i < |queue| ==> queue'[i] == queue[i] && queue[i] in dist;
      assert j < |queue| ==> queue'[j] == queue[j] && queue[j] in dist;
    }
    forall s ensures s in dist' <==> s in done || s in queue' {
      assert s in queue' <==> s in queue || s == next;
    }
  }

  lemma QueuedPop(dist: map<string, nat>, done: set<string>, queue: seq<string>)
    requires queue != [] && Queued(dist, done, queue)
    ensures Queued(dist, done + {queue[0]}, queue[1..])
  {
    var rest := queue[1..];
    assert forall s :: s in queue <==> s == queue[0] || s in rest;
    forall i, j | 0 <= i <= j < |rest|
      ensures rest[i] in dist && rest[j] in dist && dist[rest[i]] <= dist[rest[j]]
    {
      assert rest[i] == queue[i + 1] && rest[j] == queue[j + 1];
    }
  }

  lemma TreePush(edges: seq<Edge>, from: string, dist: map<string, nat>, prev: map<string, nat>, i: nat)
    requires Tree(edges, from, dist, prev) && i < |edges| && edges[i].from in dist && edges[i].to !in dist
    ensures Tree(edges, from, dist[edges[i].to := dist[edges[i].from] + 1], prev[edges[i].to := i])
  {
  }

  /** A path no longer than `d` ends in a state already seen at no greater distance. */
  lemma {:induction false} LayersAreComplete(edges: seq<Edge>, from: string, to: string, dist: map<string, nat>,
      done: set<string>, d: nat, u: string, path: seq<Edge>)
    requires from in dist && dist[from] == 0 && Explored(edges, to, dist, done)
    requires forall s :: s in dist ==> s in done || dist[s] >= d
    requires IsPath(edges, from, u, path) && |path| <= d
    ensures u in dist && dist[u] <= |path|
    decreases |path|
  {
    if path != [] {
      PathSplitsAtLast(edges, from, u, path);
      var e := path[|path| - 1];
      LayersAreComplete(edges, from, to, dist, done, d, e.from, path[..|path| - 1]);
      var i :| 0 <= i < |edges| && edges[i] == e;
      assert Settled(edges[i], to, dist, dist[e.from]);
    }
  }

  lemma NoShorterPath(edges: seq<Edge>, from: string, to: string, dist: map<string, nat>, done: set<string>, d: nat)
    requires from in dist && dist[from] == 0 && Explored(edges, to, dist, done)
    requires forall s :: s in dist ==> s in done || dist[s] >= d
    ensures forall q :: q != [] && IsPath(edges, from, to, q) ==> |q| > d
  {
    forall q: seq<Edge> | q != [] && IsPath(edges, from, to, q) ensures |q| > d {
      if |q| <= d {
        PathSplitsAtLast(edges, from, to, q);
        var e := q[|q| - 1];
        LayersAreComplete(edges, from, to, dist, done, d, e.from, q[..|q| - 1]);
      }
    }
  }

  /** While the state at the head of the queue is expanded, no path to the target
      is as short as that state's distance. */
  lemma FirstFoundIsShortest(edges: seq<Edge>, from: string, to: string, dist: map<string, nat>, prev: map<string, nat>,
      done: set<string>, state: string, queue: seq<string>)
    requires Searching(edges, from, to, dist, prev, done, [state] + queue)
    ensures state in dist
    ensures forall q :: q != [] && IsPath(edges, from, to, q) ==> |q| > dist[state]
  {
    var all := [state] + queue;
    assert all[0] == state;
    forall s | s in dist ensures s in done || dist[s] >= dist[state] {
      if s !in done {
        var j :| 0 <= j < |all| && all[j] == s;
        assert dist[all[0]] <= dist[all[j]];
      }
    }
    NoShorterPath(edges, from, to, dist, done, dist[state]);
  }

  /** With an empty queue, there is no path to the target. */
  lemma NothingFound(edges: seq<Edge>, from: string, to: string, dist: map<string, nat>, prev: map<string, nat>,
      done: set<string>)
    requires Searching(edges, from, to, dist, prev, done, [])
    ensures !Reaches(edges, from, to)
  {
    if q :| q != [] && IsPath(edges, from, to, q) {
      NoShorterPath(edges, from, to, dist, done, |q|);
      assert false;
    }
  }

  // ---------------------------------------------------------------------------
  // What a closure is
  // ---------------------------------------------------------------------------

  /** A walk in the direction `near` to `far`, one or more edges long. */
  ghost predicate IsWalk(edges: seq<Edge>, near: Edge -> string, far: Edge -> string, a: string, b: string,
      walk: seq<Edge>)
    decreases |walk|
  {
    && walk != []
    && walk[0] in edges && near(walk[0]) == a
    && (if |walk| == 1 then far(walk[0]) == b else IsWalk(edges, near, far, far(walk[0]), b, walk[1..]))
  }

  ghost predicate StepReachable(edges: seq<Edge>, near: Edge -> string, far: Edge -> string, a: string, b: string) {
    exists walk :: IsWalk(edges, near, far, a, b, walk)
  }

  ghost predicate ClosedAt(edges: seq<Edge>, near: Edge -> string, far: Edge -> string, s: string, seen: set<string>) {
    forall i :: 0 <= i < |edges| && near(edges[i]) == s ==> far(edges[i]) in seen
  }

  ghost predicate AllClosed(edges: seq<Edge>, near: Edge -> string, far: Edge -> string, done: set<string>,
      seen: set<string>) {
    forall s :: s in done ==> ClosedAt(edges, near, far, s, seen)
  }

  ghost predicate AllReachable(edges: seq<Edge>, near: Edge -> string, far: Edge -> string, start: string,
      seen: set<string>) {
    forall s :: s in seen ==> StepReachable(edges, near, far, start, s)
  }

  /** Whatever `after` adds to `before` is one edge away from `state`. */
  ghost predicate StepsFrom(edges: seq<Edge>, near: Edge -> string, far: Edge -> string, state: string,
      before: set<string>, after: set<string>) {
    forall s :: s in after && s !in before ==>
      exists i :: 0 <= i < |edges| && near(edges[i]) == state && far(edges[i]) == s
  }

  lemma SearchShrinks(universe: set<string>, before: set<string>, after: set<string>)
    requires before <= after <= universe
    ensures after != before ==> universe - after < universe - before
  {
    if after != before {
      var s :| (s in after && s !in before) || (s in before && s !in after);
      assert s in universe - before && s !in universe - after;
    }
  }

  lemma ClosedSetGrows(edges: seq<Edge>, near: Edge -> string, far: Edge -> string, start: string, done: set<string>,
      state: string, before: set<string>, after: set<string>)
    requires before <= after
    requires AllClosed(edges, near, far, done, before) && ClosedAt(edges, near, far, state, after)
    requires ClosedAt(edges, near, far, start, before)
    ensures AllClosed(edges, near, far, done + {state}, after)
    ensures ClosedAt(edges, near, far, start, after)
  {
    forall s | s in done ensures ClosedAt(edges, near, far, s, after) {
      assert ClosedAt(edges, near, far, s, before);
    }
  }

  /** `seen` is exactly what one or more steps from `start` can reach. */
  ghost predicate IsLeastClosure(edges: seq<Edge>, near: Edge -> string, far: Edge -> string, start: string,
      seen: set<string>) {
    && AllReachable(edges, near, far, start, seen)
    && ClosedAt(edges, near, far, start, seen)
    && AllClosed(edges, near, far, seen, seen)
  }

  lemma StepReachableByEdge(edges: seq<Edge>, near: Edge -> string, far: Edge -> string, a: string, e: Edge)
    requires e in edges && near(e) == a
    ensures StepReachable(edges, near, far, a, far(e))
  {
    assert IsWalk(edges, near, far, a, far(e), [e]);
  }

  lemma SeedsAreReachable(edges: seq<Edge>, near: Edge -> string, far: Edge -> string, start: string, seen: set<string>)
    requires StepsFrom(edges, near, far, start, {}, seen)
    ensures AllReachable(edges, near, far, start, seen)
  {
    forall s | s in seen ensures StepReachable(edges, near, far, start, s) {
      var i :| 0 <= i < |edges| && near(edges[i]) == start && far(edges[i]) == s;
      StepReachableByEdge(edges, near, far, start, edges[i]);
    }
  }

  lemma StepReachableGrows(edges: seq<Edge>, near: Edge -> string, far: Edge -> string, start: string, state: string,
      before: set<string>, after: set<string>)
    requires state in before && AllReachable(edges, near, far, start, before)
    requires StepsFrom(edges, near, far, state, before, after)
    ensures AllReachable(edges, near, far, start, after)
  {
    forall s | s in after && s !in before ensures StepReachable(edges, near, far, start, s) {
      var i :| 0 <= i < |edges| && near(edges[i]) == state && far(edges[i]) == s;
      StepReachableByEdge(edges, near, far, state, edges[i]);
      StepReachableTransitive(edges, near, far, start, state, s);
    }
  }

  lemma {:induction false} WalksCompose(edges: seq<Edge>, near: Edge -> string, far: Edge -> string, a: string,
      b: string, c: string, v: seq<Edge>, w: seq<Edge>)
    requires IsWalk(edges, near, far, a, b, v) && IsWalk(edges, near, far, b, c, w)
    ensures IsWalk(edges, near, far, a, c, v + w)
    decreases |v|
  {
    if |v| > 1 {
      WalksCompose(edges, near, far, far(v[0]), b, c, v[1..], w);
      assert (v + w)[1..] == v[1..] + w;
    } else {
      assert (v + w)[1..] == w;
    }
  }

  lemma StepReachableTransitive(edges: seq<Edge>, near: Edge -> string, far: Edge -> string, a: string, b: string,
      c: string)
    requires StepReachable(edges, near, far, a, b) && StepReachable(edges, near, far, b, c)
    ensures StepReachable(edges, near, far, a, c)
  {
    var v :| IsWalk(edges, near, far, a, b, v);
    var w :| IsWalk(edges, near, far, b, c, w);
    WalksCompose(edges, near, far, a, b, c, v, w);
  }

  /** A least closure holds everything a walk can reach. */
  lemma {:induction false} ClosureCatchesWalks(edges: seq<Edge>, near: Edge -> string, far: Edge -> string,
      start: string, seen: set<string>, a: string, b: string, walk: seq<Edge>)
    requires IsLeastClosure(edges, near, far, start, seen)
    requires a == start || a in seen
    requires IsWalk(edges, near, far, a, b, walk)
    ensures b in seen
    decreases |walk|
  {
    if |walk| > 1 {
      ClosureCatchesWalks(edges, near, far, start, seen, far(walk[0]), b, walk[1..]);
    }
  }

  lemma {:induction false} ForwardWalkIsPath(edges: seq<Edge>, a: string, b: string, walk: seq<Edge>)
    requires walk != []
    ensures IsWalk(edges, FROM_STATE, TO_STATE, a, b, walk) <==> IsPath(edges, a, b, walk)
    decreases |walk|
  {
    if |walk| > 1 {
      ForwardWalkIsPath(edges, walk[0].to, b, walk[1..]);
    }
  }

  lemma ForwardClosureIsReachability(edges: seq<Edge>, start: string, seen: set<string>)
    requires IsLeastClosure(edges, FROM_STATE, TO_STATE, start, seen)
    ensures forall s :: s in seen <==> Reaches(edges, start, s)
  {
    forall s ensures s in seen <==> Reaches(edges, start, s) {
      if s in seen {
        var walk :| IsWalk(edges, FROM_STATE, TO_STATE, start, s, walk);
        ForwardWalkIsPath(edges, start, s, walk);
      }
      if Reaches(edges, start, s) {
        var path :| path != [] && IsPath(edges, start, s, path);
        ForwardWalkIsPath(edges, start, s, path);
        ClosureCatchesWalks(edges, FROM_STATE, TO_STATE, start, seen, start, s, path);
      }
    }
  }

  lemma {:induction false} BackwardWalkGivesPath(edges: seq<Edge>, a: string, b: string, walk: seq<Edge>)
    requires IsWalk(edges, TO_STATE, FROM_STATE, a, b, walk)
    ensures Reaches(edges, b, a)
    decreases |walk|
  {
    SingleEdgePath(edges, walk[0]);
    if |walk| > 1 {
      BackwardWalkGivesPath(edges, walk[0].from, b, walk[1..]);
      var rest :| rest != [] && IsPath(edges, b, walk[0].from, rest);
      PathsCompose(edges, b, walk[0].from, a, rest, [walk[0]]);
    }
  }

  lemma {:induction false} BackwardClosureCatchesPaths(edges: seq<Edge>, target: string, seen: set<string>, a: string,
      path: seq<Edge>)
    requires IsLeastClosure(edges, TO_STATE, FROM_STATE, target, seen)
    requires path != [] && IsPath(edges, a, target, path)
    ensures a in seen
    decreases |path|
  {
    if |path| > 1 {
      BackwardClosureCatchesPaths(edges, target, seen, path[0].to, path[1..]);
    }
  }

  lemma BackwardClosureIsReachability(edges: seq<Edge>, target: string, seen: set<string>)
    requires IsLeastClosure(edges, TO_STATE, FROM_STATE, target, seen)
    ensures forall s :: s in seen <==> Reaches(edges, s, target)
  {
    forall s ensures s in seen <==> Reaches(edges, s, target) {
      if s in seen {
        var walk :| IsWalk(edges, TO_STATE, FROM_STATE, target, s, walk);
        BackwardWalkGivesPath(edges, target, s, walk);
      }
      if Reaches(edges, s, target) {
        var path :| path != [] && IsPath(edges, s, target, path);
        BackwardClosureCatchesPaths(edges, target, seen, s, path);
      }
    }
  }
}
