/** The depth-first walk behind the ASCII diagram (src/mermaid.rs). A line is
    modelled by what it says; its indentation and wording are not. */
module Mermaid {
  import opened Wrappers
  import opened ProtocolConfig
  import opened Graphs

  /** `cycle`: the target was already expanded, so the walk does not descend.
      `fallback`: an earlier transition has the same source and command.
      `gated`: a gate summary line follows. */
  datatype Line = NoInitialState | Header(state: string) | EdgeLine(index: nat, cycle: bool, fallback: bool, gated: bool)

  // ---------------------------------------------------------------------------
  // Counting lines
  // ---------------------------------------------------------------------------

  /** How many lines print transition `i`. */
  function EdgeCount(lines: seq<Line>, i: nat): nat {
    if lines == [] then 0
    else
      var n := |lines| - 1;
      EdgeCount(lines[..n], i) + if lines[n].EdgeLine? && lines[n].index == i then 1 else 0
  }

  predicate DescendsInto(edges: seq<Edge>, line: Line, state: string) {
    line.EdgeLine? && !line.cycle && line.index < |edges| && edges[line.index].to == state
  }

  /** How many lines descend into `state`. */
  function TreeCount(edges: seq<Edge>, lines: seq<Line>, state: string): nat {
    if lines == [] then 0
    else
      var n := |lines| - 1;
      TreeCount(edges, lines[..n], state) + if DescendsInto(edges, lines[n], state) then 1 else 0
  }

  lemma {:induction false} CountsAdd(edges: seq<Edge>, a: seq<Line>, b: seq<Line>, i: nat, state: string)
    ensures EdgeCount(a + b, i) == EdgeCount(a, i) + EdgeCount(b, i)
    ensures TreeCount(edges, a + b, state) == TreeCount(edges, a, state) + TreeCount(edges, b, state)
    decreases |b|
  {
    if b == [] {
      assert a + b == a;
    } else {
      var n := |b| - 1;
      CountsAdd(edges, a, b[..n], i, state);
      assert (a + b)[..|a| + n] == a + b[..n];
    }
  }

  /** A transition shares source and command with one declared before it. */
  ghost predicate IsFallback(edges: seq<Edge>, i: nat)
    requires i < |edges|
  {
    exists j :: 0 <= j < i && edges[j].from == edges[i].from && edges[j].command == edges[i].command
  }

  /** The line's notes are right. */
  ghost predicate Annotated(config: Config, line: Line) {
    line.EdgeLine? ==>
      && line.index < |config.transitions| == |Edges(config)|
      && line.fallback == IsFallback(Edges(config), line.index)
      && line.gated == (config.transitions[line.index].gates != [])
  }

  // ---------------------------------------------------------------------------
  // What one walk does
  // ---------------------------------------------------------------------------

  /** The states a walk from `state` added, all but `state` itself fully expanded. */
  ghost predicate Expanded(edges: seq<Edge>, state: string, before: set<string>, visited: set<string>) {
    && before <= visited && state in visited && state !in before
    && (forall v :: v in visited && v !in before ==> Leads(edges, state, v))
    && forall i :: 0 <= i < |edges| && edges[i].from in visited && edges[i].from !in before && edges[i].from != state ==> edges[i].to in visited
  }

  ghost predicate Added(before: set<string>, visited: set<string>, state: string, q: string) {
    q in visited && q !in before && q != state
  }

  /** The edges out of added states, and the edges `printed` out of `state`, were
      printed once and no others; each added state was descended into once. */
  ghost predicate PrintedOnce(edges: seq<Edge>, state: string, before: set<string>, visited: set<string>,
      printed: set<nat>, lines: seq<Line>) {
    && (forall i: nat :: EdgeCount(lines, i) == Once(i in printed || (i < |edges| && Added(before, visited, state, edges[i].from))))
    && (forall q :: TreeCount(edges, lines, q) == Once(Added(before, visited, state, q)))
  }

  function Once(b: bool): nat {
    if b then 1 else 0
  }

  ghost predicate AllAnnotated(config: Config, lines: seq<Line>) {
    forall k :: 0 <= k < |lines| ==> Annotated(config, lines[k])
  }

  /** The positions of the edges out of `state`. */
  function EdgesFrom(edges: seq<Edge>, state: string): set<nat> {
    set i: nat | i < |edges| && edges[i].from == state
  }

  /** A walk from `state` that has printed some of the edges out of it. */
  ghost predicate Walking(config: Config, state: string, before: set<string>, visited: set<string>, printed: set<nat>,
      lines: seq<Line>) {
    && Expanded(Edges(config), state, before, visited)
    && (forall i :: i in printed ==> i < |Edges(config)| && Edges(config)[i].from == state && Edges(config)[i].to in visited)
    && PrintedOnce(Edges(config), state, before, visited, printed, lines)
    && AllAnnotated(config, lines)
    && visited - before <= config.states.Keys
  }

  /** A whole walk. */
  ghost predicate Walked(config: Config, state: string, before: set<string>, visited: set<string>, lines: seq<Line>) {
    Walking(config, state, before, visited, EdgesFrom(Edges(config), state), lines)
  }

  // ---------------------------------------------------------------------------
  // How the lines nest
  // ---------------------------------------------------------------------------

  /** One line for each of the transitions, in order, and under each that is not a
      cycle the lines of its target. */
  ghost predicate Nested(edges: seq<Edge>, ids: seq<nat>, lines: seq<Line>)
    decreases |lines|
  {
    if ids == [] then lines == []
    else
      exists n: nat :: n < |lines| && Nested(edges, ids[..|ids| - 1], lines[..n]) && Branch(edges, ids[|ids| - 1], lines[n..])
  }

  ghost predicate Branch(edges: seq<Edge>, i: nat, lines: seq<Line>)
    decreases |lines|, 0
  {
    && lines != [] && lines[0].EdgeLine? && lines[0].index == i < |edges|
    && if lines[0].cycle then lines[1..] == [] else Nested(edges, Positions(edges, FROM_STATE, edges[i].to), lines[1..])
  }

  lemma BranchOf(edges: seq<Edge>, line: Line, below: seq<Line>)
    requires line.EdgeLine? && !line.cycle && line.index < |edges|
    requires Nested(edges, Positions(edges, FROM_STATE, edges[line.index].to), below)
    ensures Branch(edges, line.index, [line] + below)
  {
    assert ([line] + below)[1..] == below;
  }

  lemma AppendBelow(out0: seq<Line>, start: seq<Line>, lines0: seq<Line>, line: Line, out: seq<Line>, below: seq<Line>)
    requires out0 == start + lines0 && out0 + [line] <= out && below == out[|out0| + 1..]
    ensures out == start + (lines0 + [line] + below) && lines0 + [line] + below == lines0 + ([line] + below)
  {
  }

  lemma NestedNext(edges: seq<Edge>, ids: seq<nat>, k: nat, lines: seq<Line>, branch: seq<Line>)
    requires k < |ids| && Nested(edges, ids[..k], lines) && branch != [] && Branch(edges, ids[k], branch)
    ensures Nested(edges, ids[..k + 1], lines + branch)
  {
    var all, some := lines + branch, ids[..k + 1];
    assert all[..|lines|] == lines && all[|lines|..] == branch;
    assert some[..k] == ids[..k] && some[k] == ids[k];
  }

  // ---------------------------------------------------------------------------
  // Steps of the walk
  // ---------------------------------------------------------------------------

  lemma WalkStarts(config: Config, state: string, before: set<string>)
    requires state !in before && state in config.states
    ensures Walking(config, state, before, before + {state}, {}, [])
  {
  }

  lemma LineCounts(edges: seq<Edge>, lines: seq<Line>, line: Line, i: nat, state: string)
    ensures EdgeCount(lines + [line], i) == EdgeCount(lines, i) + Once(line.EdgeLine? && line.index == i)
    ensures TreeCount(edges, lines + [line], state) == TreeCount(edges, lines, state) + Once(DescendsInto(edges, line, state))
  {
    assert (lines + [line])[..|lines|] == lines;
  }

  lemma DescendStep(config: Config, state: string, before: set<string>, visited: set<string>, printed: set<nat>,
      lines: seq<Line>,
                    line: Line, deeper: set<string>, below: seq<Line>)
    requires Walking(config, state, before, visited, printed, lines)
    requires line.EdgeLine? && !line.cycle && Annotated(config, line) && line.index !in printed
    requires Edges(config)[line.index].from == state
    requires Walked(config, Edges(config)[line.index].to, visited, deeper, below)
    ensures Walking(config, state, before, deeper, printed + {line.index}, lines + [line] + below)
  {
    var edges := Edges(config);
    DescendExpands(edges, state, before, visited, edges[line.index], deeper);
    forall i: nat, q: string
      ensures EdgeCount(lines + [line] + below, i) == EdgeCount(lines, i) + Once(i == line.index) + EdgeCount(below, i)
      ensures TreeCount(edges, lines + [line] + below, q)
           == TreeCount(edges, lines, q) + Once(q == edges[line.index].to) + TreeCount(edges, below, q)
    {
      LineCounts(edges, lines, line, i, q);
      CountsAdd(edges, lines + [line], below, i, q);
    }
    DescendPrints(edges, state, before, visited, printed, lines, line.index, deeper, below, lines + [line] + below);
  }

  lemma CycleStep(config: Config, state: string, before: set<string>, visited: set<string>, printed: set<nat>,
      lines: seq<Line>, line: Line)
    requires Walking(config, state, before, visited, printed, lines)
    requires line.EdgeLine? && line.cycle && Annotated(config, line) && line.index !in printed
    requires Edges(config)[line.index].from == state && Edges(config)[line.index].to in visited
    ensures Walking(config, state, before, visited, printed + {line.index}, lines + [line])
  {
    forall i: nat, q: string
      ensures EdgeCount(lines + [line], i) == EdgeCount(lines, i) + Once(i == line.index)
      ensures TreeCount(Edges(config), lines + [line], q) == TreeCount(Edges(config), lines, q)
    {
      LineCounts(Edges(config), lines, line, i, q);
    }
  }

  lemma DescendExpands(edges: seq<Edge>, state: string, before: set<string>, visited: set<string>, e: Edge,
      deeper: set<string>)
    requires e in edges && e.from == state
    requires Expanded(edges, state, before, visited) && Expanded(edges, e.to, visited, deeper)
    requires forall i: nat :: i in EdgesFrom(edges, e.to) ==> edges[i].to in deeper
    ensures Expanded(edges, state, before, deeper)
  {
    EdgeLeads(edges, e);
    forall v | v in deeper && v !in before ensures Leads(edges, state, v) {
      if v !in visited {
        LeadsTransitive(edges, state, e.to, v);
      }
    }
    forall i | 0 <= i < |edges| && edges[i].from in deeper && edges[i].from !in before && edges[i].from != state
      ensures edges[i].to in deeper
    {
      if edges[i].from == e.to {
        assert i in EdgesFrom(edges, e.to);
      }
    }
  }

  lemma DescendPrints(edges: seq<Edge>, state: string, before: set<string>, visited: set<string>, printed: set<nat>,
      lines: seq<Line>,
                      at: nat, deeper: set<string>, below: seq<Line>, all: seq<Line>)
    requires at < |edges| && edges[at].from == state && at !in printed
    requires Expanded(edges, state, before, visited) && Expanded(edges, edges[at].to, visited, deeper)
    requires forall i :: i in printed ==> i < |edges| && edges[i].from == state
    requires PrintedOnce(edges, state, before, visited, printed, lines)
    requires PrintedOnce(edges, edges[at].to, visited, deeper, EdgesFrom(edges, edges[at].to), below)
    requires forall i: nat :: EdgeCount(all, i) == EdgeCount(lines, i) + Once(i == at) + EdgeCount(below, i)
    requires forall q :: TreeCount(edges, all, q) == TreeCount(edges, lines, q) + Once(q == edges[at].to) + TreeCount(edges, below, q)
    ensures PrintedOnce(edges, state, before, deeper, printed + {at}, all)
  {
    forall i: nat
      ensures EdgeCount(all, i) == Once(i in printed + {at} || (i < |edges| && Added(before, deeper, state, edges[i].from)))
    {
      assert i in EdgesFrom(edges, edges[at].to) <==> i < |edges| && edges[i].from == edges[at].to;
    }
  }

  // ---------------------------------------------------------------------------
  // The walk
  // ---------------------------------------------------------------------------

  /** The key under which a candidate is noted: `from:command`. */
  function CandidateKey(e: Edge): string {
    e.from + ":" + e.command
  }

  lemma KeysTellCommands(d: Edge, e: Edge)
    requires d.from == e.from
    ensures CandidateKey(d) == CandidateKey(e) <==> d.command == e.command
  {
    var n := |d.from| + 1;
    assert CandidateKey(d)[n..] == d.command && CandidateKey(e)[n..] == e.command;
  }

  /** `seen` holds the keys of the first `k` edges out of a state. */
  ghost predicate SeenKeys(edges: seq<Edge>, ids: seq<nat>, k: nat, seen: set<string>) {
    && k <= |ids| && (forall j :: 0 <= j < |ids| ==> ids[j] < |edges|)
    && forall key :: key in seen <==> exists j :: 0 <= j < k && CandidateKey(edges[ids[j]]) == key
  }

  /** The key was seen exactly when an earlier transition makes this one a fallback. */
  lemma SeenIsFallback(edges: seq<Edge>, state: string, ids: seq<nat>, k: nat, seen: set<string>)
    requires ids == Positions(edges, FROM_STATE, state) && k < |ids| && SeenKeys(edges, ids, k, seen)
    ensures CandidateKey(edges[ids[k]]) in seen <==> IsFallback(edges, ids[k])
  {
    PositionsAreExact(edges, FROM_STATE, state);
    var i := ids[k];
    assert i in ids;
    forall j | 0 <= j < k ensures CandidateKey(edges[ids[j]]) == CandidateKey(edges[i]) <==> edges[ids[j]].command == edges[i].command {
      assert ids[j] in ids;
      KeysTellCommands(edges[ids[j]], edges[i]);
    }
    if IsFallback(edges, i) {
      var e :| 0 <= e < i && edges[e].from == edges[i].from && edges[e].command == edges[i].command;
      assert e in ids;
      var j :| 0 <= j < |ids| && ids[j] == e;
      assert j < k;
    }
  }

  function FirstOf(ids: seq<nat>, k: nat): set<nat>
    requires k <= |ids|
  {
    set j | 0 <= j < k :: ids[j]
  }

  lemma NextOutgoing(edges: seq<Edge>, state: string, ids: seq<nat>, k: nat, seen: set<string>)
    requires ids == Positions(edges, FROM_STATE, state) && k < |ids| && SeenKeys(edges, ids, k, seen)
    ensures ids[k] < |edges| && edges[ids[k]].from == state
    ensures ids[k] !in FirstOf(ids, k) && FirstOf(ids, k + 1) == FirstOf(ids, k) + {ids[k]}
    ensures CandidateKey(edges[ids[k]]) in seen <==> IsFallback(edges, ids[k])
    ensures SeenKeys(edges, ids, k + 1, seen + {CandidateKey(edges[ids[k]])})
  {
    PositionsAreExact(edges, FROM_STATE, state);
    assert ids[k] in ids;
    SeenIsFallback(edges, state, ids, k, seen);
  }

  lemma AllOutgoing(edges: seq<Edge>, state: string, ids: seq<nat>)
    requires ids == Positions(edges, FROM_STATE, state)
    ensures FirstOf(ids, |ids|) == EdgesFrom(edges, state)
    ensures SeenKeys(edges, ids, 0, {})
  {
    PositionsAreExact(edges, FROM_STATE, state);
    forall i ensures i in FirstOf(ids, |ids|) <==> i in EdgesFrom(edges, state) {
      assert i in FirstOf(ids, |ids|) <==> i in ids;
    }
    forall j | 0 <= j < |ids| ensures ids[j] < |edges| {
      assert ids[j] in ids;
    }
  }

  /** Where the walk from `state` stands after its first `k` edges. */
  ghost predicate WalkedUpTo(config: Config, edges: seq<Edge>, state: string, before: set<string>, outgoing: seq<nat>,
      k: nat,
                             seen: set<string>, visited: set<string>, lines: seq<Line>) {
    && SeenKeys(edges, outgoing, k, seen)
    && Walking(config, state, before, visited, FirstOf(outgoing, k), lines)
  }

  /** Expand `state`, which is declared and not yet visited. */
  method Walk(config: Config, edges: seq<Edge>, byFrom: map<string, seq<nat>>, state: string, before: set<string>,
      out0: seq<Line>)
    returns (visited: set<string>, out: seq<Line>)
    requires config.EndpointsDeclared() && edges == Edges(config) && IsAdjacency(byFrom, edges, FROM_STATE)
    requires state in config.states && state !in before
    ensures out0 <= out && Walked(config, state, before, visited, out[|out0|..])
    ensures Nested(edges, Positions(edges, FROM_STATE, state), out[|out0|..])
    decreases config.states.Keys - before
  {
    visited, out := before + {state}, out0;
    ghost var lines: seq<Line> := [];
    WalkStarts(config, state, before);
    var outgoing := Ids(byFrom, state);
    var seen: set<string> := {};
    AllOutgoing(edges, state, outgoing);
    var k := 0;
    while k < |outgoing|
      invariant k <= |outgoing|
      invariant out == out0 + lines
      invariant WalkedUpTo(config, edges, state, before, outgoing, k, seen, visited, lines)
      invariant Nested(edges, outgoing[..k], lines)
    {
      seen, visited, out, lines := TakeEdge(config, edges, byFrom, state, before, outgoing, k, seen, visited, out0, out, lines);
      k := k + 1;
    }
    assert out[|out0|..] == lines && outgoing[..k] == outgoing;
  }

  /** The body of the loop: note the candidate, print it, descend. */
  method TakeEdge(config: Config, edges: seq<Edge>, byFrom: map<string, seq<nat>>, state: string,
      ghost before: set<string>, outgoing: seq<nat>, k: nat,
                  seen0: set<string>, visited0: set<string>, ghost start: seq<Line>, out0: seq<Line>, ghost lines0: seq<Line>)
    returns (seen: set<string>, visited: set<string>, out: seq<Line>, ghost lines: seq<Line>)
    requires config.EndpointsDeclared() && edges == Edges(config) && IsAdjacency(byFrom, edges, FROM_STATE)
    requires state in config.states && outgoing == Positions(edges, FROM_STATE, state) && k < |outgoing|
    requires out0 == start + lines0 && WalkedUpTo(config, edges, state, before, outgoing, k, seen0, visited0, lines0)
    requires Nested(edges, outgoing[..k], lines0)
    ensures out == start + lines && WalkedUpTo(config, edges, state, before, outgoing, k + 1, seen, visited, lines)
    ensures Nested(edges, outgoing[..k + 1], lines)
    decreases config.states.Keys - before, 1
  {
    NextOutgoing(edges, state, outgoing, k, seen0);
    var i := outgoing[k];
    var key := CandidateKey(edges[i]);
    seen := seen0 + {key};
    ghost var branch;
    visited, out, lines, branch := Follow(config, edges, byFrom, state, before, i, key in seen0,
                                  visited0, FirstOf(outgoing, k), start, out0, lines0);
    NestedNext(edges, outgoing, k, lines0, branch);
  }

  lemma EdgeIsTransition(config: Config, i: nat)
    requires config.EndpointsDeclared() && i < |Edges(config)|
    ensures |Edges(config)| == |config.transitions| && Edges(config)[i] == EdgeOf(config.transitions[i], i)
    ensures Edges(config)[i].to in config.states
  {
    AllEdges(config.transitions);
    assert config.transitions[i] in config.transitions;
  }

  lemma FewerLeft(config: Config, state: string, before: set<string>, visited: set<string>)
    requires state in config.states && state in visited && state !in before && before <= visited
    ensures config.states.Keys - visited < config.states.Keys - before
  {
    assert state in config.states.Keys - before;
  }

  /** Print the edge, and descend into its target unless that was visited. */
  method Follow(config: Config, edges: seq<Edge>, byFrom: map<string, seq<nat>>, state: string, ghost before: set<string>,
                i: nat, fallback: bool, visited0: set<string>, ghost printed: set<nat>,
                ghost start: seq<Line>, out0: seq<Line>, ghost lines0: seq<Line>)
    returns (visited: set<string>, out: seq<Line>, ghost lines: seq<Line>, ghost branch: seq<Line>)
    requires config.EndpointsDeclared() && edges == Edges(config) && IsAdjacency(byFrom, edges, FROM_STATE)
    requires i < |edges| && edges[i].from == state && i !in printed && fallback == IsFallback(edges, i)
    requires out0 == start + lines0 && Walking(config, state, before, visited0, printed, lines0)
    requires state in config.states
    ensures out == start + lines && Walking(config, state, before, visited, printed + {i}, lines)
    ensures lines == lines0 + branch && branch != [] && Branch(edges, i, branch)
    decreases config.states.Keys - before, 0
  {
    EdgeIsTransition(config, i);
    var cycle := edges[i].to in visited0;
    var line := EdgeLine(i, cycle, fallback, config.transitions[i].gates != []);
    out, lines, visited, branch := out0 + [line], lines0 + [line], visited0, [line];
    if !cycle {
      FewerLeft(config, state, before, visited0);
      ghost var printedSoFar := out;
      visited, out := Walk(config, edges, byFrom, edges[i].to, visited0, out);
      ghost var below := out[|printedSoFar|..];
      DescendStep(config, state, before, visited0, printed, lines0, line, visited, below);
      BranchOf(edges, line, below);
      AppendBelow(out0, start, lines0, line, out, below);
      lines, branch := lines + below, [line] + below;
    } else {
      CycleStep(config, state, before, visited0, printed, lines0, line);
    }
  }

  // ---------------------------------------------------------------------------
  // The diagram
  // ---------------------------------------------------------------------------

  /** Every transition a run from `initial` can take is printed once and no other
      is, and the walk descends once into each state such a run can reach. */
  ghost predicate Diagram(config: Config, initial: string, lines: seq<Line>) {
    && (forall i: nat :: EdgeCount(lines, i) == Once(i < |config.transitions| && Leads(Edges(config), initial, config.transitions[i].from)))
    && (forall q :: TreeCount(Edges(config), lines, q) == Once(q != initial && Leads(Edges(config), initial, q)))
    && AllAnnotated(config, lines)
  }

  lemma {:induction false} ClosedHoldsPath(edges: seq<Edge>, closed: set<string>, a: string, b: string, path: seq<Edge>)
    requires forall i :: 0 <= i < |edges| && edges[i].from in closed ==> edges[i].to in closed
    requires a in closed && IsPath(edges, a, b, path)
    ensures b in closed
    decreases |path|
  {
    if path != [] {
      ClosedHoldsPath(edges, closed, path[0].to, b, path[1..]);
    }
  }

  /** The depth-first walk visits what the breadth-first closure reaches. */
  lemma WalkIsReachability(config: Config, initial: string, visited: set<string>, lines: seq<Line>)
    requires Walked(config, initial, {}, visited, lines)
    ensures forall q :: q in visited <==> Leads(Edges(config), initial, q)
    ensures Diagram(config, initial, lines)
  {
    var edges := Edges(config);
    AllEdges(config.transitions);
    forall i | 0 <= i < |edges| && edges[i].from in visited ensures edges[i].to in visited {
      assert i in EdgesFrom(edges, edges[i].from);
    }
    forall q | Leads(edges, initial, q) ensures q in visited {
      if q != initial {
        var path: seq<Edge> :| path != [] && IsPath(edges, initial, q, path);
        ClosedHoldsPath(edges, visited, initial, q, path);
      }
    }
    forall i: nat
      ensures EdgeCount(lines, i) == Once(i < |config.transitions| && Leads(edges, initial, config.transitions[i].from))
    {
      assert i in EdgesFrom(edges, initial) <==> i < |edges| && edges[i].from == initial;
    }
  }

  method ByFrom(edges: seq<Edge>) returns (byFrom: map<string, seq<nat>>)
    ensures IsAdjacency(byFrom, edges, FROM_STATE)
  {
    byFrom := map[];
    for i := 0 to |edges|
      invariant IsAdjacency(byFrom, edges[..i], FROM_STATE)
    {
      AdjacencyPush(byFrom, edges, FROM_STATE, i);
      byFrom := PushId(byFrom, edges[i].from, i);
    }
    assert edges[..|edges|] == edges;
  }

  method GenerateAscii(config: Config, initial: Option<string>) returns (out: seq<Line>)
    requires config.EndpointsDeclared() && (initial.Some? ==> initial.value in config.states)
    ensures initial.None? ==> out == [NoInitialState]
    ensures initial.Some? ==> out != [] && out[0] == Header(initial.value) && Diagram(config, initial.value, out[1..])
    ensures initial.Some? ==> Nested(Edges(config), Positions(Edges(config), FROM_STATE, initial.value), out[1..])
  {
    if initial.None? {
      return [NoInitialState];
    }
    var edges := Edges(config);
    var byFrom := ByFrom(edges);
    var visited;
    visited, out := Walk(config, edges, byFrom, initial.value, {}, [Header(initial.value)]);
    WalkIsReachability(config, initial.value, visited, out[1..]);
  }
}
