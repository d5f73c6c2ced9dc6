/** The four checks whose verdicts the engine vouches for (src/lint/checks.rs).
    Messages are modelled by the facts they report. */
module Lint {
  import opened Wrappers
  import opened ProtocolConfig
  import opened LedgerEntries
  import opened Graphs
  import opened Producers
  import opened GateRefs

  datatype Severity = Error | Warning

  datatype Location = AtTransition(index: nat) | AtHook(hook: nat) | AtBoundary(boundary: string) | AtState(state: string)

  datatype Cause =
    | Undeclared(event: string)
    | NeverProduced(event: string)
    | ProducedTooLate(event: string)
    | UnknownState(unknown: string)
    | Untagged
    | Bypass(path: seq<Edge>)
    | NoExit
    | ExitsBlocked

  datatype Finding = Finding(severity: Severity, location: Location, cause: Cause)

  /** `fatal`: the reference makes its gate provably unpassable. */
  datatype Defect = Defect(cause: Cause, fatal: bool)

  /** The two questions asked of a reference: is the event produced at all (L1),
      and can it be produced in one of the states `before` its gate (L2). */
  datatype Check = Produced | InTime(before: set<string>)

  function Classify(config: Config, producers: seq<Producer>, r: EventRef): Option<Defect> {
    if !r.required || IsEngineEvent(r.event) then None
    else if r.event !in config.events then
      if config.events == map[] then None else Some(Defect(Undeclared(r.event), false))
    else if producers != [] then None
    else if config.events[r.event].restricted || config.requireProducers then Some(Defect(NeverProduced(r.event), true))
    else None
  }

  predicate Usable(p: Producer, before: set<string>) {
    p.window.None? || exists s :: s in p.window.value && s in before
  }

  function ClassifyTiming(before: set<string>, producers: seq<Producer>, r: EventRef): Option<Defect> {
    if !r.required || IsEngineEvent(r.event) || producers == [] then None
    else if exists p :: p in producers && Usable(p, before) then None
    else Some(Defect(ProducedTooLate(r.event), true))
  }

  function Judge(config: Config, check: Check, producers: seq<Producer>, r: EventRef): Option<Defect> {
    match check
    case Produced => Classify(config, producers, r)
    case InTime(before) => ClassifyTiming(before, producers, r)
  }

  function Verdict(config: Config, check: Check, r: EventRef): Option<Defect> {
    Judge(config, check, ProducersOf(config, r.event), r)
  }

  predicate Blocking(r: EventRef, d: Defect) {
    d.fatal && !r.disjunctive
  }

  function FindingFor(location: Location, r: EventRef, d: Defect): Finding {
    Finding(if Blocking(r, d) then Error else Warning, location, d.cause)
  }

  /** What a check reports on one reference: at most one finding. */
  function ReportOne(config: Config, check: Check, location: Location, r: EventRef): seq<Finding> {
    var v := Verdict(config, check, r);
    if v.Some? then [FindingFor(location, r, v.value)] else []
  }

  /** What a check reports on a list of references. */
  function Report(config: Config, check: Check, location: Location, refs: seq<EventRef>): seq<Finding> {
    if refs == [] then []
    else
      var n := |refs| - 1;
      Report(config, check, location, refs[..n]) + ReportOne(config, check, location, refs[n])
  }

  /** The causes of the errors among `fs`: what the transition is blocked for. */
  function ErrorCauses(fs: seq<Finding>): seq<Cause> {
    if fs == [] then []
    else
      var n := |fs| - 1;
      ErrorCauses(fs[..n]) + if fs[n].severity == Error then [fs[n].cause] else []
  }

  lemma ReportSnoc(config: Config, check: Check, location: Location, refs: seq<EventRef>, r: EventRef)
    ensures Report(config, check, location, refs + [r]) == Report(config, check, location, refs) + ReportOne(config, check, location, r)
  {
    assert (refs + [r])[..|refs|] == refs;
  }

  lemma {:induction false} ReportConcat(config: Config, check: Check, location: Location, a: seq<EventRef>,
      b: seq<EventRef>)
    ensures Report(config, check, location, a + b) == Report(config, check, location, a) + Report(config, check, location, b)
    decreases |b|
  {
    if b == [] {
      assert a + b == a;
    } else {
      var shorter, last := b[..|b| - 1], b[|b| - 1];
      assert shorter + [last] == b;
      calc {
        Report(config, check, location, a + b);
        { Regroup(a, shorter, [last]); }
        Report(config, check, location, a + shorter + [last]);
        { ReportSnoc(config, check, location, a + shorter, last); }
        Report(config, check, location, a + shorter) + ReportOne(config, check, location, last);
        { ReportConcat(config, check, location, a, shorter); }
        Report(config, check, location, a) + Report(config, check, location, shorter) + ReportOne(config, check, location, last);
        { Regroup(Report(config, check, location, a), Report(config, check, location, shorter), ReportOne(config, check, location, last)); }
        Report(config, check, location, a) + (Report(config, check, location, shorter) + ReportOne(config, check, location, last));
        { ReportSnoc(config, check, location, shorter, last); }
        Report(config, check, location, a) + Report(config, check, location, b);
      }
    }
  }

  lemma {:induction false} ErrorCausesConcat(a: seq<Finding>, b: seq<Finding>)
    ensures ErrorCauses(a + b) == ErrorCauses(a) + ErrorCauses(b)
    decreases |b|
  {
    if b == [] {
      assert a + b == a;
    } else {
      var n := |b| - 1;
      ErrorCausesConcat(a, b[..n]);
      assert (a + b)[..|a| + n] == a + b[..n];
    }
  }

  lemma {:induction false} ErrorCausesAreErrors(fs: seq<Finding>)
    ensures ErrorCauses(fs) == [] <==> forall f :: f in fs ==> f.severity != Error
  {
    if fs != [] {
      var n := |fs| - 1;
      ErrorCausesAreErrors(fs[..n]);
      assert fs == fs[..n] + [fs[n]];
    }
  }

  lemma {:induction false} ReportHolds(config: Config, check: Check, location: Location, refs: seq<EventRef>, f: Finding)
    ensures f in Report(config, check, location, refs) <==> exists r :: r in refs && f in ReportOne(config, check, location, r)
  {
    if refs != [] {
      var n := |refs| - 1;
      ReportHolds(config, check, location, refs[..n], f);
      assert refs == refs[..n] + [refs[n]];
    }
  }

  // ---------------------------------------------------------------------------
  // What each check says of the protocol
  // ---------------------------------------------------------------------------

  /** The states a run can have been in by the time it is in `target`. */
  ghost function Preceding(config: Config, target: string): set<string> {
    (set e | e in Edges(config) && Reaches(Edges(config), e.from, target) :: e.from) + {target}
  }

  ghost function CheckOn(config: Config, timing: bool, t: Transition): Check {
    if timing then InTime(Preceding(config, t.from)) else Produced
  }

  function GateRefsOf(t: Transition): seq<EventRef> {
    AllRefs(t.gates, true, false)
  }

  ghost function OneTransition(config: Config, timing: bool, i: nat): seq<Finding>
    requires i < |config.transitions|
  {
    var t := config.transitions[i];
    Report(config, CheckOn(config, timing, t), AtTransition(i), GateRefsOf(t))
  }

  ghost function TransitionFindings(config: Config, timing: bool, n: nat): seq<Finding>
    requires n <= |config.transitions|
  {
    if n == 0 then []
    else TransitionFindings(config, timing, n - 1) + OneTransition(config, timing, n - 1)
  }

  function HookFindings(config: Config, hooks: seq<Hook>): seq<Finding> {
    if hooks == [] then []
    else
      var n := |hooks| - 1;
      HookFindings(config, hooks[..n]) + Report(config, Produced, AtHook(n), HookRefs(hooks[n]))
  }

  lemma HookFindingsSnoc(config: Config, hooks: seq<Hook>, i: nat)
    requires i < |hooks|
    ensures HookFindings(config, hooks[..i + 1])
         == HookFindings(config, hooks[..i]) + Report(config, Produced, AtHook(i), HookRefs(hooks[i]))
  {
    assert hooks[..i + 1][..i] == hooks[..i];
  }

  function HookRefs(hook: Hook): seq<EventRef> {
    match hook.gate
    case None => []
    case Some(gate) => Refs(gate, true, false)
  }

  ghost predicate BlocksAt(config: Config, timing: bool, i: nat)
    requires i < |config.transitions|
  {
    ErrorCauses(OneTransition(config, timing, i)) != []
  }

  /** The transitions before `n` that the check blocks. */
  ghost function Blocked(config: Config, timing: bool, n: nat): set<nat>
    requires n <= |config.transitions|
  {
    set i: nat | i < n && BlocksAt(config, timing, i)
  }

  lemma BlockedNext(config: Config, timing: bool, n: nat)
    requires n < |config.transitions|
    ensures Blocked(config, timing, n + 1) == Blocked(config, timing, n) + if BlocksAt(config, timing, n) then {n} else {}
  {
  }

  type Unsatisfiable = map<nat, Cause>

  /** Why the check blocks transition `i`: its first error. */
  ghost function Reason(config: Config, timing: bool, i: nat): Option<Cause>
    requires i < |config.transitions|
  {
    var causes := ErrorCauses(OneTransition(config, timing, i));
    if causes == [] then None else Some(causes[0])
  }

  /** `after` adds the transitions the check blocks to `before`, each with its first
      error, and keeps the reasons already given. */
  ghost predicate Marks(config: Config, timing: bool, before: Unsatisfiable, after: Unsatisfiable) {
    && after.Keys == before.Keys + Blocked(config, timing, |config.transitions|)
    && (forall i: nat :: i in before ==> after[i] == before[i])
    && forall i: nat :: i < |config.transitions| && i in after && i !in before ==> Reason(config, timing, i) == Some(after[i])
  }

  // Boundaries

  /** Keeps the transitions a boundary's tag does not mark. */
  function Outside(name: string): Transition -> bool {
    (t: Transition) => t.boundary != Some(name)
  }

  function UntaggedEdges(config: Config, name: string): seq<Edge> {
    KeptEdges(config.transitions, Outside(name))
  }

  predicate IsTagged(config: Config, name: string) {
    exists i :: 0 <= i < |config.transitions| && config.transitions[i].boundary == Some(name)
  }

  function UnknownEnd(config: Config, b: Boundary, state: string): seq<Finding> {
    if state in config.states then [] else [Finding(Error, AtBoundary(b.name), UnknownState(state))]
  }

  ghost predicate IsShortest(edges: seq<Edge>, a: string, b: string, path: seq<Edge>) {
    && path != [] && IsPath(edges, a, b, path)
    && forall q :: q != [] && IsPath(edges, a, b, q) ==> |path| <= |q|
  }

  /** What L3 must report on a boundary. */
  ghost predicate BoundaryVerdict(config: Config, b: Boundary, fs: seq<Finding>) {
    if b.from !in config.states || b.to !in config.states then
      fs == UnknownEnd(config, b, b.from) + UnknownEnd(config, b, b.to)
    else if !IsTagged(config, b.name) then
      fs == [Finding(Error, AtBoundary(b.name), Untagged)]
    else if !Reaches(UntaggedEdges(config, b.name), b.from, b.to) then
      fs == []
    else
      && |fs| == 1 && fs[0].severity == Error && fs[0].location == AtBoundary(b.name) && fs[0].cause.Bypass?
      && IsShortest(UntaggedEdges(config, b.name), b.from, b.to, fs[0].cause.path)
  }

  ghost predicate BoundaryVerdicts(config: Config, per: seq<seq<Finding>>) {
    |per| <= |config.boundaries| && forall i :: 0 <= i < |per| ==> BoundaryVerdict(config, config.boundaries[i], per[i])
  }

  /** The findings are every boundary's verdict, in declaration order. */
  ghost predicate ReportsBoundaries(config: Config, findings: seq<Finding>) {
    exists per :: findings == Concat(per) && |per| == |config.boundaries| && BoundaryVerdicts(config, per)
  }

  function Concat<T>(parts: seq<seq<T>>): seq<T> {
    if parts == [] then []
    else
      var n := |parts| - 1;
      Concat(parts[..n]) + parts[n]
  }

  // Dead ends

  ghost predicate LeavesFrom(config: Config, state: string, i: nat) {
    i < |config.transitions| && config.transitions[i].from == state
  }

  /** No transition leaves the state that is not already known to be blocked. */
  ghost predicate DeadEnd(config: Config, blocked: Unsatisfiable, state: string) {
    forall i: nat :: LeavesFrom(config, state, i) ==> i in blocked
  }

  /** What L4 must report on a state. */
  ghost function StateFindings(config: Config, blocked: Unsatisfiable, state: string): seq<Finding>
    requires state in config.states
  {
    if config.states[state].terminal || !DeadEnd(config, blocked, state) then []
    else [Finding(Error, AtState(state), if exists i: nat :: LeavesFrom(config, state, i) then ExitsBlocked else NoExit)]
  }

  /** Byte order, without repeats. */
  predicate SortedNames(names: seq<string>) {
    forall i, j :: 0 <= i < j < |names| ==> Less(names[i], names[j])
  }

  ghost predicate ListsStates(config: Config, names: seq<string>) {
    SortedNames(names) && forall name :: name in names <==> name in config.states
  }

  ghost function FindingsAt(config: Config, blocked: Unsatisfiable, names: seq<string>): seq<Finding>
    requires forall i :: 0 <= i < |names| ==> names[i] in config.states
  {
    if names == [] then []
    else
      var n := |names| - 1;
      FindingsAt(config, blocked, names[..n]) + StateFindings(config, blocked, names[n])
  }

  /** The findings are those of every state, in the order of their names. */
  ghost predicate ReportsDeadEnds(config: Config, blocked: Unsatisfiable, findings: seq<Finding>) {
    exists names :: ListsStates(config, names) && findings == FindingsAt(config, blocked, names)
  }

  lemma {:induction false} FindingsAtHold(config: Config, blocked: Unsatisfiable, names: seq<string>, f: Finding)
    requires forall i :: 0 <= i < |names| ==> names[i] in config.states
    ensures f in FindingsAt(config, blocked, names) <==> DeadEndFinding(config, blocked, f) && f.location.state in names
  {
    if names != [] {
      var n := |names| - 1;
      FindingsAtHold(config, blocked, names[..n], f);
      assert names == names[..n] + [names[n]];
    }
  }

  ghost predicate DeadEndFinding(config: Config, blocked: Unsatisfiable, f: Finding) {
    f.location.AtState? && f.location.state in config.states && f in StateFindings(config, blocked, f.location.state)
  }

  // ---------------------------------------------------------------------------
  // The checks
  // ---------------------------------------------------------------------------

  class Analysis {
    const config: Config
    const graph: Graph
    const producers: ProducerIndex
    var unsatisfiable: Unsatisfiable

    ghost predicate Valid() {
      && graph.Valid() && graph.edges == Edges(config)
      && forall event :: At(producers.table, event) == ProducersOf(config, event)
    }

    constructor (config: Config)
      ensures Valid() && this.config == config && unsatisfiable == map[]
    {
      var graph := new Graph.BuildFiltered(config, KEEP_ALL);
      var producers := new ProducerIndex.Build(config);
      this.config, this.graph, this.producers, unsatisfiable := config, graph, producers, map[];
    }

    method CheckRefs(check: Check, location: Location, refs: seq<EventRef>) returns (findings: seq<Finding>,
        blocked: seq<Cause>)
      requires Valid()
      ensures findings == Report(config, check, location, refs)
      ensures blocked == ErrorCauses(findings)
    {
      findings, blocked := [], [];
      for i := 0 to |refs|
        invariant findings == Report(config, check, location, refs[..i])
        invariant blocked == ErrorCauses(findings)
      {
        assert refs[..i + 1][..i] == refs[..i];
        var found, reasons := CheckRef(check, location, refs[i]);
        ErrorCausesConcat(findings, found);
        findings, blocked := findings + found, blocked + reasons;
      }
      assert refs[..|refs|] == refs;
    }

    method CheckRef(check: Check, location: Location, r: EventRef) returns (found: seq<Finding>, reasons: seq<Cause>)
      requires Valid()
      ensures found == ReportOne(config, check, location, r)
      ensures reasons == ErrorCauses(found)
    {
      found, reasons := [], [];
      var ps := producers.ProducersFor(r.event);
      var defect := Judge(config, check, ps, r);
      if defect.Some? {
        if Blocking(r, defect.value) {
          reasons := [defect.value.cause];
        }
        found := [FindingFor(location, r, defect.value)];
      }
    }

    method CheckGates(check: Check, location: Location, gates: seq<Gate>) returns (findings: seq<Finding>,
        blocked: seq<Cause>)
      requires Valid()
      ensures findings == Report(config, check, location, AllRefs(gates, true, false))
      ensures blocked == ErrorCauses(findings)
    {
      findings, blocked := [], [];
      for i := 0 to |gates|
        invariant Report(config, check, location, AllRefs(gates, true, false))
               == findings + Report(config, check, location, AllRefs(gates[i..], true, false))
        invariant blocked == ErrorCauses(findings)
      {
        var refs := GateEventRefs(gates[i]);
        assert gates[i..][0] == gates[i] && gates[i..][1..] == gates[i + 1..];
        ghost var rest := AllRefs(gates[i + 1..], true, false);
        assert AllRefs(gates[i..], true, false) == refs + rest;
        var more, reasons := CheckRefs(check, location, refs);
        ReportConcat(config, check, location, refs, rest);
        Regroup(findings, more, Report(config, check, location, rest));
        ErrorCausesConcat(findings, more);
        findings, blocked := findings + more, blocked + reasons;
      }
      assert gates[|gates|..] == [];
    }

    /** The loop over transitions that L1 and L2 share. */
    method CheckTransitions(timing: bool) returns (findings: seq<Finding>, blocked: seq<(nat, Cause)>)
      requires Valid()
      ensures findings == TransitionFindings(config, timing, |config.transitions|)
      ensures Indices(blocked) == Blocked(config, timing, |config.transitions|)
      ensures AreReasons(config, timing, |config.transitions|, blocked)
    {
      findings, blocked := [], [];
      var i: nat := 0;
      while i < |config.transitions|
        invariant i <= |config.transitions|
        invariant findings == TransitionFindings(config, timing, i)
        invariant Indices(blocked) == Blocked(config, timing, i)
        invariant AreReasons(config, timing, i, blocked)
      {
        var more, reasons := CheckTransition(timing, i);
        TagIndices(blocked, i, reasons);
        MoreReasons(config, timing, i, blocked, reasons);
        BlockedNext(config, timing, i);
        findings, blocked := findings + more, blocked + Tag(i, reasons);
        i := i + 1;
      }
    }

    method CheckTransition(timing: bool, i: nat) returns (findings: seq<Finding>, blocked: seq<Cause>)
      requires Valid() && i < |config.transitions|
      ensures findings == OneTransition(config, timing, i)
      ensures blocked == ErrorCauses(findings)
    {
      var t := config.transitions[i];
      var check := Produced;
      if timing {
        var before := ReachableBefore(t.from);
        check := InTime(before);
      }
      findings, blocked := CheckGates(check, AtTransition(i), t.gates);
    }

    /** `entry(i).or_insert(reason)` for each blocked transition. */
    method Mark(blocked: seq<(nat, Cause)>)
      modifies this`unsatisfiable
      ensures unsatisfiable.Keys == old(unsatisfiable.Keys) + Indices(blocked)
      ensures forall i: nat :: i in old(unsatisfiable) ==> unsatisfiable[i] == old(unsatisfiable)[i]
      ensures forall i: nat :: i in unsatisfiable && i !in old(unsatisfiable) ==> First(blocked, i) == Some(unsatisfiable[i])
    {
      for n := 0 to |blocked|
        invariant unsatisfiable.Keys == old(unsatisfiable.Keys) + Indices(blocked[..n])
        invariant forall i: nat :: i in old(unsatisfiable) ==> unsatisfiable[i] == old(unsatisfiable)[i]
        invariant forall i: nat :: i in unsatisfiable && i !in old(unsatisfiable) ==> First(blocked[..n], i) == Some(unsatisfiable[i])
      {
        assert blocked[..n + 1][..n] == blocked[..n];
        var (i, reason) := blocked[n];
        FirstIsIndexed(blocked[..n], i);
        if i !in unsatisfiable {
          unsatisfiable := unsatisfiable[i := reason];
        }
      }
      assert blocked[..|blocked|] == blocked;
    }

    /** L1: every event a gate requires can be produced by something. */
    method L1UnsatisfiableGates() returns (findings: seq<Finding>)
      requires Valid()
      modifies this`unsatisfiable
      ensures findings == TransitionFindings(config, false, |config.transitions|) + HookFindings(config, config.hooks)
      ensures Marks(config, false, old(unsatisfiable), unsatisfiable)
    {
      var blocked;
      findings, blocked := CheckTransitions(false);
      Mark(blocked);
      var onHooks := CheckHooks();
      findings := findings + onHooks;
    }

    method CheckHooks() returns (findings: seq<Finding>)
      requires Valid()
      ensures findings == HookFindings(config, config.hooks)
    {
      findings := [];
      for i := 0 to |config.hooks|
        invariant findings == HookFindings(config, config.hooks[..i])
      {
        HookFindingsSnoc(config, config.hooks, i);
        var more := CheckHook(i, config.hooks[i]);
        findings := findings + more;
      }
      assert config.hooks[..|config.hooks|] == config.hooks;
    }

    method CheckHook(i: nat, hook: Hook) returns (findings: seq<Finding>)
      requires Valid()
      ensures findings == Report(config, Produced, AtHook(i), HookRefs(hook))
    {
      findings := [];
      if hook.gate.Some? {
        var refs := GateEventRefs(hook.gate.value);
        var found, _ := CheckRefs(Produced, AtHook(i), refs);
        findings := found;
      }
    }

    /** L2: a required event can be produced in a state that precedes its gate. */
    method L2TemporallyUnsatisfiable() returns (findings: seq<Finding>)
      requires Valid()
      modifies this`unsatisfiable
      ensures findings == TransitionFindings(config, true, |config.transitions|)
      ensures Marks(config, true, old(unsatisfiable), unsatisfiable)
    {
      var blocked;
      findings, blocked := CheckTransitions(true);
      Mark(blocked);
    }

    method ReachableBefore(target: string) returns (before: set<string>)
      requires Valid()
      ensures before == Preceding(config, target)
    {
      before := graph.AncestorsOf(target);
      AncestorsPrecede(config, target, before);
      before := before + {target};
    }

    /** L3: a boundary's target is not reachable around the boundary. */
    method L3BoundaryRouteAround() returns (findings: seq<Finding>)
      requires Valid()
      ensures ReportsBoundaries(config, findings)
    {
      findings := [];
      ghost var per: seq<seq<Finding>> := [];
      for i := 0 to |config.boundaries|
        invariant findings == Concat(per) && |per| == i && BoundaryVerdicts(config, per)
      {
        var more := CheckBoundary(config.boundaries[i]);
        findings := findings + more;
        assert (per + [more])[..i] == per;
        per := per + [more];
      }
    }

    method CheckBoundary(b: Boundary) returns (findings: seq<Finding>)
      requires Valid()
      ensures BoundaryVerdict(config, b, findings)
    {
      findings := UnknownEnd(config, b, b.from) + UnknownEnd(config, b, b.to);
      if b.from !in config.states || b.to !in config.states {
        return;
      }
      if !IsTagged(config, b.name) {
        return [Finding(Error, AtBoundary(b.name), Untagged)];
      }
      var pruned := new Graph.BuildFiltered(config, Outside(b.name));
      var path := pruned.PathBetween(b.from, b.to);
      if path.Some? {
        assert IsShortest(pruned.edges, b.from, b.to, path.value);
        findings := [Finding(Error, AtBoundary(b.name), Bypass(path.value))];
      }
    }

    /** L4: every non-terminal state has an exit that is not blocked. */
    method L4DeadEndStates() returns (findings: seq<Finding>)
      requires Valid()
      ensures ReportsDeadEnds(config, unsatisfiable, findings)
      ensures forall f :: f in findings <==> DeadEndFinding(config, unsatisfiable, f)
    {
      findings := [];
      var names := StateNames(config);
      assert forall i :: 0 <= i < |names| ==> names[i] in names;
      for k := 0 to |names|
        invariant findings == FindingsAt(config, unsatisfiable, names[..k])
      {
        assert names[..k + 1][..k] == names[..k];
        var found := CheckState(names[k]);
        findings := findings + found;
      }
      assert names[..|names|] == names;
      forall f ensures f in findings <==> DeadEndFinding(config, unsatisfiable, f) {
        FindingsAtHold(config, unsatisfiable, names, f);
      }
    }

    method CheckState(name: string) returns (found: seq<Finding>)
      requires Valid() && name in config.states
      ensures found == StateFindings(config, unsatisfiable, name)
    {
      found := [];
      if config.states[name].terminal {
        return;
      }
      var outgoing := Outgoing(name);
      if outgoing == [] {
        return [Finding(Error, AtState(name), NoExit)];
      }
      assert LeavesFrom(config, name, outgoing[0].index);
      var usable := 0;
      for k := 0 to |outgoing|
        invariant usable == 0 <==> forall j :: 0 <= j < k ==> outgoing[j].index in unsatisfiable
      {
        if outgoing[k].index !in unsatisfiable {
          usable := usable + 1;
        }
      }
      if usable == 0 {
        found := [Finding(Error, AtState(name), ExitsBlocked)];
      }
    }

    method Outgoing(name: string) returns (outgoing: seq<Edge>)
      requires Valid()
      ensures forall k :: 0 <= k < |outgoing| ==> LeavesFrom(config, name, outgoing[k].index)
      ensures forall i: nat :: LeavesFrom(config, name, i) ==> exists k :: 0 <= k < |outgoing| && outgoing[k].index == i
    {
      var ids := Ids(graph.out, name);
      PositionsAreExact(graph.edges, FROM_STATE, name);
      ExitsAreOutgoing(config, name, ids);
      assert forall k :: 0 <= k < |ids| ==> ids[k] < |graph.edges|;
      outgoing := seq(|ids|, k requires 0 <= k < |ids| && ids[k] < |graph.edges| => graph.edges[ids[k]]);
      forall i: nat | LeavesFrom(config, name, i) ensures exists k :: 0 <= k < |outgoing| && outgoing[k].index == i {
        var k :| 0 <= k < |ids| && ids[k] < |graph.edges| && graph.edges[ids[k]].index == i;
        assert outgoing[k].index == i;
      }
    }
  }

  /** The state names, sorted. */
  method StateNames(config: Config) returns (names: seq<string>)
    ensures ListsStates(config, names)
  {
    names := [];
    var left := config.states.Keys;
    while left != {}
      invariant left <= config.states.Keys && SortedNames(names)
      invariant forall name :: name in names <==> name in config.states && name !in left
      decreases left
    {
      var name :| name in left;
      InsertSorts(names, name);
      names := InsertName(names, name);
      left := left - {name};
    }
  }

  function InsertName(names: seq<string>, name: string): seq<string> {
    if names == [] || Less(name, names[0]) then [name] + names else [names[0]] + InsertName(names[1..], name)
  }

  lemma {:induction false} InsertSorts(names: seq<string>, name: string)
    requires SortedNames(names) && name !in names
    ensures SortedNames(InsertName(names, name))
    ensures forall x :: x in InsertName(names, name) <==> x == name || x in names
  {
    if names != [] {
      assert names == [names[0]] + names[1..];
      if Less(name, names[0]) {
        forall j | 0 < j < |names| ensures Less(name, names[j]) {
          LessIsTransitive(name, names[0], names[j]);
        }
      } else {
        LessIsTotal(name, names[0]);
        InsertSorts(names[1..], name);
        HeadIsLeast(names, InsertName(names[1..], name), name);
      }
    }
  }

  lemma HeadIsLeast(names: seq<string>, inner: seq<string>, name: string)
    requires names != [] && SortedNames(names) && Less(names[0], name)
    requires forall x :: x in inner <==> x == name || x in names[1..]
    ensures forall j :: 0 <= j < |inner| ==> Less(names[0], inner[j])
  {
    forall j | 0 <= j < |inner| ensures Less(names[0], inner[j]) {
      assert inner[j] in inner;
      if inner[j] != name {
        var k :| 0 <= k < |names[1..]| && names[1..][k] == inner[j];
      }
    }
  }

  function Tag(i: nat, reasons: seq<Cause>): seq<(nat, Cause)> {
    seq(|reasons|, k requires 0 <= k < |reasons| => (i, reasons[k]))
  }

  /** The four checks in the order `run` makes them: L4 reads what L1 and L2 marked. */
  method RunChecks(config: Config)
    returns (l1: seq<Finding>, l2: seq<Finding>, l3: seq<Finding>, l4: seq<Finding>, blocked: Unsatisfiable)
    ensures blocked.Keys == Blocked(config, false, |config.transitions|) + Blocked(config, true, |config.transitions|)
    ensures l1 == TransitionFindings(config, false, |config.transitions|) + HookFindings(config, config.hooks)
    ensures l2 == TransitionFindings(config, true, |config.transitions|)
    ensures ReportsBoundaries(config, l3)
    ensures ReportsDeadEnds(config, blocked, l4)
    ensures forall f :: f in l4 <==> DeadEndFinding(config, blocked, f)
  {
    var analysis;
    l1, l2, analysis := RunMarkingChecks(config);
    l3 := analysis.L3BoundaryRouteAround();
    l4 := analysis.L4DeadEndStates();
    blocked := analysis.unsatisfiable;
  }

  method RunMarkingChecks(config: Config) returns (l1: seq<Finding>, l2: seq<Finding>, analysis: Analysis)
    ensures fresh(analysis) && analysis.config == config && analysis.Valid()
    ensures analysis.unsatisfiable.Keys == Blocked(config, false, |config.transitions|) + Blocked(config, true, |config.transitions|)
    ensures l1 == TransitionFindings(config, false, |config.transitions|) + HookFindings(config, config.hooks)
    ensures l2 == TransitionFindings(config, true, |config.transitions|)
  {
    analysis := new Analysis(config);
    l1 := analysis.L1UnsatisfiableGates();
    l2 := analysis.L2TemporallyUnsatisfiable();
  }

  /** The transitions named in a list of blockers. */
  function Indices(blocked: seq<(nat, Cause)>): set<nat> {
    if blocked == [] then {}
    else
      var n := |blocked| - 1;
      Indices(blocked[..n]) + {blocked[n].0}
  }

  lemma {:induction false} TagIndices(blocked: seq<(nat, Cause)>, i: nat, reasons: seq<Cause>)
    ensures Indices(blocked + Tag(i, reasons)) == Indices(blocked) + if reasons == [] then {} else {i}
  {
    if reasons == [] {
      assert blocked + Tag(i, reasons) == blocked;
    } else {
      var n := |reasons| - 1;
      TagIndices(blocked, i, reasons[..n]);
      assert (blocked + Tag(i, reasons))[..|blocked| + n] == blocked + Tag(i, reasons[..n]);
    }
  }

  /** The first reason listed for a transition. */
  function First(blocked: seq<(nat, Cause)>, i: nat): Option<Cause> {
    if blocked == [] then None
    else
      var n := |blocked| - 1;
      if First(blocked[..n], i).Some? then First(blocked[..n], i)
      else if blocked[n].0 == i then Some(blocked[n].1) else None
  }

  lemma {:induction false} FirstIsIndexed(blocked: seq<(nat, Cause)>, i: nat)
    ensures First(blocked, i).Some? <==> i in Indices(blocked)
  {
    if blocked != [] {
      FirstIsIndexed(blocked[..|blocked| - 1], i);
    }
  }

  lemma {:induction false} FirstTagged(blocked: seq<(nat, Cause)>, i: nat, reasons: seq<Cause>, k: nat)
    ensures First(blocked + Tag(i, reasons), k)
         == if First(blocked, k).Some? then First(blocked, k) else if k == i && reasons != [] then Some(reasons[0]) else None
    decreases |reasons|
  {
    if reasons == [] {
      assert blocked + Tag(i, reasons) == blocked;
    } else {
      var n := |reasons| - 1;
      FirstTagged(blocked, i, reasons[..n], k);
      assert (blocked + Tag(i, reasons))[..|blocked| + n] == blocked + Tag(i, reasons[..n]);
    }
  }

  /** The first listed reason of each transition before `n` is its first error. */
  ghost predicate AreReasons(config: Config, timing: bool, n: nat, blocked: seq<(nat, Cause)>) {
    n <= |config.transitions| && forall k: nat :: k < n ==> First(blocked, k) == Reason(config, timing, k)
  }

  lemma MoreReasons(config: Config, timing: bool, n: nat, blocked: seq<(nat, Cause)>, reasons: seq<Cause>)
    requires n < |config.transitions| && AreReasons(config, timing, n, blocked)
    requires Indices(blocked) == Blocked(config, timing, n) && reasons == ErrorCauses(OneTransition(config, timing, n))
    ensures AreReasons(config, timing, n + 1, blocked + Tag(n, reasons))
  {
    FirstIsIndexed(blocked, n);
    forall k: nat | k < n + 1 ensures First(blocked + Tag(n, reasons), k) == Reason(config, timing, k) {
      FirstTagged(blocked, n, reasons, k);
    }
  }

  lemma AncestorsPrecede(config: Config, target: string, ancestors: set<string>)
    requires forall s :: s in ancestors <==> Reaches(Edges(config), s, target)
    ensures ancestors + {target} == Preceding(config, target)
  {
    forall s | s in ancestors ensures s in Preceding(config, target) {
      var path: seq<Edge> :| path != [] && IsPath(Edges(config), s, target, path);
      assert path[0] in Edges(config) && path[0].from == s;
    }
  }

  /** Some listed position is that of transition `i`'s edge. */
  ghost predicate ListsExit(edges: seq<Edge>, outgoing: seq<nat>, i: nat) {
    exists k :: 0 <= k < |outgoing| && outgoing[k] < |edges| && edges[outgoing[k]].index == i
  }

  lemma ExitsAreOutgoing(config: Config, name: string, outgoing: seq<nat>)
    requires forall k: nat :: k in outgoing <==> k < |Edges(config)| && Edges(config)[k].from == name
    ensures forall k :: 0 <= k < |outgoing| ==> outgoing[k] < |Edges(config)| && LeavesFrom(config, name, Edges(config)[outgoing[k]].index)
    ensures forall i: nat :: LeavesFrom(config, name, i) ==> ListsExit(Edges(config), outgoing, i)
  {
    KeptEdgesAreExact(config.transitions, KEEP_ALL);
    var edges := Edges(config);
    forall k | 0 <= k < |outgoing| ensures outgoing[k] < |edges| && LeavesFrom(config, name, edges[outgoing[k]].index) {
      assert outgoing[k] in outgoing;
      assert edges[outgoing[k]] in edges;
    }
    forall i: nat | LeavesFrom(config, name, i) ensures ListsExit(edges, outgoing, i) {
      var e := EdgeOf(config.transitions[i], i);
      assert e in edges;
      var j :| 0 <= j < |edges| && edges[j] == e;
      assert j in outgoing;
    }
  }

  // ---------------------------------------------------------------------------
  // What the verdicts mean
  // ---------------------------------------------------------------------------

  /** Nothing the engine can see records the event, and the protocol promises
      that nothing else may. */
  predicate Unproducible(config: Config, r: EventRef) {
    && r.required && !IsEngineEvent(r.event) && r.event in config.events
    && ProducersOf(config, r.event) == []
    && (config.events[r.event].restricted || config.requireProducers)
  }

  /** The event is recorded, but never in a state that precedes `target`. */
  ghost predicate TooLate(config: Config, r: EventRef, target: string) {
    && r.required && !IsEngineEvent(r.event) && ProducersOf(config, r.event) != []
    && forall s :: CanRunIn(config, r.event, s) ==> s !in Preceding(config, target)
  }

  ghost predicate Faulted(config: Config, timing: bool, t: Transition, r: EventRef) {
    r in GateRefsOf(t) && !r.disjunctive && if timing then TooLate(config, r, t.from) else Unproducible(config, r)
  }

  lemma TimingVerdict(config: Config, r: EventRef, target: string)
    ensures Verdict(config, InTime(Preceding(config, target)), r).Some? <==> TooLate(config, r, target)
  {
    var before := Preceding(config, target);
    var ps := ProducersOf(config, r.event);
    if p :| p in ps && Usable(p, before) {
      var s := if p.window.None? then target else var w :| w in p.window.value && w in before; w;
      assert CanRunIn(config, r.event, s) && s in before;
    }
    if s :| CanRunIn(config, r.event, s) && s in before {
      var p :| p in ps && (p.window.None? || s in p.window.value);
      assert Usable(p, before);
    }
  }

  lemma ErrorIsFault(config: Config, timing: bool, t: Transition, location: Location, r: EventRef)
    requires r in GateRefsOf(t)
    ensures (exists f :: f in ReportOne(config, CheckOn(config, timing, t), location, r) && f.severity == Error)
       <==> Faulted(config, timing, t, r)
  {
    if timing {
      TimingVerdict(config, r, t.from);
    }
    var fs := ReportOne(config, CheckOn(config, timing, t), location, r);
    if Faulted(config, timing, t, r) {
      assert fs[0] in fs;
    }
  }

  /** A check blocks a transition exactly when one of its gates requires, without
      an alternative, an event that cannot be recorded (in time). */
  lemma BlockedMeansFaulted(config: Config, timing: bool, i: nat)
    requires i < |config.transitions|
    ensures i in Blocked(config, timing, |config.transitions|) <==> exists r :: Faulted(config, timing, config.transitions[i], r)
  {
    var t := config.transitions[i];
    var check := CheckOn(config, timing, t);
    ErrorCausesAreErrors(OneTransition(config, timing, i));
    forall f ensures f in OneTransition(config, timing, i) <==>
      exists r :: r in GateRefsOf(t) && f in ReportOne(config, check, AtTransition(i), r)
    {
      ReportHolds(config, check, AtTransition(i), GateRefsOf(t), f);
    }
    forall r | r in GateRefsOf(t)
      ensures (exists f :: f in ReportOne(config, check, AtTransition(i), r) && f.severity == Error) <==> Faulted(config, timing, t, r)
    {
      ErrorIsFault(config, timing, t, AtTransition(i), r);
    }
  }

  ghost predicate HasErrorAt(fs: seq<Finding>, i: nat) {
    exists f :: f in fs && f.severity == Error && f.location == AtTransition(i)
  }

  lemma ErrorOfOne(config: Config, timing: bool, k: nat, i: nat)
    requires k < |config.transitions|
    ensures HasErrorAt(OneTransition(config, timing, k), i) <==> i == k && BlocksAt(config, timing, k)
  {
    var t := config.transitions[k];
    var fs := OneTransition(config, timing, k);
    forall f | f in fs ensures f.location == AtTransition(k) {
      ReportHolds(config, CheckOn(config, timing, t), AtTransition(k), GateRefsOf(t), f);
    }
    ErrorCausesAreErrors(fs);
  }

  lemma {:induction false} FindingsComeFrom(config: Config, timing: bool, n: nat, f: Finding) returns (k: nat)
    requires n <= |config.transitions| && f in TransitionFindings(config, timing, n)
    ensures k < n && f in OneTransition(config, timing, k)
  {
    if f in TransitionFindings(config, timing, n - 1) {
      k := FindingsComeFrom(config, timing, n - 1, f);
    } else {
      k := n - 1;
    }
  }

  lemma {:induction false} FindingsAreReported(config: Config, timing: bool, n: nat, k: nat, f: Finding)
    requires k < n <= |config.transitions| && f in OneTransition(config, timing, k)
    ensures f in TransitionFindings(config, timing, n)
  {
    if k < n - 1 {
      FindingsAreReported(config, timing, n - 1, k, f);
    }
  }

  /** A check reports an error at a transition exactly when it blocks it. */
  lemma ErrorIffBlocked(config: Config, timing: bool, i: nat)
    ensures HasErrorAt(TransitionFindings(config, timing, |config.transitions|), i) <==> i in Blocked(config, timing, |config.transitions|)
  {
    var n := |config.transitions|;
    var fs := TransitionFindings(config, timing, n);
    if HasErrorAt(fs, i) {
      var f :| f in fs && f.severity == Error && f.location == AtTransition(i);
      var k := FindingsComeFrom(config, timing, n, f);
      ErrorOfOne(config, timing, k, i);
      assert HasErrorAt(OneTransition(config, timing, k), i);
    }
    if i in Blocked(config, timing, n) {
      ErrorOfOne(config, timing, i, i);
      var f :| f in OneTransition(config, timing, i) && f.severity == Error && f.location == AtTransition(i);
      FindingsAreReported(config, timing, n, i, f);
    }
  }

  /** Removing the tagged edges leaves exactly the paths that cross none of them. */
  lemma {:induction false} UntaggedRuns(config: Config, name: string, a: string, b: string, path: seq<Edge>)
    ensures IsPath(UntaggedEdges(config, name), a, b, path) <==>
      && IsPath(Edges(config), a, b, path)
      && forall k :: 0 <= k < |path| ==> path[k].index < |config.transitions| && config.transitions[path[k].index].boundary != Some(name)
    decreases |path|
  {
    if path != [] {
      KeptEdgesAreExact(config.transitions, KEEP_ALL);
      KeptEdgesAreExact(config.transitions, Outside(name));
      UntaggedRuns(config, name, path[0].to, b, path[1..]);
      assert forall k :: 0 < k < |path| ==> path[k] == path[1..][k - 1];
    }
  }

  /** A path of one or more transitions from the boundary's start to its target
      that crosses no tagged transition. */
  ghost predicate RoutesAround(config: Config, b: Boundary, path: seq<Edge>) {
    && path != [] && IsPath(Edges(config), b.from, b.to, path)
    && forall k :: 0 <= k < |path| ==> path[k].index < |config.transitions| && config.transitions[path[k].index].boundary != Some(b.name)
  }

  /** L3 is exact: on declared states and a tagged boundary it is silent if and
      only if no path routes around, and otherwise shows a shortest such path. */
  lemma BoundaryVerdictIsExact(config: Config, b: Boundary, fs: seq<Finding>)
    requires b.from in config.states && b.to in config.states && IsTagged(config, b.name)
    requires BoundaryVerdict(config, b, fs)
    ensures fs == [] <==> !exists path :: RoutesAround(config, b, path)
    ensures fs != [] ==> |fs| == 1 && fs[0].severity == Error && fs[0].cause.Bypass? && RoutesAround(config, b, fs[0].cause.path)
    ensures fs != [] ==> forall q :: RoutesAround(config, b, q) ==> |fs[0].cause.path| <= |q|
  {
    forall path: seq<Edge>
      ensures RoutesAround(config, b, path) <==> path != [] && IsPath(UntaggedEdges(config, b.name), b.from, b.to, path)
    {
      UntaggedRuns(config, b.name, b.from, b.to, path);
    }
    if path :| RoutesAround(config, b, path) {
      assert Reaches(UntaggedEdges(config, b.name), b.from, b.to);
    }
  }

  /** On undeclared states L3 reports each of them, and on an untagged boundary that. */
  lemma UndeclaredBoundary(config: Config, b: Boundary, fs: seq<Finding>)
    requires BoundaryVerdict(config, b, fs)
    ensures b.from !in config.states && b.to in config.states ==> fs == [Finding(Error, AtBoundary(b.name), UnknownState(b.from))]
    ensures b.from in config.states && b.to !in config.states ==> fs == [Finding(Error, AtBoundary(b.name), UnknownState(b.to))]
    ensures b.from !in config.states && b.to !in config.states ==>
      fs == [Finding(Error, AtBoundary(b.name), UnknownState(b.from)), Finding(Error, AtBoundary(b.name), UnknownState(b.to))]
    ensures b.from in config.states && b.to in config.states && (forall t :: t in config.transitions ==> t.boundary != Some(b.name)) ==>
      fs == [Finding(Error, AtBoundary(b.name), Untagged)]
  {
    if i :| 0 <= i < |config.transitions| && config.transitions[i].boundary == Some(b.name) {
      assert config.transitions[i] in config.transitions;
    }
  }
}
