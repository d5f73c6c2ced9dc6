/** Lint's verdicts (src/lint/checks.rs) over the runs of a protocol. L1 and L2
    speak of the producers in the index; a run can also be written to by hand.
    Each result says what it asks of the run. */
module LintSoundness {
  import opened Wrappers
  import opened ProtocolConfig
  import opened LedgerEntries
  import opened Graphs
  import opened GateFilters
  import opened Gates
  import opened GateRefs
  import opened Polarity
  import opened RunState
  import opened Producers
  import opened Lint
  import opened ProtocolRuns

  // ---------------------------------------------------------------------------
  // What is asked of a run
  // ---------------------------------------------------------------------------

  type StepRule = (System, Step) -> bool

  /** Every step of the run, in the system it finds, obeys the rule. */
  ghost predicate Throughout(config: Config, initial: string, start: System, steps: seq<Step>, rule: StepRule) {
    steps != [] ==>
      var n := |steps| - 1;
      && Throughout(config, initial, start, steps[..n], rule)
      && rule(Run(config, initial, start, steps[..n]), steps[n])
  }

  lemma {:induction false} ThroughoutImplies(config: Config, initial: string, start: System, steps: seq<Step>,
      rule: StepRule, weaker: StepRule)
    requires Throughout(config, initial, start, steps, rule)
    requires forall s, step :: rule(s, step) && AllJustified(config, initial, s) ==> weaker(s, step)
    requires Start(start)
    ensures Throughout(config, initial, start, steps, weaker)
    decreases |steps|
  {
    if steps != [] {
      var n := |steps| - 1;
      ThroughoutImplies(config, initial, start, steps[..n], rule, weaker);
      EveryRunIsJustified(config, initial, start, steps[..n]);
    }
  }

  /** The producer can run in the state the prefix leaves the run in, as the
      machine reads it or as hooks do. */
  predicate OpenAfter(p: Producer, initial: string, prefix: seq<LedgerEntry>) {
    || p.window.None?
    || CurrentState(initial, prefix) in p.window.value
    || LastTarget(initial, prefix) in p.window.value
  }

  ghost predicate HasProducer(config: Config, initial: string, prefix: seq<LedgerEntry>, event: string) {
    exists p :: p in ProducersOf(config, event) && OpenAfter(p, initial, prefix)
  }

  ghost predicate ClosedAt(config: Config, initial: string, event: string, s: System, step: Step) {
    step.Record? && step.entry.eventType == event && MayRecord(config, initial, s.ledger, step.entry, step.seen, step.writer) ==>
      HasProducer(config, initial, s.ledger[..step.seen], event)
  }

  /** Producer closure for one event: whoever records it is one of its indexed
      producers, looking at a state of that producer's window. */
  ghost function ClosedFor(config: Config, initial: string, event: string): StepRule {
    (s: System, step: Step) => ClosedAt(config, initial, event, s, step)
  }

  ghost predicate StraightAt(config: Config, initial: string, s: System, step: Step) {
    var more := Appended(config, initial, s, step);
    forall i :: 0 <= i < |more| && IsMove(more[i]) ==> step.Commit? && i == 0
  }

  /** The machine moves only by the transitions it commits. */
  ghost function Straight(config: Config, initial: string): StepRule {
    (s: System, step: Step) => StraightAt(config, initial, s, step)
  }

  ghost predicate SignedProperlyAt(config: Config, initial: string, s: System, step: Step) {
    step.Record? && (step.writer.ByProof? || step.writer.ByDaemon?)
    && MayRecord(config, initial, s.ledger, step.entry, step.seen, step.writer) ==>
      !IsMove(step.entry) && HasProducer(config, initial, s.ledger[..step.seen], step.entry.eventType)
  }

  /** The one thing the engine cannot check: that whoever holds a proof or is
      trusted by the daemon is a declared producer of what it records, keeps to
      that producer's window, and does not write transitions. */
  ghost function SignersKeepWindows(config: Config, initial: string): StepRule {
    (s: System, step: Step) => SignedProperlyAt(config, initial, s, step)
  }

  /** The declaration that keeps callers, hooks and emits from writing transitions. */
  ghost predicate MovesAreGuarded(config: Config) {
    Restricted(config, STATE_TRANSITION) && NoHookMoves(config)
  }

  ghost predicate NoHookMoves(config: Config) {
    forall i :: 0 <= i < |config.hooks| && config.hooks[i].autoRecord == Some(STATE_TRANSITION) ==> !CanMatch(config.hooks[i])
  }

  /** Some state passes the hook's state filters. */
  ghost predicate CanMatch(hook: Hook) {
    exists state :: Admits(hook, state)
  }

  // ---------------------------------------------------------------------------
  // What such runs keep
  // ---------------------------------------------------------------------------

  /** By entry `i` the run had been in a state where a producer of `event` can run. */
  ghost predicate WitnessedAt(config: Config, initial: string, ledger: seq<LedgerEntry>, event: string, i: nat) {
    exists m :: 0 <= m <= i && m <= |ledger| && CanRunIn(config, event, StateAt(initial, ledger, m))
  }

  ghost predicate Witnessed(config: Config, initial: string, ledger: seq<LedgerEntry>, event: string) {
    forall i :: 0 <= i < |ledger| && ledger[i].eventType == event ==> WitnessedAt(config, initial, ledger, event, i)
  }

  lemma WitnessedAppends(config: Config, initial: string, ledger: seq<LedgerEntry>, more: seq<LedgerEntry>,
      event: string, m: nat)
    requires Witnessed(config, initial, ledger, event) && m <= |ledger|
    requires (forall i :: 0 <= i < |more| ==> more[i].eventType != event) || CanRunIn(config, event, StateAt(initial, ledger, m))
    ensures Witnessed(config, initial, ledger + more, event)
  {
    var longer := ledger + more;
    forall i | 0 <= i < |longer| && longer[i].eventType == event ensures WitnessedAt(config, initial, longer, event, i) {
      if i < |ledger| {
        var w :| 0 <= w <= i && CanRunIn(config, event, StateAt(initial, ledger, w));
        PrefixKeepsState(initial, ledger, more, w);
      } else {
        PrefixKeepsState(initial, ledger, more, m);
      }
    }
  }

  /** A producer open after a prefix can run in a state of that prefix. */
  lemma OpenWasVisited(config: Config, initial: string, ledger: seq<LedgerEntry>, seen: nat, event: string) returns (m: nat)
    requires seen <= |ledger| && HasProducer(config, initial, ledger[..seen], event)
    ensures m <= seen && CanRunIn(config, event, StateAt(initial, ledger, m))
  {
    var p :| p in ProducersOf(config, event) && OpenAfter(p, initial, ledger[..seen]);
    m := seen;
    if p.window.Some? && CurrentState(initial, ledger[..seen]) !in p.window.value {
      m := LastTargetWasVisited(initial, ledger[..seen]);
      assert ledger[..seen][..m] == ledger[..m];
      assert StateAt(initial, ledger, m) == LastTarget(initial, ledger[..seen]);
    }
    assert p.window.None? || StateAt(initial, ledger, m) in p.window.value;
  }

  lemma StepKeepsWitnessed(config: Config, initial: string, s: System, step: Step, event: string)
    requires Witnessed(config, initial, s.ledger, event) && AllJustified(config, initial, s)
    requires !IsEngineEvent(event) && ClosedAt(config, initial, event, s, step)
    ensures Witnessed(config, initial, Apply(config, initial, s, step).ledger, event)
  {
    var more := Appended(config, initial, s, step);
    if i :| 0 <= i < |more| && more[i].eventType == event {
      if step.Record? {
        var m := OpenWasVisited(config, initial, s.ledger, step.seen, event);
        WitnessedAppends(config, initial, s.ledger, more, event, m);
      } else {
        var m := CommitWitness(config, initial, s, step, event, i);
        WitnessedAppends(config, initial, s.ledger, more, event, m);
      }
    } else {
      WitnessedAppends(config, initial, s.ledger, more, event, 0);
    }
  }

  lemma CommitWitness(config: Config, initial: string, s: System, step: Step, event: string, i: nat) returns (m: nat)
    requires AllJustified(config, initial, s) && step.Commit? && !IsEngineEvent(event)
    requires i < |Appended(config, initial, s, step)| && Appended(config, initial, s, step)[i].eventType == event
    ensures m <= |s.ledger| && CanRunIn(config, event, StateAt(initial, s.ledger, m))
  {
    var p := s.prepared[step.pid];
    assert Justified(config, initial, s.ledger, p);
    EmitterCanRun(config, p.index, event);
    m := |s.ledger|;
    assert s.ledger[..m] == s.ledger;
  }

  lemma {:induction false} ClosedRunIsWitnessed(config: Config, initial: string, start: System, steps: seq<Step>,
      event: string)
    requires Start(start) && !IsEngineEvent(event)
    requires Throughout(config, initial, start, steps, ClosedFor(config, initial, event))
    ensures Witnessed(config, initial, Run(config, initial, start, steps).ledger, event)
    decreases |steps|
  {
    if steps != [] {
      var n := |steps| - 1;
      ClosedRunIsWitnessed(config, initial, start, steps[..n], event);
      EveryRunIsJustified(config, initial, start, steps[..n]);
      StepKeepsWitnessed(config, initial, Run(config, initial, start, steps[..n]), steps[n], event);
    }
  }

  /** Every state the run was in leads to every state it was in later. */
  ghost predicate Connected(config: Config, initial: string, ledger: seq<LedgerEntry>) {
    forall m, n :: 0 <= m <= n <= |ledger| ==> Leads(Edges(config), StateAt(initial, ledger, m), StateAt(initial, ledger, n))
  }

  predicate NoMoves(es: seq<LedgerEntry>) {
    forall i :: 0 <= i < |es| ==> !IsMove(es[i])
  }

  lemma TransitionLeads(config: Config, index: nat)
    requires index < |config.transitions|
    ensures Leads(Edges(config), config.transitions[index].from, config.transitions[index].to)
  {
    AllEdges(config.transitions);
    EdgeLeads(Edges(config), Edges(config)[index]);
  }

  /** Every earlier state leads to the one the move lands in. */
  lemma LeadsToLanding(config: Config, initial: string, ledger: seq<LedgerEntry>, e: LedgerEntry, m: nat)
    requires Connected(config, initial, ledger) && m <= |ledger|
    requires Leads(Edges(config), CurrentState(initial, ledger), CurrentState(initial, ledger + [e]))
    ensures Leads(Edges(config), StateAt(initial, ledger, m), CurrentState(initial, ledger + [e]))
  {
    assert ledger[..|ledger|] == ledger;
    assert Leads(Edges(config), StateAt(initial, ledger, m), StateAt(initial, ledger, |ledger|));
    LeadsTransitive(Edges(config), StateAt(initial, ledger, m), CurrentState(initial, ledger), CurrentState(initial, ledger + [e]));
  }

  lemma ConnectedMove(config: Config, initial: string, ledger: seq<LedgerEntry>, e: LedgerEntry)
    requires Connected(config, initial, ledger)
    requires Leads(Edges(config), CurrentState(initial, ledger), CurrentState(initial, ledger + [e]))
    ensures Connected(config, initial, ledger + [e])
  {
    var longer := ledger + [e];
    var last := |ledger| + 1;
    assert longer[..last] == longer;
    forall m: nat | m < last ensures StateAt(initial, longer, m) == StateAt(initial, ledger, m) {
      PrefixKeepsState(initial, ledger, [e], m);
    }
    forall m, n | 0 <= m <= n <= last
      ensures Leads(Edges(config), StateAt(initial, longer, m), StateAt(initial, longer, n))
    {
      if m < last && n == last {
        LeadsToLanding(config, initial, ledger, e, m);
      }
    }
  }

  /** While nothing moves the machine, it stays where it was. */
  lemma QuietState(initial: string, ledger: seq<LedgerEntry>, es: seq<LedgerEntry>, n: nat)
    requires n <= |ledger| + |es| && NoMoves(es)
    ensures StateAt(initial, ledger + es, n) == StateAt(initial, ledger, if n <= |ledger| then n else |ledger|)
  {
    if n <= |ledger| {
      PrefixKeepsState(initial, ledger, es, n);
    } else {
      assert (ledger + es)[..n] == ledger + es[..n - |ledger|];
      StateAfter(initial, ledger, es[..n - |ledger|]);
      assert ledger[..|ledger|] == ledger;
    }
  }

  lemma ConnectedQuiet(config: Config, initial: string, ledger: seq<LedgerEntry>, es: seq<LedgerEntry>)
    requires Connected(config, initial, ledger) && NoMoves(es)
    ensures Connected(config, initial, ledger + es)
  {
    var longer := ledger + es;
    forall m, n | 0 <= m <= n <= |longer|
      ensures Leads(Edges(config), StateAt(initial, longer, m), StateAt(initial, longer, n))
    {
      QuietState(initial, ledger, es, m);
      QuietState(initial, ledger, es, n);
    }
  }

  lemma StepKeepsConnected(config: Config, initial: string, s: System, step: Step)
    requires Connected(config, initial, s.ledger) && AllJustified(config, initial, s)
    requires StraightAt(config, initial, s, step)
    ensures Connected(config, initial, Apply(config, initial, s, step).ledger)
  {
    var more := Appended(config, initial, s, step);
    if step.Commit? && more != [] {
      CommitKeepsConnected(config, initial, s, step);
    } else {
      ConnectedQuiet(config, initial, s.ledger, more);
    }
  }

  lemma CommitKeepsConnected(config: Config, initial: string, s: System, step: Step)
    requires Connected(config, initial, s.ledger) && AllJustified(config, initial, s)
    requires StraightAt(config, initial, s, step) && step.Commit? && Appended(config, initial, s, step) != []
    ensures Connected(config, initial, s.ledger + Appended(config, initial, s, step))
  {
    var p := s.prepared[step.pid];
    var tail := step.attested + step.emitted;
    assert Justified(config, initial, s.ledger, p);
    assert [step.moved] + step.attested + step.emitted == [step.moved] + tail;
    TailIsQuiet(config, initial, s, step, tail);
    MoveKeepsConnected(config, initial, s.ledger, p.index, step.moved, tail);
  }

  lemma MoveKeepsConnected(config: Config, initial: string, ledger: seq<LedgerEntry>, index: nat, moved: LedgerEntry,
      tail: seq<LedgerEntry>)
    requires Connected(config, initial, ledger) && NoMoves(tail) && index < |config.transitions|
    requires CurrentState(initial, ledger) == config.transitions[index].from
    requires Target(moved) == Some(config.transitions[index].to)
    ensures Connected(config, initial, ledger + ([moved] + tail))
  {
    TransitionLeads(config, index);
    StateSnoc(initial, ledger, moved);
    ConnectedMove(config, initial, ledger, moved);
    ConnectedQuiet(config, initial, ledger + [moved], tail);
    assert ledger + ([moved] + tail) == ledger + [moved] + tail;
  }

  lemma TailIsQuiet(config: Config, initial: string, s: System, step: Step, tail: seq<LedgerEntry>)
    requires step.Commit? && Appended(config, initial, s, step) == [step.moved] + tail
    requires StraightAt(config, initial, s, step)
    ensures NoMoves(tail)
  {
    forall i | 0 <= i < |tail| ensures !IsMove(tail[i]) {
      assert tail[i] == ([step.moved] + tail)[i + 1];
    }
  }

  lemma StartIsConnected(config: Config, initial: string, s: System)
    requires Start(s)
    ensures Connected(config, initial, s.ledger)
  {
    forall n | 0 <= n <= |s.ledger| ensures StateAt(initial, s.ledger, n) == initial {
      StateAfter(initial, [], s.ledger[..n]);
      assert [] + s.ledger[..n] == s.ledger[..n];
    }
  }

  lemma {:induction false} StraightRunIsConnected(config: Config, initial: string, start: System, steps: seq<Step>)
    requires Start(start) && Throughout(config, initial, start, steps, Straight(config, initial))
    ensures Connected(config, initial, Run(config, initial, start, steps).ledger)
    decreases |steps|
  {
    if steps == [] {
      StartIsConnected(config, initial, start);
    } else {
      var n := |steps| - 1;
      StraightRunIsConnected(config, initial, start, steps[..n]);
      EveryRunIsJustified(config, initial, start, steps[..n]);
      StepKeepsConnected(config, initial, Run(config, initial, start, steps[..n]), steps[n]);
    }
  }

  // ---------------------------------------------------------------------------
  // L1 and L2
  // ---------------------------------------------------------------------------

  /** The gates the polarity walk reads soundly: clean shapes and usable leaves. */
  ghost predicate WellShaped(config: Config, t: Transition) {
    forall i :: 0 <= i < |t.gates| ==> Clean(t.gates[i], true) && LeavesOk(t.gates[i], config)
  }

  /** L1, or L2 when `timing`, marks transition `i` because of `event`. */
  ghost predicate MarkedOn(config: Config, timing: bool, i: nat, event: string) {
    i < |config.transitions| && exists r :: Faulted(config, timing, config.transitions[i], r) && r.event == event
  }

  /** A faulted event is on no ledger a run holds in the transition's source. */
  lemma FaultedEventIsAbsent(config: Config, initial: string, ledger: seq<LedgerEntry>, seen: nat, timing: bool,
                             t: Transition, r: EventRef)
    requires Witnessed(config, initial, ledger, r.event) && seen <= |ledger| && Faulted(config, timing, t, r)
    requires timing ==> Connected(config, initial, ledger) && CurrentState(initial, ledger[..seen]) == t.from
    ensures NoEntry(ledger[..seen], r.event)
  {
    forall i | 0 <= i < seen ensures ledger[i].eventType != r.event {
      if ledger[i].eventType == r.event {
        var m :| 0 <= m <= i && CanRunIn(config, r.event, StateAt(initial, ledger, m));
        if timing {
          assert Leads(Edges(config), StateAt(initial, ledger, m), StateAt(initial, ledger, seen));
          LeadsIsPreceding(config, StateAt(initial, ledger, m), t.from);
        }
        assert false;
      }
    }
  }

  lemma LeadsIsPreceding(config: Config, a: string, target: string)
    requires Leads(Edges(config), a, target)
    ensures a in Preceding(config, target)
  {
    if a != target {
      var path: seq<Edge> :| path != [] && IsPath(Edges(config), a, target, path);
      assert path[0] in Edges(config) && path[0].from == a;
    }
  }

  /** The reference lint faulted comes from one of the gates. */
  lemma FaultedGate(config: Config, timing: bool, t: Transition, r: EventRef) returns (i: nat)
    requires Faulted(config, timing, t, r)
    ensures i < |t.gates| && Demands(t.gates[i], true, r.event)
  {
    AllRefsAreExact(t.gates, true, false, r);
    i :| 0 <= i < |t.gates| && r in Refs(t.gates[i], true, false);
    assert r == EventRef(r.event, true, false);
  }

  /** No process, however stale its copy, finds all gates of a marked transition passing. */
  lemma MarkedIsNeverPrepared(config: Config, initial: string, ledger: seq<LedgerEntry>, timing: bool, i: nat,
      event: string, seen: nat, ctx: Context)
    requires MarkedOn(config, timing, i, event) && WellShaped(config, config.transitions[i])
    requires Witnessed(config, initial, ledger, event) && (timing ==> Connected(config, initial, ledger))
    ensures !MayPrepare(config, initial, ledger, i, seen, ctx)
  {
    if MayPrepare(config, initial, ledger, i, seen, ctx) {
      var t := config.transitions[i];
      var r :| Faulted(config, timing, t, r) && r.event == event;
      FaultedEventIsAbsent(config, initial, ledger, seen, timing, t, r);
      var g := FaultedGate(config, timing, t, r);
      PolarityIsSound(t.gates[g], true, event, ctx);
    }
  }

  lemma MarkedNeverFiresHere(config: Config, initial: string, s: System, timing: bool, i: nat, event: string, step: Step)
    requires MarkedOn(config, timing, i, event) && WellShaped(config, config.transitions[i])
    requires Witnessed(config, initial, s.ledger, event) && (timing ==> Connected(config, initial, s.ledger))
    requires AllJustified(config, initial, s)
    ensures !Fires(config, initial, s, step, i)
  {
    if Fires(config, initial, s, step, i) {
      assert Justified(config, initial, s.ledger, s.prepared[step.pid]);
      var seen: nat, ctx: Context :| MayPrepare(config, initial, s.ledger, i, seen, ctx);
      MarkedIsNeverPrepared(config, initial, s.ledger, timing, i, event, seen, ctx);
    }
  }

  /** A marked transition never fires in a run that is closed for the event it is
      marked on; for L2 the machine must also move only by its transitions. */
  lemma MarkedNeverFires(config: Config, initial: string, start: System, steps: seq<Step>, timing: bool, i: nat,
      event: string, step: Step)
    requires Start(start) && MarkedOn(config, timing, i, event) && WellShaped(config, config.transitions[i])
    requires Throughout(config, initial, start, steps, ClosedFor(config, initial, event))
    requires timing ==> Throughout(config, initial, start, steps, Straight(config, initial))
    ensures !Fires(config, initial, Run(config, initial, start, steps), step, i)
  {
    ClosedRunIsWitnessed(config, initial, start, steps, event);
    if timing {
      StraightRunIsConnected(config, initial, start, steps);
    }
    EveryRunIsJustified(config, initial, start, steps);
    MarkedNeverFiresHere(config, initial, Run(config, initial, start, steps), timing, i, event, step);
  }

  // ---------------------------------------------------------------------------
  // What the declaration alone guarantees
  // ---------------------------------------------------------------------------

  lemma HookIsProducer(config: Config, initial: string, prefix: seq<LedgerEntry>, i: nat, event: string)
    requires i < |config.hooks| && config.hooks[i].autoRecord == Some(event)
    requires Admits(config.hooks[i], LastTarget(initial, prefix))
    ensures HasProducer(config, initial, prefix, event)
  {
    var p := FromHook(config.hooks[i], i);
    assert IsHook(config.hooks, i, event, p);
    ProducersAreExact(config, event, p);
    assert OpenAfter(p, initial, prefix);
  }

  /** Nobody records a restricted event by hand, and hooks are producers. */
  lemma RestrictedStepIsClosed(config: Config, initial: string, event: string, s: System, step: Step)
    requires Restricted(config, event) && !IsEngineEvent(event) && SignedProperlyAt(config, initial, s, step)
    ensures ClosedAt(config, initial, event, s, step)
  {
    if step.Record? && step.entry.eventType == event
       && MayRecord(config, initial, s.ledger, step.entry, step.seen, step.writer) && step.writer.ByHook? {
      HookIsProducer(config, initial, s.ledger[..step.seen], step.writer.index, event);
    }
  }

  lemma RestrictedRunIsClosed(config: Config, initial: string, start: System, steps: seq<Step>, event: string)
    requires Start(start) && Restricted(config, event) && !IsEngineEvent(event)
    requires Throughout(config, initial, start, steps, SignersKeepWindows(config, initial))
    ensures Throughout(config, initial, start, steps, ClosedFor(config, initial, event))
  {
    forall s, step | SignersKeepWindows(config, initial)(s, step) ensures ClosedFor(config, initial, event)(s, step) {
      RestrictedStepIsClosed(config, initial, event, s, step);
    }
    ThroughoutImplies(config, initial, start, steps, SignersKeepWindows(config, initial), ClosedFor(config, initial, event));
  }

  lemma GuardedRunIsStraight(config: Config, initial: string, start: System, steps: seq<Step>)
    requires Start(start) && MovesAreGuarded(config)
    requires Throughout(config, initial, start, steps, SignersKeepWindows(config, initial))
    ensures Throughout(config, initial, start, steps, Straight(config, initial))
  {
    forall s, step | SignersKeepWindows(config, initial)(s, step) && AllJustified(config, initial, s)
      ensures Straight(config, initial)(s, step)
    {
    }
    ThroughoutImplies(config, initial, start, steps, SignersKeepWindows(config, initial), Straight(config, initial));
  }

  /** No producer of the event can run anywhere: there is none, or its window is empty. */
  ghost predicate NeverRuns(config: Config, event: string) {
    forall state :: !CanRunIn(config, event, state)
  }

  lemma NeverRunsIsAbsent(config: Config, initial: string, ledger: seq<LedgerEntry>, event: string)
    requires Witnessed(config, initial, ledger, event) && NeverRuns(config, event)
    ensures NoEntry(ledger, event)
  {
    forall i | 0 <= i < |ledger| ensures ledger[i].eventType != event {
      assert !WitnessedAt(config, initial, ledger, event, i);
    }
  }

  /** On every ledger of a run in the transition's source, the restricted event it is
      marked on is absent; for L2, where moves are guarded or no producer ever runs. */
  lemma RestrictedIsAbsent(config: Config, initial: string, start: System, steps: seq<Step>, timing: bool,
      t: Transition, r: EventRef, seen: nat)
    requires Start(start) && Faulted(config, timing, t, r) && Restricted(config, r.event)
    requires timing ==> MovesAreGuarded(config) || NeverRuns(config, r.event)
    requires Throughout(config, initial, start, steps, SignersKeepWindows(config, initial))
    requires seen <= |Run(config, initial, start, steps).ledger|
    requires CurrentState(initial, Run(config, initial, start, steps).ledger[..seen]) == t.from
    ensures NoEntry(Run(config, initial, start, steps).ledger[..seen], r.event)
  {
    var ledger := Run(config, initial, start, steps).ledger;
    RestrictedRunIsClosed(config, initial, start, steps, r.event);
    ClosedRunIsWitnessed(config, initial, start, steps, r.event);
    if timing && !NeverRuns(config, r.event) {
      GuardedRunIsStraight(config, initial, start, steps);
      StraightRunIsConnected(config, initial, start, steps);
      FaultedEventIsAbsent(config, initial, ledger, seen, timing, t, r);
    } else if timing {
      NeverRunsIsAbsent(config, initial, ledger, r.event);
    } else {
      FaultedEventIsAbsent(config, initial, ledger, seen, timing, t, r);
    }
  }

  /** A mark on a restricted event is sound over every run in which signers keep
      their windows, whatever is recorded by hand; for L2, where moves are guarded
      or no producer ever runs. */
  lemma RestrictedMarkNeverFires(config: Config, initial: string, start: System, steps: seq<Step>, timing: bool, i: nat,
      event: string, step: Step)
    requires Start(start) && MarkedOn(config, timing, i, event) && WellShaped(config, config.transitions[i])
    requires Restricted(config, event) && (timing ==> MovesAreGuarded(config) || NeverRuns(config, event))
    requires Throughout(config, initial, start, steps, SignersKeepWindows(config, initial))
    ensures !Fires(config, initial, Run(config, initial, start, steps), step, i)
  {
    var s := Run(config, initial, start, steps);
    if Fires(config, initial, s, step, i) {
      var t := config.transitions[i];
      EveryRunIsJustified(config, initial, start, steps);
      assert Justified(config, initial, s.ledger, s.prepared[step.pid]);
      var seen: nat, ctx: Context :| MayPrepare(config, initial, s.ledger, i, seen, ctx);
      var r :| Faulted(config, timing, t, r) && r.event == event;
      RestrictedIsAbsent(config, initial, start, steps, timing, t, r, seen);
      var g := FaultedGate(config, timing, t, r);
      PolarityIsSound(t.gates[g], true, event, ctx);
    }
  }

  /** Unless the protocol opts into `require_producers`, L1 marks nothing but
      restricted events, so that its marks are sound as they stand. */
  lemma L1NeverFires(config: Config, initial: string, start: System, steps: seq<Step>, i: nat, event: string, step: Step)
    requires Start(start) && MarkedOn(config, false, i, event) && WellShaped(config, config.transitions[i])
    requires !config.requireProducers && Throughout(config, initial, start, steps, SignersKeepWindows(config, initial))
    ensures !Fires(config, initial, Run(config, initial, start, steps), step, i)
  {
    var r :| Faulted(config, false, config.transitions[i], r) && r.event == event;
    assert Restricted(config, event);
    RestrictedMarkNeverFires(config, initial, start, steps, false, i, event, step);
  }

  /** Recording by hand what is not restricted is always possible and proves nothing
      about signers. */
  lemma HandStep(config: Config, initial: string, start: System, steps: seq<Step>, e: LedgerEntry)
    requires Throughout(config, initial, start, steps, SignersKeepWindows(config, initial))
    requires MayRecord(config, initial, Run(config, initial, start, steps).ledger, e, 0, ByHand)
    ensures var longer := steps + [Record(e, 0, ByHand)];
      && Throughout(config, initial, start, longer, SignersKeepWindows(config, initial))
      && Run(config, initial, start, longer).ledger == Run(config, initial, start, steps).ledger + [e]
  {
    var longer := steps + [Record(e, 0, ByHand)];
    assert longer[..|steps|] == steps;
  }

  /** The run is in the state, and whoever signs keeps its windows. */
  ghost predicate ReachesState(config: Config, initial: string, start: System, steps: seq<Step>, state: string) {
    && Throughout(config, initial, start, steps, SignersKeepWindows(config, initial))
    && CurrentState(initial, Run(config, initial, start, steps).ledger) == state
  }

  /** Nobody but a producer in its window can put the event on the ledger, and no
      producer can be moved into its window: the event is restricted, and so is
      `state_transition` unless no producer ever runs. */
  ghost predicate Unforgeable(config: Config, event: string) {
    Restricted(config, event) && (Restricted(config, STATE_TRANSITION) || NeverRuns(config, event))
  }

  ghost predicate AbsentIn(config: Config, initial: string, start: System, state: string, event: string) {
    forall steps :: ReachesState(config, initial, start, steps, state) ==> NoEntry(Run(config, initial, start, steps).ledger, event)
  }

  /** The claim behind a mark, that the event is on no ledger in the transition's
      source, is exact: once some run gets there, it holds of every run that does
      if and only if the event is unforgeable. For a mark of L1 that is to say
      restricted; for L2 no hook may write transitions. */
  lemma AbsenceIffUnforgeable(config: Config, initial: string, start: System, reach: seq<Step>, timing: bool,
      t: Transition, r: EventRef)
    requires Start(start) && Faulted(config, timing, t, r) && (timing ==> NoHookMoves(config))
    requires ReachesState(config, initial, start, reach, t.from)
    ensures AbsentIn(config, initial, start, t.from, r.event) <==> Unforgeable(config, r.event)
    ensures !timing ==> (Unforgeable(config, r.event) <==> Restricted(config, r.event))
  {
    if Unforgeable(config, r.event) {
      forall steps | ReachesState(config, initial, start, steps, t.from)
        ensures NoEntry(Run(config, initial, start, steps).ledger, r.event)
      {
        var ledger := Run(config, initial, start, steps).ledger;
        assert ledger[..|ledger|] == ledger;
        RestrictedIsAbsent(config, initial, start, steps, timing, t, r, |ledger|);
      }
    } else if !Restricted(config, r.event) {
      var longer := RecordedByHand(config, initial, start, reach, t.from, r.event);
    } else {
      var longer := RecordedElsewhere(config, initial, start, reach, t.from, r.event);
    }
  }

  lemma ProducedWhereItRuns(config: Config, initial: string, ledger: seq<LedgerEntry>, event: string)
    requires CanRunIn(config, event, CurrentState(initial, ledger))
    ensures HasProducer(config, initial, ledger, event)
  {
    var p :| p in ProducersOf(config, event) && (p.window.None? || CurrentState(initial, ledger) in p.window.value);
    assert OpenAfter(p, initial, ledger);
  }

  /** Where `state_transition` is not restricted, it takes a run anywhere by hand. */
  lemma TakenByHand(config: Config, initial: string, start: System, reach: seq<Step>, state: string)
    returns (longer: seq<Step>)
    requires Throughout(config, initial, start, reach, SignersKeepWindows(config, initial))
    requires !Restricted(config, STATE_TRANSITION)
    ensures reach <= longer && ReachesState(config, initial, start, longer, state)
    ensures Run(config, initial, start, reach).ledger <= Run(config, initial, start, longer).ledger
  {
    var ledger := Run(config, initial, start, reach).ledger;
    var e := EntryTo(config, STATE_TRANSITION, state);
    HandEntries(config, initial, ledger, STATE_TRANSITION, state);
    HandStep(config, initial, start, reach, e);
    StateSnoc(initial, ledger, e);
    longer := reach + [Record(e, 0, ByHand)];
  }

  lemma SignedStep(config: Config, initial: string, start: System, steps: seq<Step>, e: LedgerEntry)
    requires Throughout(config, initial, start, steps, SignersKeepWindows(config, initial)) && !IsMove(e)
    requires Restricted(config, e.eventType) && HasRequired(config, e)
    requires var ledger := Run(config, initial, start, steps).ledger;
      HasProducer(config, initial, ledger[..|ledger|], e.eventType)
    ensures var ledger := Run(config, initial, start, steps).ledger;
      var longer := steps + [Record(e, |ledger|, ByProof)];
      && Throughout(config, initial, start, longer, SignersKeepWindows(config, initial))
      && Run(config, initial, start, longer).ledger == ledger + [e]
  {
    var longer := steps + [Record(e, |Run(config, initial, start, steps).ledger|, ByProof)];
    assert longer[..|steps|] == steps;
  }

  /** A producer that is open signs its event. */
  lemma SignedWhereItRuns(config: Config, initial: string, start: System, reach: seq<Step>, event: string)
    returns (longer: seq<Step>)
    requires Throughout(config, initial, start, reach, SignersKeepWindows(config, initial))
    requires Restricted(config, event) && event != STATE_TRANSITION
    requires CanRunIn(config, event, CurrentState(initial, Run(config, initial, start, reach).ledger))
    ensures Throughout(config, initial, start, longer, SignersKeepWindows(config, initial))
    ensures !NoEntry(Run(config, initial, start, longer).ledger, event)
  {
    var ledger := Run(config, initial, start, reach).ledger;
    var e := BareEntry(config, event);
    assert ledger[..|ledger|] == ledger;
    ProducedWhereItRuns(config, initial, ledger, event);
    BareHasRequired(config, event);
    SignedStep(config, initial, start, reach, e);
    longer := reach + [Record(e, |ledger|, ByProof)];
    assert (ledger + [e])[|ledger|].eventType == event;
  }

  /** By hand to a state in which the event's producer runs, and by hand back. */
  lemma RecordedElsewhere(config: Config, initial: string, start: System, reach: seq<Step>, state: string, event: string)
    returns (longer: seq<Step>)
    requires ReachesState(config, initial, start, reach, state) && event != STATE_TRANSITION
    requires Restricted(config, event) && !Restricted(config, STATE_TRANSITION) && !NeverRuns(config, event)
    ensures ReachesState(config, initial, start, longer, state)
    ensures !NoEntry(Run(config, initial, start, longer).ledger, event)
  {
    var away :| CanRunIn(config, event, away);
    var there := TakenByHand(config, initial, start, reach, away);
    var signed := SignedWhereItRuns(config, initial, start, there, event);
    longer := TakenByHand(config, initial, start, signed, state);
    var ledger := Run(config, initial, start, signed).ledger;
    var i :| 0 <= i < |ledger| && ledger[i].eventType == event;
    assert Run(config, initial, start, longer).ledger[i] == ledger[i];
  }

  /** An unrestricted event can be on the ledger in any state a run reaches. */
  lemma RecordedByHand(config: Config, initial: string, start: System, reach: seq<Step>, state: string, event: string)
    returns (longer: seq<Step>)
    requires ReachesState(config, initial, start, reach, state) && !Restricted(config, event) && event != STATE_TRANSITION
    ensures ReachesState(config, initial, start, longer, state)
    ensures !NoEntry(Run(config, initial, start, longer).ledger, event)
  {
    var ledger := Run(config, initial, start, reach).ledger;
    var e := BareEntry(config, event);
    HandEntries(config, initial, ledger, event, "");
    HandStep(config, initial, start, reach, e);
    StateSnoc(initial, ledger, e);
    longer := reach + [Record(e, 0, ByHand)];
    assert (ledger + [e])[|ledger|].eventType == event;
  }

  // ---------------------------------------------------------------------------
  // When a marked transition fires
  // ---------------------------------------------------------------------------

  /** A `ledger_has_event` gate with nothing but an event. */
  function Demanding(event: string): Gate {
    LeafGate(HasEvent(Some(event), None, None, []))
  }

  lemma {:induction false} NothingFiltered(entries: seq<LedgerEntry>)
    ensures Matching(entries, []) == entries
  {
    if entries != [] {
      NothingFiltered(entries[..|entries| - 1]);
    }
  }

  lemma PresentPasses(ctx: Context, event: string)
    requires !NoEntry(ctx.ledger, event)
    ensures Eval(Demanding(event), ctx)
  {
    var i :| 0 <= i < |ctx.ledger| && ctx.ledger[i].eventType == event;
    EventsOfTypeAreExact(ctx.ledger, event);
    assert ctx.ledger[i] in EventsOfType(ctx.ledger, event);
    NothingFiltered(EventsOfType(ctx.ledger, event));
  }

  /** The transition asks for one event and nothing else; validation refuses
      restricted emits. */
  predicate AsksOnlyFor(config: Config, t: Transition, event: string) {
    t.gates == [Demanding(event)] && forall i :: 0 <= i < |t.emits| ==> !Restricted(config, t.emits[i])
  }

  function Evaluation(config: Config, ledger: seq<LedgerEntry>): Context {
    EmptyRun(config, {}).(ledger := ledger)
  }

  /** A process that finds the gate passing and commits at once. */
  lemma FiresOncePresent(config: Config, initial: string, start: System, steps: seq<Step>, i: nat, event: string)
    returns (longer: seq<Step>, step: Step)
    requires i < |config.transitions| && AsksOnlyFor(config, config.transitions[i], event)
    requires ReachesState(config, initial, start, steps, config.transitions[i].from)
    requires !NoEntry(Run(config, initial, start, steps).ledger, event)
    ensures Throughout(config, initial, start, longer, SignersKeepWindows(config, initial))
    ensures Fires(config, initial, Run(config, initial, start, longer), step, i)
  {
    var t := config.transitions[i];
    var s := Run(config, initial, start, steps);
    var ctx := Evaluation(config, s.ledger);
    var prepare := Prepare(0, i, |s.ledger|, ctx);
    PresentPasses(ctx, event);
    assert s.ledger[..|s.ledger|] == s.ledger;
    assert MayPrepare(config, initial, s.ledger, i, |s.ledger|, ctx);
    longer := steps + [prepare];
    assert longer[..|steps|] == steps;
    assert s.ledger + [] == s.ledger;
    assert Run(config, initial, start, longer) == System(s.ledger, s.prepared[0 := Prepared(i, t.from)]);
    MoveIsRecorded(config, t);
    step := Commit(0, MoveOf(t), [], EmitsOf(config, t));
  }

  /** A mark on a transition that asks for one event is sound over every run in which
      signers keep their windows if and only if the event is unforgeable: otherwise
      some run that reaches the transition's source fires it. */
  lemma MarkIsSoundIffUnforgeable(config: Config, initial: string, start: System, reach: seq<Step>, timing: bool, i: nat,
      event: string)
    requires Start(start) && MarkedOn(config, timing, i, event) && (timing ==> NoHookMoves(config))
    requires AsksOnlyFor(config, config.transitions[i], event)
    requires ReachesState(config, initial, start, reach, config.transitions[i].from)
    ensures NeverFires(config, initial, start, i) <==> Unforgeable(config, event)
  {
    if Unforgeable(config, event) {
      forall steps, step | Throughout(config, initial, start, steps, SignersKeepWindows(config, initial))
        ensures !Fires(config, initial, Run(config, initial, start, steps), step, i)
      {
        RestrictedMarkNeverFires(config, initial, start, steps, timing, i, event, step);
      }
    } else {
      var steps, step := ForgedMarkFires(config, initial, start, reach, timing, i, event);
    }
  }

  lemma ForgedMarkFires(config: Config, initial: string, start: System, reach: seq<Step>, timing: bool, i: nat,
      event: string) returns (steps: seq<Step>, step: Step)
    requires Start(start) && MarkedOn(config, timing, i, event) && (timing ==> NoHookMoves(config))
    requires AsksOnlyFor(config, config.transitions[i], event) && !Unforgeable(config, event)
    requires ReachesState(config, initial, start, reach, config.transitions[i].from)
    ensures Throughout(config, initial, start, steps, SignersKeepWindows(config, initial))
    ensures Fires(config, initial, Run(config, initial, start, steps), step, i)
  {
    var t := config.transitions[i];
    var r :| Faulted(config, timing, t, r) && r.event == event;
    AbsenceIffUnforgeable(config, initial, start, reach, timing, t, r);
    var present :| ReachesState(config, initial, start, present, t.from)
      && !NoEntry(Run(config, initial, start, present).ledger, event);
    steps, step := FiresOncePresent(config, initial, start, present, i, event);
  }

  ghost predicate NeverFires(config: Config, initial: string, start: System, i: nat) {
    forall steps, step :: Throughout(config, initial, start, steps, SignersKeepWindows(config, initial)) ==>
      !Fires(config, initial, Run(config, initial, start, steps), step, i)
  }

  // ---------------------------------------------------------------------------
  // L4
  // ---------------------------------------------------------------------------

  /** The transitions L1 and L2 leave in `unsatisfiable`. */
  ghost function Unfireable(config: Config): set<nat> {
    Blocked(config, false, |config.transitions|) + Blocked(config, true, |config.transitions|)
  }

  /** Every exit is well shaped and marked on one of these events. */
  ghost predicate SealedOff(config: Config, state: string, events: iset<string>) {
    forall i: nat :: LeavesFrom(config, state, i) ==> WellShaped(config, config.transitions[i]) && MarkedAmong(config, i, events)
  }

  ghost predicate MarkedAmong(config: Config, i: nat, events: iset<string>) {
    exists timing, event :: event in events && MarkedOn(config, timing, i, event)
  }

  ghost predicate IsMarked(config: Config, state: string, event: string) {
    exists timing, i :: LeavesFrom(config, state, i) && MarkedOn(config, timing, i, event)
  }

  /** The events some exit of the state is marked on. */
  ghost function MarkedEvents(config: Config, state: string): iset<string> {
    iset event | IsMarked(config, state, event)
  }

  /** A state L4 reports is sealed off, on the events its exits are marked on. */
  lemma DeadEndIsSealedOff(config: Config, blocked: Unsatisfiable, state: string)
    requires blocked.Keys == Unfireable(config) && DeadEnd(config, blocked, state)
    requires forall i: nat :: LeavesFrom(config, state, i) ==> WellShaped(config, config.transitions[i])
    ensures SealedOff(config, state, MarkedEvents(config, state))
  {
    forall i: nat | LeavesFrom(config, state, i) ensures MarkedAmong(config, i, MarkedEvents(config, state)) {
      assert i in blocked;
      var timing := i in Blocked(config, true, |config.transitions|);
      BlockedMeansFaulted(config, timing, i);
      var r :| Faulted(config, timing, config.transitions[i], r);
      assert MarkedOn(config, timing, i, r.event);
      assert IsMarked(config, state, r.event);
    }
  }

  ghost predicate ClosedAmong(config: Config, initial: string, start: System, steps: seq<Step>, events: iset<string>) {
    forall event :: event in events && !IsEngineEvent(event) ==>
      Throughout(config, initial, start, steps, ClosedFor(config, initial, event))
  }

  /** One step of a closed, straight run does not leave a sealed-off state. */
  lemma StaysPut(config: Config, initial: string, start: System, steps: seq<Step>, state: string,
      events: iset<string>, step: Step)
    requires Start(start) && SealedOff(config, state, events)
    requires ClosedAmong(config, initial, start, steps, events)
    requires Throughout(config, initial, start, steps, Straight(config, initial))
    requires StraightAt(config, initial, Run(config, initial, start, steps), step)
    requires CurrentState(initial, Run(config, initial, start, steps).ledger) == state
    ensures CurrentState(initial, Apply(config, initial, Run(config, initial, start, steps), step).ledger) == state
  {
    var s := Run(config, initial, start, steps);
    EveryRunIsJustified(config, initial, start, steps);
    StateAfter(initial, s.ledger, Appended(config, initial, s, step));
    if i :| 0 <= i < |Appended(config, initial, s, step)| && IsMove(Appended(config, initial, s, step)[i]) {
      var index := s.prepared[step.pid].index;
      assert Justified(config, initial, s.ledger, s.prepared[step.pid]);
      assert LeavesFrom(config, state, index);
      var timing, event :| event in events && MarkedOn(config, timing, index, event);
      MarkedNeverFires(config, initial, start, steps, timing, index, event, step);
      assert Fires(config, initial, s, step, index);
      assert false;
    }
  }

  /** L4 follows from L1 and L2: a closed run whose machine moves only by its
      transitions, once in a sealed-off state, stays there to its end. */
  lemma {:induction false} SealedOffIsNeverLeft(config: Config, initial: string, start: System, steps: seq<Step>,
      state: string,
                                                events: iset<string>, k: nat)
    requires Start(start) && SealedOff(config, state, events) && k <= |steps|
    requires ClosedAmong(config, initial, start, steps, events)
    requires Throughout(config, initial, start, steps, Straight(config, initial))
    requires CurrentState(initial, Run(config, initial, start, steps[..k]).ledger) == state
    ensures CurrentState(initial, Run(config, initial, start, steps).ledger) == state
    decreases |steps|
  {
    if k == |steps| {
      assert steps[..k] == steps;
    } else {
      var n := |steps| - 1;
      assert steps[..n][..k] == steps[..k];
      SealedOffIsNeverLeft(config, initial, start, steps[..n], state, events, k);
      StaysPut(config, initial, start, steps[..n], state, events, steps[n]);
    }
  }

  /** A state L4 reports, with well-shaped exits, is never left in a run closed for
      the events its exits are marked on. */
  lemma DeadEndIsNeverLeft(config: Config, initial: string, start: System, steps: seq<Step>, blocked: Unsatisfiable,
      state: string, k: nat)
    requires Start(start) && k <= |steps| && blocked.Keys == Unfireable(config) && DeadEnd(config, blocked, state)
    requires forall i: nat :: LeavesFrom(config, state, i) ==> WellShaped(config, config.transitions[i])
    requires ClosedAmong(config, initial, start, steps, MarkedEvents(config, state))
    requires Throughout(config, initial, start, steps, Straight(config, initial))
    requires CurrentState(initial, Run(config, initial, start, steps[..k]).ledger) == state
    ensures CurrentState(initial, Run(config, initial, start, steps).ledger) == state
  {
    DeadEndIsSealedOff(config, blocked, state);
    SealedOffIsNeverLeft(config, initial, start, steps, state, MarkedEvents(config, state), k);
  }

  ghost function RestrictedEvents(config: Config): iset<string> {
    iset event | Restricted(config, event)
  }

  /** With every exit marked on a restricted event, guarded moves are enough. */
  lemma GuardedDeadEndIsNeverLeft(config: Config, initial: string, start: System, steps: seq<Step>, state: string, k: nat)
    requires Start(start) && SealedOff(config, state, RestrictedEvents(config)) && MovesAreGuarded(config) && k <= |steps|
    requires Throughout(config, initial, start, steps, SignersKeepWindows(config, initial))
    requires CurrentState(initial, Run(config, initial, start, steps[..k]).ledger) == state
    ensures CurrentState(initial, Run(config, initial, start, steps).ledger) == state
  {
    GuardedRunIsStraight(config, initial, start, steps);
    forall event | event in RestrictedEvents(config) && !IsEngineEvent(event)
      ensures Throughout(config, initial, start, steps, ClosedFor(config, initial, event))
    {
      RestrictedRunIsClosed(config, initial, start, steps, event);
    }
    SealedOffIsNeverLeft(config, initial, start, steps, state, RestrictedEvents(config), k);
  }

  /** A continuation of the run, in which signers keep their windows. */
  ghost predicate Continues(config: Config, initial: string, start: System, steps: seq<Step>, longer: seq<Step>) {
    steps <= longer && Throughout(config, initial, start, longer, SignersKeepWindows(config, initial))
  }

  /** Where no hook writes transitions, a run that gets to such a state stays there
      however it continues if and only if `state_transition` is restricted:
      otherwise it can be recorded by hand, to anywhere. */
  lemma DeadEndIffMovesRestricted(config: Config, initial: string, start: System, reach: seq<Step>, state: string)
    requires Start(start) && SealedOff(config, state, RestrictedEvents(config)) && NoHookMoves(config)
    requires ReachesState(config, initial, start, reach, state)
    ensures Restricted(config, STATE_TRANSITION) <==>
      forall steps :: Continues(config, initial, start, reach, steps) ==>
        CurrentState(initial, Run(config, initial, start, steps).ledger) == state
  {
    if Restricted(config, STATE_TRANSITION) {
      forall steps | Continues(config, initial, start, reach, steps)
        ensures CurrentState(initial, Run(config, initial, start, steps).ledger) == state
      {
        assert steps[..|reach|] == reach;
        GuardedDeadEndIsNeverLeft(config, initial, start, steps, state, |reach|);
      }
    } else {
      var longer := MovedByHand(config, initial, start, reach, state);
      assert Continues(config, initial, start, reach, longer);
    }
  }

  /** An unrestricted `state_transition` takes a run out of any state. */
  lemma MovedByHand(config: Config, initial: string, start: System, reach: seq<Step>,
      state: string) returns (longer: seq<Step>)
    requires ReachesState(config, initial, start, reach, state) && !Restricted(config, STATE_TRANSITION)
    ensures Continues(config, initial, start, reach, longer)
    ensures CurrentState(initial, Run(config, initial, start, longer).ledger) != state
  {
    longer := TakenByHand(config, initial, start, reach, state + "x");
    assert |state + "x"| != |state|;
  }
}
