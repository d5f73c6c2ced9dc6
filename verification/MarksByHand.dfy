/** Marks of L2 on an unrestricted and on a restricted event, and runs in which the
    marked transition fires (src/lint/checks.rs, src/cli/transition.rs). */
module MarksByHand {
  import opened Wrappers
  import opened ProtocolConfig
  import opened LedgerEntries
  import opened Graphs
  import opened GateFilters
  import opened Gates
  import opened GateRefs
  import opened Polarity
  import opened RunState
  import opened Producers
  import opened Lint
  import opened ProtocolRuns
  import opened LintSoundness

  const GO := Transition("a", "b", "go", [LeafGate(DEMANDING)], None, [])

  /** "x" is unrestricted and declared to be produced in "b"; "go", out of "a",
      requires it. Moves are guarded. */
  function LateProducer(): Config {
    Config(
      map["a" := StateConfig(true, false), "b" := StateConfig(false, true)],
      [GO],
      map["x" := EventConfig(false, [ProducerDecl("late", Some(["b"]))], []), STATE_TRANSITION := EventConfig(true, [], [])],
      [], [], map[], false)
  }

  function Fresh(): System {
    System([], map[])
  }

  function X(): LedgerEntry {
    BareEntry(LateProducer(), "x")
  }

  function Moved(): LedgerEntry {
    var fields: Fields := [("command", "go"), ("from", "a"), ("to", "b")];
    LedgerEntry(SCHEMA_VERSION, 1, "", "", "", STATE_TRANSITION, "", "", "", fields)
  }

  /** "x" is recorded by hand in "a", and the gate is found passing. */
  function HandRun(): seq<Step> {
    [Record(X(), 0, ByHand), Prepare(0, 0, 1, EmptyRun(LateProducer(), {}).(ledger := [X()]))]
  }

  /** "go" is the only transition, and "x" is only produced in "b". */
  predicate XOnlyInB(config: Config) {
    && config.transitions == [GO] && config.hooks == []
    && "x" in config.events && config.events["x"].producers == [ProducerDecl("late", Some(["b"]))]
  }

  lemma XIsLate(config: Config)
    requires XOnlyInB(config)
    ensures Faulted(config, true, GO, EventRef("x", true, false)) && CanRunIn(config, "x", "b")
  {
    var r := EventRef("x", true, false);
    assert LeafRefs(DEMANDING, true, false) == [r];
    assert AllRefs(GO.gates, true, false) == [r] by { assert GO.gates[1..] == []; }
    ProducersAreExact(config, "x", Producer("late", Some(["b"]), true));
    assert IsDeclared(config.events["x"].producers, 0, Producer("late", Some(["b"]), true));
    AllEdges(config.transitions);
    forall s | CanRunIn(config, "x", s) ensures s !in Preceding(config, "a") {
      var p :| p in ProducersOf(config, "x") && (p.window.None? || s in p.window.value);
      ProducersAreExact(config, "x", p);
      assert p.window == Some(["b"]);
    }
  }

  lemma OneSelected(e: LedgerEntry, event: string)
    requires e.eventType == event
    ensures EventsOfType([e], event) == [e]
  {
    assert [e][..0] == [];
  }

  lemma OneMatches(e: LedgerEntry, filter: FilterSpec)
    requires filter == []
    ensures Matching([e], filter) == [e]
  {
    assert [e][..0] == [];
  }

  lemma OneCounts(ctx: Context, e: LedgerEntry, event: string)
    requires ctx.ledger == [e] && e.eventType == event
    ensures EvalHasEvent(ctx, event, None, None, [])
  {
    OneSelected(e, event);
    OneMatches(e, ResolveFilterSpec([], ctx.vars));
  }

  /** One "x" on the ledger passes the gate that demands it. */
  lemma DemandMet(ctx: Context, e: LedgerEntry)
    requires ctx.ledger == [e] && e.eventType == "x"
    ensures EvalLeaf(DEMANDING, ctx)
  {
    OneCounts(ctx, e, "x");
  }

  lemma XPasses()
    ensures AllPass(GO.gates, EmptyRun(LateProducer(), {}).(ledger := [X()]))
  {
    DemandMet(EmptyRun(LateProducer(), {}).(ledger := [X()]), X());
  }

  lemma MovedTo()
    ensures Target(Moved()) == Some("b") && Get(Moved().fields, "from") == Some("a") && Get(Moved().fields, "command") == Some("go")
  {
    var fs := Moved().fields;
    assert fs[1..] == [("from", "a"), ("to", "b")] && fs[1..][1..] == [("to", "b")];
  }

  /** Two steps, neither of them a signer's. */
  lemma TwoSteps(config: Config, initial: string, s: System, a: Step, b: Step, between: System, after: System)
    requires Apply(config, initial, s, a) == between && Apply(config, initial, between, b) == after
    requires (a.Record? ==> a.writer.ByHand?) && b.Prepare?
    ensures Run(config, initial, s, [a, b]) == after
    ensures Throughout(config, initial, s, [a, b], SignersKeepWindows(config, initial))
  {
    var rule := SignersKeepWindows(config, initial);
    assert [a, b][..1] == [a] && [a][..0] == [];
    assert Run(config, initial, s, []) == s && Throughout(config, initial, s, [], rule);
    assert Run(config, initial, s, [a]) == between && Throughout(config, initial, s, [a], rule);
  }

  lemma XIsRecorded()
    ensures Apply(LateProducer(), "a", Fresh(), HandRun()[0]) == System([X()], map[])
  {
    HandEntries(LateProducer(), "a", [], "x", "");
    assert [] + [X()] == [X()];
  }

  lemma StillInA()
    ensures CurrentState("a", [X()]) == "a"
  {
    StateSnoc("a", [], X());
    assert [] + [X()] == [X()];
  }

  lemma GoMayBePrepared()
    ensures MayPrepare(LateProducer(), "a", [X()], 0, 1, EmptyRun(LateProducer(), {}).(ledger := [X()]))
  {
    assert [X()][..1] == [X()];
    StillInA();
    XPasses();
  }

  lemma PrepareApplies(config: Config, initial: string, ledger: seq<LedgerEntry>, pid: nat, index: nat, seen: nat,
      ctx: Context)
    requires MayPrepare(config, initial, ledger, index, seen, ctx)
    ensures Apply(config, initial, System(ledger, map[]), Prepare(pid, index, seen, ctx))
         == System(ledger, map[pid := Prepared(index, config.transitions[index].from)])
  {
    assert ledger + [] == ledger;
  }

  lemma GoIsPrepared()
    ensures Apply(LateProducer(), "a", System([X()], map[]), HandRun()[1]) == System([X()], map[0 := Prepared(0, "a")])
  {
    GoMayBePrepared();
    PrepareApplies(LateProducer(), "a", [X()], 0, 0, 1, EmptyRun(LateProducer(), {}).(ledger := [X()]));
  }

  lemma HandRunPrepares()
    ensures Throughout(LateProducer(), "a", Fresh(), HandRun(), SignersKeepWindows(LateProducer(), "a"))
    ensures Run(LateProducer(), "a", Fresh(), HandRun()) == System([X()], map[0 := Prepared(0, "a")])
  {
    XIsRecorded();
    GoIsPrepared();
    TwoSteps(LateProducer(), "a", Fresh(), HandRun()[0], HandRun()[1],
      System([X()], map[]), System([X()], map[0 := Prepared(0, "a")]));
  }

  lemma GoIsMarked(config: Config)
    requires XOnlyInB(config)
    ensures 0 in Blocked(config, true, 1) && MarkedOn(config, true, 0, "x")
  {
    XIsLate(config);
    BlockedMeansFaulted(config, true, 0);
  }

  lemma GoIsWellShaped()
    ensures WellShaped(LateProducer(), GO) && MovesAreGuarded(LateProducer())
  {
  }

  lemma GoFires()
    ensures Fires(LateProducer(), "a", Run(LateProducer(), "a", Fresh(), HandRun()), Commit(0, Moved(), [], []), 0)
  {
    HandRunPrepares();
    StillInA();
    MovedTo();
  }

  /** L2 marks "go", its gates are well shaped, moves are guarded and nobody signs
      anything: recorded by hand, "x" lets it fire. */
  lemma UnrestrictedMarkFires()
    ensures 0 in Blocked(LateProducer(), true, 1)
    ensures WellShaped(LateProducer(), GO) && MovesAreGuarded(LateProducer())
    ensures Throughout(LateProducer(), "a", Fresh(), HandRun(), SignersKeepWindows(LateProducer(), "a"))
    ensures Fires(LateProducer(), "a", Run(LateProducer(), "a", Fresh(), HandRun()), Commit(0, Moved(), [], []), 0)
  {
    GoIsMarked(LateProducer());
    GoIsWellShaped();
    HandRunPrepares();
    GoFires();
  }

  // ---------------------------------------------------------------------------
  // A restricted event
  // ---------------------------------------------------------------------------

  /** "x" is restricted; `state_transition` is not declared. */
  function UnguardedMoves(): Config {
    LateProducer().(events := map["x" := EventConfig(true, [ProducerDecl("late", Some(["b"]))], [])])
  }

  lemma StartsInA(config: Config, start: System)
    requires start.ledger == []
    ensures ReachesState(config, "a", start, [], "a")
  {
  }

  lemma GoAsksOnlyForX(config: Config)
    ensures AsksOnlyFor(config, GO, "x") && WellShaped(config, GO)
  {
  }

  lemma ForgedXFires(config: Config, start: System) returns (steps: seq<Step>, step: Step)
    requires XOnlyInB(config) && !Unforgeable(config, "x") && Start(start) && start.ledger == []
    ensures 0 in Blocked(config, true, 1) && WellShaped(config, GO)
    ensures Throughout(config, "a", start, steps, SignersKeepWindows(config, "a"))
    ensures Fires(config, "a", Run(config, "a", start, steps), step, 0)
  {
    GoIsMarked(config);
    GoAsksOnlyForX(config);
    StartsInA(config, start);
    assert config.transitions[0] == GO;
    steps, step := ForgedMarkFires(config, "a", start, [], true, 0, "x");
  }

  lemma XIsForgeable()
    ensures XOnlyInB(UnguardedMoves()) && Restricted(UnguardedMoves(), "x") && !Unforgeable(UnguardedMoves(), "x")
  {
    XIsLate(UnguardedMoves());
  }

  /** L2 marks "go" on a restricted event and its gates are well shaped. By hand to
      "b", where the producer of "x" signs it, and by hand back to "a": now "go" fires. */
  lemma RestrictedMarkFires() returns (steps: seq<Step>, step: Step)
    ensures 0 in Blocked(UnguardedMoves(), true, 1) && WellShaped(UnguardedMoves(), GO)
    ensures Restricted(UnguardedMoves(), "x")
    ensures Throughout(UnguardedMoves(), "a", Fresh(), steps, SignersKeepWindows(UnguardedMoves(), "a"))
    ensures Fires(UnguardedMoves(), "a", Run(UnguardedMoves(), "a", Fresh(), steps), step, 0)
  {
    XIsForgeable();
    steps, step := ForgedXFires(UnguardedMoves(), Fresh());
  }
}
