/** What L1 and L2 report, read off the leaves of the gate trees themselves: which
    leaf demands which event, where it stands, and what is wrong with the event
    (src/lint/index.rs, src/lint/checks.rs). */
module DemandedEvents {
  import opened Wrappers
  import opened ProtocolConfig
  import opened Graphs
  import opened GateFilters
  import opened Gates
  import opened GateRefs
  import opened Polarity
  import opened Producers
  import opened Lint

  // ---------------------------------------------------------------------------
  // One leaf
  // ---------------------------------------------------------------------------

  /** The `since` text names the event: after the prefix, or as the whole text. */
  predicate NamedSince(since: Since, event: string) {
    || since == WrittenSince("last_event_of_type:" + event)
    || (since == WrittenSince(event) && event != "last_transition" && !("last_event_of_type:" <= event))
  }

  /** The leaf speaks of the event, without asking for it. */
  predicate Mentions(leaf: Leaf, event: string) {
    match leaf
    case HasEvent(e, min, _, _) => e == Some(event) && min.Some? && min.value < 1
    case HasEventSince(_, since, _, _, _) => NamedSince(since, event)
    case LacksEvent(e, _) => e == Some(event)
    case MinElapsed(e, _) => e == Some(event)
    case NoViolations => event == "protocol_violation" || event == "violation_resolved"
    case Foreign(_, mentions) => event in mentions
    case _ => false
  }

  /** A demand is a reference that is required where the leaf stands positively; a
      mention is one that never is; and there are no others. */
  lemma LeafRefsAreExact(leaf: Leaf, positive: bool, disjunctive: bool, r: EventRef)
    ensures r in LeafRefs(leaf, positive, disjunctive) <==>
      && r.event != "" && r.disjunctive == disjunctive
      && ((r.event == Demand(leaf) && r.required == positive) || (Mentions(leaf, r.event) && !r.required))
  {
    match leaf
    case Foreign(_, mentions) => MentionedAreExact(mentions, positive, disjunctive, r);
    case HasEventSince(_, since, _, _, _) => if r.event != "" { SinceMentionIsExact(since, r.event); }
    case _ =>
  }

  lemma {:induction false} MentionedAreExact(events: seq<string>, positive: bool, disjunctive: bool, r: EventRef)
    ensures r in Mentioned(events, positive, disjunctive) <==>
      r.event in events && r.event != "" && r.disjunctive == disjunctive && !r.required
  {
    if events != [] {
      var n := |events| - 1;
      MentionedAreExact(events[..n], positive, disjunctive, r);
      assert events == events[..n] + [events[n]];
    }
  }

  lemma SinceMentionIsExact(since: Since, event: string)
    requires event != ""
    ensures SinceMention(since) == event <==> NamedSince(since, event)
  {
    var prefix := "last_event_of_type:";
    assert prefix == LAST_EVENT_OF_TYPE;
    assert (prefix + event)[|prefix|..] == event;
    assert prefix + event != LAST_TRANSITION by {
      assert (prefix + event)[5] == prefix[5] != LAST_TRANSITION[5];
    }
    if since.WrittenSince? && prefix <= since.text {
      assert since.text == prefix + since.text[|prefix|..];
    }
  }

  /** The leaf fails on every empty ledger, whatever it asks for. */
  predicate NeverPasses(leaf: Leaf) {
    || leaf.UnknownType?
    || (leaf.HasEvent? && leaf.minCount.Some? && leaf.minCount.value < 1
        && (AsU32(leaf.minCount.value) > 0 || (leaf.maxCount.Some? && AsU32(leaf.maxCount.value) == 0)))
  }

  /** What asks for no event passes in some run that recorded none; so that, with
      `LeafOkIsExact`, the demanding leaves are those that fail without their event. */
  lemma UndemandingPasses(leaf: Leaf, config: Config) returns (ctx: Context)
    requires Demand(leaf) == "" && !NeverPasses(leaf)
    requires leaf.HasEvent? ==> leaf.minCount.Some? && leaf.minCount.value < 1
    requires !leaf.HasEventSince? && !leaf.SetCovered?
    ensures ctx.config == config && ctx.ledger == [] && EvalLeaf(leaf, ctx)
  {
    ctx := EmptyRun(config, if leaf.Foreign? then {leaf.id} else {});
    if leaf.FieldNotEmpty? {
      ctx := ctx.(eventFields := Some([(OrElse(leaf.field, ""), "x")]));
    }
  }

  // ---------------------------------------------------------------------------
  // Trees
  // ---------------------------------------------------------------------------

  /** Down the path stands `leaf`, under this parity of `not`s, and under an `any_of`
      or `k_of_n` or not. */
  ghost predicate Stands(g: Gate, path: seq<nat>, leaf: Leaf, positive: bool, disjunctive: bool)
    decreases path
  {
    if path == [] then g == LeafGate(leaf) && positive && !disjunctive
    else
      && !g.LeafGate? && path[0] < |g.gates|
      && if g.Not? then Stands(g.gates[path[0]], path[1..], leaf, !positive, disjunctive)
         else if g.AllOf? then Stands(g.gates[path[0]], path[1..], leaf, positive, disjunctive)
         else disjunctive && StandsAnywhere(g.gates[path[0]], path[1..], leaf, positive)
  }

  /** The same, whatever stands above. */
  ghost predicate StandsAnywhere(g: Gate, path: seq<nat>, leaf: Leaf, positive: bool)
    decreases path
  {
    if path == [] then g == LeafGate(leaf) && positive
    else
      && !g.LeafGate? && path[0] < |g.gates|
      && StandsAnywhere(g.gates[path[0]], path[1..], leaf, if g.Not? then !positive else positive)
  }

  /** Some leaf of the tree demands the event: positively, and with an alternative or not. */
  ghost predicate Asks(g: Gate, positive: bool, disjunctive: bool, event: string) {
    exists path, leaf :: Stands(g, path, leaf, positive, disjunctive) && Demand(leaf) == event
  }

  ghost predicate AsksAnywhere(g: Gate, positive: bool, event: string) {
    exists path, leaf :: StandsAnywhere(g, path, leaf, positive) && Demand(leaf) == event
  }

  lemma AnywhereBelow(g: Gate, positive: bool, event: string)
    requires !g.LeafGate?
    ensures AsksAnywhere(g, positive, event) <==>
      exists i :: 0 <= i < |g.gates| && AsksAnywhere(g.gates[i], ChildPolarity(g, positive), event)
  {
    var p := ChildPolarity(g, positive);
    if AsksAnywhere(g, positive, event) {
      var path, leaf :| StandsAnywhere(g, path, leaf, positive) && Demand(leaf) == event;
      assert StandsAnywhere(g.gates[path[0]], path[1..], leaf, p);
      assert AsksAnywhere(g.gates[path[0]], p, event);
    }
    if i :| 0 <= i < |g.gates| && AsksAnywhere(g.gates[i], p, event) {
      var path, leaf :| StandsAnywhere(g.gates[i], path, leaf, p) && Demand(leaf) == event;
      assert ([i] + path)[1..] == path;
      assert StandsAnywhere(g, [i] + path, leaf, positive);
    }
  }

  lemma AskedBelow(g: Gate, positive: bool, disjunctive: bool, event: string)
    requires g.AllOf? || g.Not?
    ensures Asks(g, positive, disjunctive, event) <==>
      exists i :: 0 <= i < |g.gates| && Asks(g.gates[i], ChildPolarity(g, positive), disjunctive, event)
  {
    var p := ChildPolarity(g, positive);
    if Asks(g, positive, disjunctive, event) {
      var path, leaf :| Stands(g, path, leaf, positive, disjunctive) && Demand(leaf) == event;
      assert Stands(g.gates[path[0]], path[1..], leaf, p, disjunctive);
      assert Asks(g.gates[path[0]], p, disjunctive, event);
    }
    if i :| 0 <= i < |g.gates| && Asks(g.gates[i], p, disjunctive, event) {
      var path, leaf :| Stands(g.gates[i], path, leaf, p, disjunctive) && Demand(leaf) == event;
      assert ([i] + path)[1..] == path;
      assert Stands(g, [i] + path, leaf, positive, disjunctive);
    }
  }

  lemma AlternativeBelow(g: Gate, positive: bool, disjunctive: bool, event: string)
    requires g.AnyOf? || g.KOfN?
    ensures Asks(g, positive, disjunctive, event) <==>
      disjunctive && exists i :: 0 <= i < |g.gates| && AsksAnywhere(g.gates[i], positive, event)
  {
    if Asks(g, positive, disjunctive, event) {
      var path, leaf :| Stands(g, path, leaf, positive, disjunctive) && Demand(leaf) == event;
      assert StandsAnywhere(g.gates[path[0]], path[1..], leaf, positive);
      assert AsksAnywhere(g.gates[path[0]], positive, event);
    }
    if i :| 0 <= i < |g.gates| && disjunctive && AsksAnywhere(g.gates[i], positive, event) {
      var path, leaf :| StandsAnywhere(g.gates[i], path, leaf, positive) && Demand(leaf) == event;
      assert ([i] + path)[1..] == path;
      assert Stands(g, [i] + path, leaf, positive, disjunctive);
    }
  }

  lemma LeafAsks(leaf: Leaf, positive: bool, disjunctive: bool, event: string)
    ensures AsksAnywhere(LeafGate(leaf), positive, event) <==> positive && Demand(leaf) == event
    ensures Asks(LeafGate(leaf), positive, disjunctive, event) <==> positive && !disjunctive && Demand(leaf) == event
  {
    if positive && Demand(leaf) == event {
      assert StandsAnywhere(LeafGate(leaf), [], leaf, positive);
      assert !disjunctive ==> Stands(LeafGate(leaf), [], leaf, positive, disjunctive);
    }
  }

  lemma {:induction false} RequiredAnywhere(g: Gate, positive: bool, event: string)
    requires event != ""
    ensures EventRef(event, true, true) in Refs(g, positive, true) <==> AsksAnywhere(g, positive, event)
    decreases g
  {
    var r := EventRef(event, true, true);
    if g.LeafGate? {
      LeafRefsAreExact(g.leaf, positive, true, r);
      LeafAsks(g.leaf, positive, true, event);
    } else {
      var p := ChildPolarity(g, positive);
      AllRefsAreExact(g.gates, p, true, r);
      AnywhereBelow(g, positive, event);
      forall i | 0 <= i < |g.gates| ensures r in Refs(g.gates[i], p, true) <==> AsksAnywhere(g.gates[i], p, event) {
        RequiredAnywhere(g.gates[i], p, event);
      }
    }
  }

  /** The required references of a tree are exactly what its leaves demand: without an
      alternative where only `all_of` and `not` stand above, with one elsewhere. */
  lemma {:induction false} RequiredAreAsked(g: Gate, positive: bool, disjunctive: bool, event: string)
    requires event != ""
    ensures EventRef(event, true, disjunctive) in Refs(g, positive, false) <==> Asks(g, positive, disjunctive, event)
    decreases g
  {
    var r := EventRef(event, true, disjunctive);
    if g.LeafGate? {
      LeafRefsAreExact(g.leaf, positive, false, r);
      LeafAsks(g.leaf, positive, disjunctive, event);
    } else if g.AnyOf? || g.KOfN? {
      AlternativeIsAsked(g, positive, disjunctive, event);
    } else {
      var p := ChildPolarity(g, positive);
      AllRefsAreExact(g.gates, p, false, r);
      AskedBelow(g, positive, disjunctive, event);
      forall i | 0 <= i < |g.gates| ensures r in Refs(g.gates[i], p, false) <==> Asks(g.gates[i], p, disjunctive, event) {
        RequiredAreAsked(g.gates[i], p, disjunctive, event);
      }
    }
  }

  lemma AlternativeIsAsked(g: Gate, positive: bool, disjunctive: bool, event: string)
    requires event != "" && (g.AnyOf? || g.KOfN?)
    ensures EventRef(event, true, disjunctive) in Refs(g, positive, false) <==> Asks(g, positive, disjunctive, event)
  {
    var r := EventRef(event, true, disjunctive);
    AllRefsAreExact(g.gates, positive, true, r);
    AlternativeBelow(g, positive, disjunctive, event);
    if r in Refs(g, positive, false) {
      SomeChild(g.gates, positive, r);
    }
    forall i | 0 <= i < |g.gates|
      ensures EventRef(event, true, true) in Refs(g.gates[i], positive, true) <==> AsksAnywhere(g.gates[i], positive, event)
    {
      RequiredAnywhere(g.gates[i], positive, event);
    }
  }

  // ---------------------------------------------------------------------------
  // What the checks report
  // ---------------------------------------------------------------------------

  /** One of the gates asks for the event. */
  ghost predicate GatesAsk(gates: seq<Gate>, disjunctive: bool, event: string) {
    event != "" && exists j :: 0 <= j < |gates| && Asks(gates[j], true, disjunctive, event)
  }

  /** What is wrong with asking for the event in `state`, and whether it is fatal. */
  ghost predicate Wrong(config: Config, timing: bool, state: string, event: string, cause: Cause, fatal: bool) {
    && !IsEngineEvent(event)
    && if timing then
         cause == ProducedTooLate(event) && fatal && ProducersOf(config, event) != []
         && forall s :: CanRunIn(config, event, s) ==> s !in Preceding(config, state)
       else if event !in config.events then cause == Undeclared(event) && !fatal && config.events != map[]
       else
         cause == NeverProduced(event) && fatal && ProducersOf(config, event) == []
         && (config.events[event].restricted || config.requireProducers)
  }

  /** The severity is an error exactly for a fatal defect without an alternative. */
  ghost predicate ReportedFor(config: Config, timing: bool, state: string, gates: seq<Gate>, f: Finding) {
    exists event, disjunctive, fatal ::
      && GatesAsk(gates, disjunctive, event) && Wrong(config, timing, state, event, f.cause, fatal)
      && f.severity == if fatal && !disjunctive then Error else Warning
  }

  lemma VerdictIsWrong(config: Config, timing: bool, state: string, r: EventRef, d: Defect)
    ensures Verdict(config, if timing then InTime(Preceding(config, state)) else Produced, r) == Some(d) <==>
      r.required && Wrong(config, timing, state, r.event, d.cause, d.fatal)
  {
    if timing {
      TimingVerdict(config, r, state);
    }
  }

  lemma RefsOfGates(gates: seq<Gate>, event: string, disjunctive: bool)
    ensures EventRef(event, true, disjunctive) in AllRefs(gates, true, false) <==> GatesAsk(gates, disjunctive, event)
  {
    var r := EventRef(event, true, disjunctive);
    AllRefsAreExact(gates, true, false, r);
    if event == "" {
      forall j | 0 <= j < |gates| ensures r !in Refs(gates[j], true, false) {
        NoEmptyRefs(gates[j], true, false, r);
      }
    } else {
      forall j | 0 <= j < |gates| ensures r in Refs(gates[j], true, false) <==> Asks(gates[j], true, disjunctive, event) {
        RequiredAreAsked(gates[j], true, disjunctive, event);
      }
    }
  }

  lemma {:induction false} NoEmptyRefs(g: Gate, positive: bool, disjunctive: bool, r: EventRef)
    requires r.event == ""
    ensures r !in Refs(g, positive, disjunctive)
    decreases g
  {
    match g
    case LeafGate(leaf) => LeafRefsAreExact(leaf, positive, disjunctive, r);
    case _ =>
      var d := disjunctive || g.AnyOf? || g.KOfN?;
      AllRefsAreExact(g.gates, ChildPolarity(g, positive), d, r);
      forall i | 0 <= i < |g.gates| ensures r !in Refs(g.gates[i], ChildPolarity(g, positive), d) {
        NoEmptyRefs(g.gates[i], ChildPolarity(g, positive), d, r);
      }
  }

  lemma ReportIsExact(config: Config, timing: bool, state: string, location: Location, gates: seq<Gate>, f: Finding)
    ensures var check := if timing then InTime(Preceding(config, state)) else Produced;
      f in Report(config, check, location, AllRefs(gates, true, false)) <==>
      f.location == location && ReportedFor(config, timing, state, gates, f)
  {
    var check := if timing then InTime(Preceding(config, state)) else Produced;
    var refs := AllRefs(gates, true, false);
    ReportHolds(config, check, location, refs, f);
    if r :| r in refs && f in ReportOne(config, check, location, r) {
      ReportedIsAsked(config, timing, state, location, gates, r, f);
    }
    if f.location == location && ReportedFor(config, timing, state, gates, f) {
      var r := AskedIsReported(config, timing, state, location, gates, f);
    }
  }

  lemma ReportedIsAsked(config: Config, timing: bool, state: string, location: Location, gates: seq<Gate>, r: EventRef, f: Finding)
    requires r in AllRefs(gates, true, false)
    requires f in ReportOne(config, if timing then InTime(Preceding(config, state)) else Produced, location, r)
    ensures f.location == location && ReportedFor(config, timing, state, gates, f)
  {
    var check := if timing then InTime(Preceding(config, state)) else Produced;
    VerdictIsWrong(config, timing, state, r, Verdict(config, check, r).value);
    RefsOfGates(gates, r.event, r.disjunctive);
    assert r == EventRef(r.event, true, r.disjunctive);
    assert GatesAsk(gates, r.disjunctive, r.event);
  }

  lemma AskedIsReported(config: Config, timing: bool, state: string, location: Location, gates: seq<Gate>, f: Finding)
    returns (r: EventRef)
    requires f.location == location && ReportedFor(config, timing, state, gates, f)
    ensures r in AllRefs(gates, true, false)
    ensures f in ReportOne(config, if timing then InTime(Preceding(config, state)) else Produced, location, r)
  {
    var event, disjunctive, fatal :|
      && GatesAsk(gates, disjunctive, event) && Wrong(config, timing, state, event, f.cause, fatal)
      && f.severity == if fatal && !disjunctive then Error else Warning;
    r := EventRef(event, true, disjunctive);
    RefsOfGates(gates, event, disjunctive);
    VerdictIsWrong(config, timing, state, r, Defect(f.cause, fatal));
  }

  ghost predicate ReportedAt(config: Config, timing: bool, f: Finding, i: nat)
    requires i < |config.transitions|
  {
    f.location == AtTransition(i) && ReportedFor(config, timing, config.transitions[i].from, config.transitions[i].gates, f)
  }

  /** L1 and L2 report at transitions exactly the events their gates ask for that are
      undeclared, never produced, or produced too late. */
  lemma TransitionFindingsAreExact(config: Config, timing: bool, f: Finding)
    ensures f in TransitionFindings(config, timing, |config.transitions|) <==>
      exists i: nat :: i < |config.transitions| && ReportedAt(config, timing, f, i)
  {
    var n := |config.transitions|;
    if f in TransitionFindings(config, timing, n) {
      var k := FindingsComeFrom(config, timing, n, f);
      var t := config.transitions[k];
      ReportIsExact(config, timing, t.from, AtTransition(k), t.gates, f);
      assert ReportedAt(config, timing, f, k);
    }
    if i: nat :| i < n && ReportedAt(config, timing, f, i) {
      var t := config.transitions[i];
      ReportIsExact(config, timing, t.from, AtTransition(i), t.gates, f);
      FindingsAreReported(config, timing, n, i, f);
    }
  }

  function GatesOf(hook: Hook): seq<Gate> {
    if hook.gate.Some? then [hook.gate.value] else []
  }

  /** L1 reports at hooks, too, exactly what their gate asks for. */
  lemma {:induction false} HookFindingsAreExact(config: Config, hooks: seq<Hook>, f: Finding)
    ensures f in HookFindings(config, hooks) <==>
      exists h: nat :: h < |hooks| && f.location == AtHook(h) && ReportedFor(config, false, "", GatesOf(hooks[h]), f)
  {
    if hooks != [] {
      var n := |hooks| - 1;
      HookFindingsAreExact(config, hooks[..n], f);
      OneHook(config, hooks[n], n, f);
      if h: nat :| h < n && f.location == AtHook(h) && ReportedFor(config, false, "", GatesOf(hooks[h]), f) {
        assert hooks[..n][h] == hooks[h];
      }
    }
  }

  lemma OneHook(config: Config, hook: Hook, h: nat, f: Finding)
    ensures f in Report(config, Produced, AtHook(h), HookRefs(hook)) <==>
      f.location == AtHook(h) && ReportedFor(config, false, "", GatesOf(hook), f)
  {
    ReportIsExact(config, false, "", AtHook(h), GatesOf(hook), f);
    if hook.gate.Some? {
      assert [hook.gate.value][1..] == [];
      assert Refs(hook.gate.value, true, false) + [] == Refs(hook.gate.value, true, false);
    }
  }

  /** A check marks exactly the transitions that ask, without an alternative, for an
      event that cannot be recorded, or not in time. */
  lemma MarkedIffAsked(config: Config, timing: bool, i: nat)
    requires i < |config.transitions|
    ensures i in Blocked(config, timing, |config.transitions|) <==>
      exists event, cause ::
        && GatesAsk(config.transitions[i].gates, false, event)
        && Wrong(config, timing, config.transitions[i].from, event, cause, true)
  {
    var n := |config.transitions|;
    var t := config.transitions[i];
    ErrorIffBlocked(config, timing, i);
    if i in Blocked(config, timing, n) {
      var f :| f in TransitionFindings(config, timing, n) && f.severity == Error && f.location == AtTransition(i);
      TransitionFindingsAreExact(config, timing, f);
    }
    if event, cause :| GatesAsk(t.gates, false, event) && Wrong(config, timing, t.from, event, cause, true) {
      var f := Finding(Error, AtTransition(i), cause);
      assert ReportedFor(config, timing, t.from, t.gates, f) && ReportedAt(config, timing, f, i);
      TransitionFindingsAreExact(config, timing, f);
    }
  }

  // ---------------------------------------------------------------------------
  // In what order
  // ---------------------------------------------------------------------------

  /** `at` are the positions of the references that fail the test, in ascending order. */
  ghost predicate FaultsAt(faulty: EventRef -> bool, refs: seq<EventRef>, at: seq<nat>) {
    && (forall i: nat :: i in at <==> i < |refs| && faulty(refs[i]))
    && forall j, k :: 0 <= j < k < |at| ==> at[j] < at[k]
  }

  lemma FaultsNext(faulty: EventRef -> bool, refs: seq<EventRef>, at: seq<nat>, r: EventRef) returns (longer: seq<nat>)
    requires FaultsAt(faulty, refs, at)
    ensures FaultsAt(faulty, refs + [r], longer)
    ensures longer == if faulty(r) then at + [|refs|] else at
  {
    longer := if faulty(r) then at + [|refs|] else at;
    forall k | 0 <= k < |at| ensures at[k] < |refs| {
      assert at[k] in at;
    }
  }

  function Faulty(config: Config, check: Check): EventRef -> bool {
    r => Verdict(config, check, r).Some?
  }

  predicate IsReportOf(config: Config, check: Check, location: Location, r: EventRef, f: Finding) {
    ReportOne(config, check, location, r) == [f]
  }

  ghost predicate Reports(config: Config, check: Check, location: Location, refs: seq<EventRef>, at: seq<nat>, fs: seq<Finding>) {
    && FaultsAt(Faulty(config, check), refs, at) && |fs| == |at|
    && forall k :: 0 <= k < |at| ==> at[k] < |refs| && IsReportOf(config, check, location, refs[at[k]], fs[k])
  }

  /** There is one finding for each faulty reference, in the order of the references. */
  lemma {:induction false} ReportKeepsOrder(config: Config, check: Check, location: Location, refs: seq<EventRef>)
    returns (at: seq<nat>)
    ensures Reports(config, check, location, refs, at, Report(config, check, location, refs))
  {
    at := [];
    if refs != [] {
      var n := |refs| - 1;
      var before := ReportKeepsOrder(config, check, location, refs[..n]);
      at := ReportsNext(config, check, location, refs[..n], before, Report(config, check, location, refs[..n]), refs[n]);
      assert refs == refs[..n] + [refs[n]];
    }
  }

  lemma ReportsNext(config: Config, check: Check, location: Location, refs: seq<EventRef>, at: seq<nat>, fs: seq<Finding>, r: EventRef)
    returns (longer: seq<nat>)
    requires Reports(config, check, location, refs, at, fs)
    ensures Reports(config, check, location, refs + [r], longer, fs + ReportOne(config, check, location, r))
  {
    longer := FaultsNext(Faulty(config, check), refs, at, r);
    var all, gs := refs + [r], fs + ReportOne(config, check, location, r);
    assert |gs| == |longer|;
    forall k | 0 <= k < |longer| ensures longer[k] < |all| && IsReportOf(config, check, location, all[longer[k]], gs[k]) {
      if k < |at| {
        assert all[longer[k]] == refs[at[k]] && gs[k] == fs[k];
      }
    }
  }

  predicate FoundBefore(f: Finding, n: nat) {
    f.location.AtTransition? && f.location.index < n
  }

  predicate InOrder(fs: seq<Finding>, n: nat) {
    && (forall k :: 0 <= k < |fs| ==> FoundBefore(fs[k], n))
    && forall j, k :: 0 <= j < k < |fs| ==> FoundBefore(fs[j], fs[k].location.index + 1)
  }

  /** And transition after transition. */
  lemma {:induction false} TransitionsInOrder(config: Config, timing: bool, n: nat)
    requires n <= |config.transitions|
    ensures InOrder(TransitionFindings(config, timing, n), n)
  {
    if n > 0 {
      TransitionsInOrder(config, timing, n - 1);
      OneTransitionIsThere(config, timing, n - 1);
      OrderedConcat(TransitionFindings(config, timing, n - 1), OneTransition(config, timing, n - 1), n - 1);
    }
  }

  lemma OneTransitionIsThere(config: Config, timing: bool, i: nat)
    requires i < |config.transitions|
    ensures forall k :: 0 <= k < |OneTransition(config, timing, i)| ==> OneTransition(config, timing, i)[k].location == AtTransition(i)
  {
    var t := config.transitions[i];
    var check := CheckOn(config, timing, t);
    var at := ReportKeepsOrder(config, check, AtTransition(i), GateRefsOf(t));
    var fs := OneTransition(config, timing, i);
    forall k | 0 <= k < |fs| ensures fs[k].location == AtTransition(i) {
      assert IsReportOf(config, check, AtTransition(i), GateRefsOf(t)[at[k]], fs[k]);
      assert [fs[k]][0] == fs[k];
    }
  }

  lemma OrderedConcat(fs: seq<Finding>, gs: seq<Finding>, i: nat)
    requires InOrder(fs, i) && forall k :: 0 <= k < |gs| ==> gs[k].location == AtTransition(i)
    ensures InOrder(fs + gs, i + 1)
  {
  }
}
