/** What L3's silence (src/lint/checks.rs) means for the runs of a protocol: no run
    gets from a boundary's start to its target past the tagged transitions. */
module BoundaryRuns {
  import opened Wrappers
  import opened ProtocolConfig
  import opened LedgerEntries
  import opened Graphs
  import opened RunState
  import opened Lint
  import opened ProtocolRuns
  import opened LintSoundness

  ghost predicate MovesAt(config: Config, initial: string, s: System, step: Step) {
    exists i :: 0 <= i < |Appended(config, initial, s, step)| && IsMove(Appended(config, initial, s, step)[i])
  }

  /** The machine moved after the first `k` steps. */
  ghost predicate MovedSince(config: Config, initial: string, start: System, steps: seq<Step>, k: nat) {
    && k < |steps|
    && var n := |steps| - 1;
       MovedSince(config, initial, start, steps[..n], k) || MovesAt(config, initial, Run(config, initial, start, steps[..n]), steps[n])
  }

  /** The step commits a transition tagged with the boundary. */
  ghost predicate CrossesAt(config: Config, initial: string, name: string, s: System, step: Step) {
    exists i: nat :: i < |config.transitions| && config.transitions[i].boundary == Some(name) && Fires(config, initial, s, step, i)
  }

  ghost predicate CrossedSince(config: Config, initial: string, name: string, start: System, steps: seq<Step>, k: nat) {
    && k < |steps|
    && var n := |steps| - 1;
       || CrossedSince(config, initial, name, start, steps[..n], k)
       || CrossesAt(config, initial, name, Run(config, initial, start, steps[..n]), steps[n])
  }

  /** A step that moves the machine without crossing follows an untagged edge. */
  lemma UncrossedMove(config: Config, initial: string, name: string, s: System, step: Step)
    requires AllJustified(config, initial, s) && StraightAt(config, initial, s, step)
    requires MovesAt(config, initial, s, step) && !CrossesAt(config, initial, name, s, step)
    ensures Reaches(UntaggedEdges(config, name), CurrentState(initial, s.ledger),
      CurrentState(initial, Apply(config, initial, s, step).ledger))
  {
    var p := s.prepared[step.pid];
    assert Justified(config, initial, s.ledger, p);
    assert Fires(config, initial, s, step, p.index);
    var tail := step.attested + step.emitted;
    assert [step.moved] + step.attested + step.emitted == [step.moved] + tail;
    TailIsQuiet(config, initial, s, step, tail);
    LandsInTarget(initial, s.ledger, config.transitions[p.index], step.moved, tail);
    UntaggedEdge(config, name, p.index);
  }

  lemma LandsInTarget(initial: string, ledger: seq<LedgerEntry>, t: Transition, moved: LedgerEntry, tail: seq<LedgerEntry>)
    requires IsMove(moved) && Target(moved) == Some(t.to) && NoMoves(tail)
    ensures CurrentState(initial, ledger + ([moved] + tail)) == t.to
  {
    StateSnoc(initial, ledger, moved);
    StateAfter(initial, ledger + [moved], tail);
    assert ledger + ([moved] + tail) == ledger + [moved] + tail;
  }

  lemma UntaggedEdge(config: Config, name: string, i: nat)
    requires i < |config.transitions| && config.transitions[i].boundary != Some(name)
    ensures Reaches(UntaggedEdges(config, name), config.transitions[i].from, config.transitions[i].to)
  {
    var e := EdgeOf(config.transitions[i], i);
    KeptEdgesAreExact(config.transitions, Outside(name));
    SingleEdgePath(UntaggedEdges(config, name), e);
    assert [e] != [];
  }

  lemma ReachesThenLeads(edges: seq<Edge>, a: string, b: string, c: string)
    requires Leads(edges, a, b) && Reaches(edges, b, c)
    ensures Reaches(edges, a, c)
  {
    if a != b {
      var p: seq<Edge> :| p != [] && IsPath(edges, a, b, p);
      var q: seq<Edge> :| q != [] && IsPath(edges, b, c, q);
      PathsCompose(edges, a, b, c, p, q);
      assert p + q != [];
    }
  }

  lemma QuietStep(config: Config, initial: string, s: System, step: Step)
    requires !MovesAt(config, initial, s, step)
    ensures CurrentState(initial, Apply(config, initial, s, step).ledger) == CurrentState(initial, s.ledger)
  {
    StateAfter(initial, s.ledger, Appended(config, initial, s, step));
  }

  /** While it crosses nothing, a run that moves by commits follows untagged edges. */
  lemma {:induction false} UncrossedRun(config: Config, initial: string, name: string, start: System,
      steps: seq<Step>, k: nat)
    requires Start(start) && k <= |steps| && !CrossedSince(config, initial, name, start, steps, k)
    requires Throughout(config, initial, start, steps, Straight(config, initial))
    ensures var before, after := CurrentState(initial, Run(config, initial, start, steps[..k]).ledger),
                                 CurrentState(initial, Run(config, initial, start, steps).ledger);
      && Leads(UntaggedEdges(config, name), before, after)
      && (MovedSince(config, initial, start, steps, k) ==> Reaches(UntaggedEdges(config, name), before, after))
    decreases |steps|
  {
    if k == |steps| {
      assert steps[..k] == steps;
    } else {
      var n := |steps| - 1;
      var s := Run(config, initial, start, steps[..n]);
      var before := CurrentState(initial, Run(config, initial, start, steps[..k]).ledger);
      assert steps[..n][..k] == steps[..k];
      UncrossedRun(config, initial, name, start, steps[..n], k);
      if MovesAt(config, initial, s, steps[n]) {
        EveryRunIsJustified(config, initial, start, steps[..n]);
        UncrossedMove(config, initial, name, s, steps[n]);
        ReachesThenLeads(UntaggedEdges(config, name), before, CurrentState(initial, s.ledger),
          CurrentState(initial, Apply(config, initial, s, steps[n]).ledger));
      } else {
        QuietStep(config, initial, s, steps[n]);
      }
    }
  }

  /** The run stood at the boundary's start after `k` steps, has moved since, and
      stands at its target. */
  ghost predicate PassesFrom(config: Config, initial: string, b: Boundary, start: System, steps: seq<Step>, k: nat) {
    && k <= |steps| && MovedSince(config, initial, start, steps, k)
    && CurrentState(initial, Run(config, initial, start, steps[..k]).ledger) == b.from
    && CurrentState(initial, Run(config, initial, start, steps).ledger) == b.to
  }

  /** Where L3 is silent, a run that moves only by its transitions gets from the
      boundary's start to its target only by committing a tagged one. */
  lemma SilentBoundaryIsCrossed(config: Config, initial: string, b: Boundary, start: System, steps: seq<Step>, k: nat)
    requires Start(start) && BoundaryVerdict(config, b, [])
    requires Throughout(config, initial, start, steps, Straight(config, initial))
    requires PassesFrom(config, initial, b, start, steps, k)
    ensures CrossedSince(config, initial, b.name, start, steps, k)
  {
    if !CrossedSince(config, initial, b.name, start, steps, k) {
      UncrossedRun(config, initial, b.name, start, steps, k);
    }
  }

  /** However the run continues, it gets to the boundary's target by crossing it. */
  ghost predicate AlwaysCrosses(config: Config, initial: string, b: Boundary, start: System, reach: seq<Step>) {
    forall steps :: Continues(config, initial, start, reach, steps) && PassesFrom(config, initial, b, start, steps, |reach|) ==>
      CrossedSince(config, initial, b.name, start, steps, |reach|)
  }

  /** Where L3 is silent and no hook writes transitions, every continuation of a run
      that stands at the boundary's start crosses it on the way to its target if and
      only if `state_transition` is restricted: otherwise one by hand routes around. */
  lemma CrossedIffMovesRestricted(config: Config, initial: string, b: Boundary, start: System, reach: seq<Step>)
    requires Start(start) && BoundaryVerdict(config, b, []) && NoHookMoves(config)
    requires ReachesState(config, initial, start, reach, b.from)
    ensures AlwaysCrosses(config, initial, b, start, reach) <==> Restricted(config, STATE_TRANSITION)
  {
    if Restricted(config, STATE_TRANSITION) {
      forall steps | Continues(config, initial, start, reach, steps) && PassesFrom(config, initial, b, start, steps, |reach|)
        ensures CrossedSince(config, initial, b.name, start, steps, |reach|)
      {
        GuardedRunIsStraight(config, initial, start, steps);
        SilentBoundaryIsCrossed(config, initial, b, start, steps, |reach|);
      }
    } else {
      var longer := AroundByHand(config, initial, b, start, reach);
      assert Continues(config, initial, start, reach, longer);
    }
  }

  lemma HandMoveCrossesNothing(config: Config, initial: string, name: string, s: System, e: LedgerEntry)
    requires IsMove(e) && MayRecord(config, initial, s.ledger, e, 0, ByHand)
    ensures MovesAt(config, initial, s, Record(e, 0, ByHand)) && !CrossesAt(config, initial, name, s, Record(e, 0, ByHand))
  {
    assert Appended(config, initial, s, Record(e, 0, ByHand))[0] == e;
  }

  lemma AroundByHand(config: Config, initial: string, b: Boundary, start: System,
      reach: seq<Step>) returns (longer: seq<Step>)
    requires ReachesState(config, initial, start, reach, b.from) && !Restricted(config, STATE_TRANSITION)
    ensures Continues(config, initial, start, reach, longer)
    ensures PassesFrom(config, initial, b, start, longer, |reach|)
    ensures !CrossedSince(config, initial, b.name, start, longer, |reach|)
  {
    var s := Run(config, initial, start, reach);
    var e := EntryTo(config, STATE_TRANSITION, b.to);
    HandEntries(config, initial, s.ledger, STATE_TRANSITION, b.to);
    HandStep(config, initial, start, reach, e);
    StateSnoc(initial, s.ledger, e);
    longer := reach + [Record(e, 0, ByHand)];
    assert longer[..|reach|] == reach && reach[..|reach|] == reach;
    HandMoveCrossesNothing(config, initial, b.name, s, e);
  }
}
