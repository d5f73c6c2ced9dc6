/** What a hook reads off the ledger before it fires (src/hooks/eval.rs): how much
    happened since the last transition, and the state the run is in, which it
    derives on its own (`RunState.DeriveCurrentState`). */
module Hooks {
  import opened Wrappers
  import opened ProtocolConfig
  import opened LedgerEntries
  import opened RunState
  import opened ProtocolRuns
  import opened LintSoundness

  // ---------------------------------------------------------------------------
  // Where hooks and the machine part
  // ---------------------------------------------------------------------------

  /** Hooks and the state machine read the same state off the ledger. */
  predicate Agree(initial: string, ledger: seq<LedgerEntry>) {
    LastTarget(initial, ledger) == CurrentState(initial, ledger)
  }

  /** One entry ends agreement exactly when it is a transition without a target and
      the run has left its initial state. */
  lemma AppendAgreesIff(initial: string, ledger: seq<LedgerEntry>, e: LedgerEntry)
    requires Agree(initial, ledger)
    ensures Agree(initial, ledger + [e]) <==>
      !IsMove(e) || Target(e).Some? || CurrentState(initial, ledger) == initial
  {
    StateSnoc(initial, ledger, e);
    assert (ledger + [e])[..|ledger|] == ledger;
  }

  const TO_B := LedgerEntry(SCHEMA_VERSION, 1, "", "", "", STATE_TRANSITION, "", "", "", [(TO, "b")])
  const BARE := LedgerEntry(SCHEMA_VERSION, 2, "", "", "", STATE_TRANSITION, "", "", "", [])

  /** After a transition to "b" and one without a target, hooks read "b" where the
      machine is back in "a". */
  lemma BareMoveParts()
    ensures LastTarget("a", [TO_B, BARE]) == "b" && CurrentState("a", [TO_B, BARE]) == "a"
  {
    assert [TO_B, BARE] == [TO_B] + [BARE] && [TO_B, BARE][..1] == [TO_B];
    StateSnoc("a", [TO_B], BARE);
  }

  lemma {:induction false} NamedMovesAgree(initial: string, ledger: seq<LedgerEntry>, more: seq<LedgerEntry>)
    requires Agree(initial, ledger)
    requires forall i :: 0 <= i < |more| && IsMove(more[i]) ==> Target(more[i]).Some?
    ensures Agree(initial, ledger + more)
    decreases |more|
  {
    if more == [] {
      assert ledger + more == ledger;
    } else {
      var n := |more| - 1;
      NamedMovesAgree(initial, ledger, more[..n]);
      AppendAgreesIff(initial, ledger + more[..n], more[n]);
      assert ledger + more == ledger + more[..n] + [more[n]];
    }
  }

  /** What is appended last decides, once any of it names a target. */
  lemma {:induction false} TargetAfter(initial: string, ledger: seq<LedgerEntry>, more: seq<LedgerEntry>)
    ensures LastTarget(initial, ledger + more) == LastTarget(LastTarget(initial, ledger), more)
    decreases |more|
  {
    if more == [] {
      assert ledger + more == ledger;
    } else {
      var n := |more| - 1;
      TargetAfter(initial, ledger, more[..n]);
      assert (ledger + more)[..|ledger| + n] == ledger + more[..n];
    }
  }

  /** A block of entries that begins with a named transition hides all before it. */
  lemma NamedBlockHides(initial: string, ledger: seq<LedgerEntry>, moved: LedgerEntry, more: seq<LedgerEntry>)
    requires Target(moved).Some?
    ensures LastTarget(initial, ledger + ([moved] + more)) == LastTarget(Target(moved).value, more)
    ensures CurrentState(initial, ledger + ([moved] + more)) == CurrentState(initial, [moved] + more)
  {
    assert ([moved] + more)[0] == moved;
    StateAfter(initial, ledger, [moved] + more);
    TargetAfter(initial, ledger, [moved] + more);
    TargetAfter(LastTarget(initial, ledger), [moved], more);
  }

  lemma AttestationsAreQuiet(initial: string, moved: LedgerEntry, attested: seq<LedgerEntry>, emitted: seq<LedgerEntry>)
    requires Target(moved).Some? && forall i :: 0 <= i < |attested| ==> attested[i].eventType == GATE_ATTESTATION
    ensures LastTarget(Target(moved).value, attested + emitted) == LastTarget(Target(moved).value, emitted)
    ensures CurrentState(initial, [moved] + (attested + emitted)) == CurrentState(initial, [moved] + emitted)
  {
    var state := Target(moved).value;
    NoTargets(state, attested);
    TargetAfter(state, attested, emitted);
    StateAfter(initial, [moved], attested);
    StateAfter(initial, [moved] + attested, emitted);
    StateAfter(initial, [moved], emitted);
    assert [moved] + (attested + emitted) == [moved] + attested + emitted;
  }

  lemma {:induction false} NoTargets(initial: string, es: seq<LedgerEntry>)
    requires forall i :: 0 <= i < |es| ==> !IsMove(es[i])
    ensures LastTarget(initial, es) == initial
  {
    if es != [] {
      NoTargets(initial, es[..|es| - 1]);
    }
  }

  /** After a commit, whatever the ledger held before, the two agree exactly when
      the last of its transitions, emitted ones included, names a target, or the
      last that names one names the initial state. */
  lemma CommitAgreesIff(config: Config, initial: string, s: System, step: Step, index: nat)
    requires index < |config.transitions| && Fires(config, initial, s, step, index)
    ensures Agree(initial, Apply(config, initial, s, step).ledger) <==>
      LastMoveIsNamed([step.moved] + step.emitted) || LastNamedIs(initial, [step.moved] + step.emitted)
  {
    assert [step.moved] + step.attested + step.emitted == [step.moved] + (step.attested + step.emitted);
    NamedBlockHides(initial, s.ledger, step.moved, step.attested + step.emitted);
    AttestationsAreQuiet(initial, step.moved, step.attested, step.emitted);
    assert [] + ([step.moved] + step.emitted) == [step.moved] + step.emitted;
    NamedBlockHides(initial, [], step.moved, step.emitted);
    HookStateIsExact(initial, [step.moved] + step.emitted);
  }

  // ---------------------------------------------------------------------------
  // Agreement over whole runs
  // ---------------------------------------------------------------------------

  /** Callers cannot record a `state_transition` without a target. */
  predicate MovesNeedTargets(config: Config) {
    Restricted(config, STATE_TRANSITION) || TO in Required(config, STATE_TRANSITION)
  }

  /** No transition emits `state_transition`; one that emits it restricted is refused. */
  predicate NoEmittedMoves(config: Config) {
    || Restricted(config, STATE_TRANSITION)
    || forall i :: 0 <= i < |config.transitions| ==> STATE_TRANSITION !in config.transitions[i].emits
  }

  /** A transition recorded outside a commit names its target. */
  lemma RecordedMoveIsNamed(config: Config, initial: string, s: System, step: Step)
    requires SignedProperlyAt(config, initial, s, step) && MovesNeedTargets(config) && NoHookMoves(config)
    requires step.Record? && MayRecord(config, initial, s.ledger, step.entry, step.seen, step.writer)
    requires IsMove(step.entry)
    ensures Target(step.entry).Some?
  {
    if step.writer.ByHand? {
      assert TO in config.events[STATE_TRANSITION].required;
    }
  }

  /** So does every transition a commit writes. */
  lemma CommittedMoveIsNamed(config: Config, initial: string, s: System, step: Step, k: nat)
    requires AllJustified(config, initial, s) && NoEmittedMoves(config)
    requires step.Commit? && k < |Appended(config, initial, s, step)| && IsMove(Appended(config, initial, s, step)[k])
    ensures Target(Appended(config, initial, s, step)[k]).Some?
  {
    assert Justified(config, initial, s.ledger, s.prepared[step.pid]);
  }

  lemma StepAgrees(config: Config, initial: string, s: System, step: Step)
    requires AllJustified(config, initial, s) && SignedProperlyAt(config, initial, s, step)
    requires MovesNeedTargets(config) && NoHookMoves(config) && NoEmittedMoves(config)
    requires Agree(initial, s.ledger)
    ensures Agree(initial, Apply(config, initial, s, step).ledger)
  {
    var more := Appended(config, initial, s, step);
    forall k | 0 <= k < |more| && IsMove(more[k]) ensures Target(more[k]).Some? {
      if step.Commit? {
        CommittedMoveIsNamed(config, initial, s, step, k);
      } else {
        RecordedMoveIsNamed(config, initial, s, step);
      }
    }
    NamedMovesAgree(initial, s.ledger, more);
  }

  lemma {:induction false} RunAgrees(config: Config, initial: string, start: System, steps: seq<Step>)
    requires Start(start) && MovesNeedTargets(config) && NoHookMoves(config) && NoEmittedMoves(config)
    requires Throughout(config, initial, start, steps, SignersKeepWindows(config, initial))
    ensures Agree(initial, Run(config, initial, start, steps).ledger)
    decreases |steps|
  {
    if steps == [] {
      StartState(initial, start);
    } else {
      var n := |steps| - 1;
      RunAgrees(config, initial, start, steps[..n]);
      EveryRunIsJustified(config, initial, start, steps[..n]);
      StepAgrees(config, initial, Run(config, initial, start, steps[..n]), steps[n]);
    }
  }

  lemma StartState(initial: string, start: System)
    requires Start(start)
    ensures LastTarget(initial, start.ledger) == CurrentState(initial, start.ledger) == initial
  {
    NoTargets(initial, start.ledger);
    StateAfter(initial, [], start.ledger);
    assert [] + start.ledger == start.ledger;
  }

  /** A transition to somewhere and then one without a target, both by hand. */
  lemma DisagreeByHand(config: Config, initial: string, start: System) returns (steps: seq<Step>)
    requires Start(start) && !MovesNeedTargets(config)
    ensures Throughout(config, initial, start, steps, SignersKeepWindows(config, initial))
    ensures !Agree(initial, Run(config, initial, start, steps).ledger)
  {
    var away := EntryTo(config, STATE_TRANSITION, initial + "x");
    var bare := BareEntry(config, STATE_TRANSITION);
    HandEntries(config, initial, start.ledger, STATE_TRANSITION, initial + "x");
    HandStep(config, initial, start, [], away);
    var ledger := start.ledger + [away];
    HandEntries(config, initial, ledger, STATE_TRANSITION, "");
    steps := [] + [Record(away, 0, ByHand)];
    HandStep(config, initial, start, steps, bare);
    steps := steps + [Record(bare, 0, ByHand)];
    StartState(initial, start);
    AppendAgreesIff(initial, start.ledger, away);
    StateSnoc(initial, start.ledger, away);
    assert |initial + "x"| != |initial|;
    AppendAgreesIff(initial, ledger, bare);
  }

  /** Where `state_transition` is neither emitted nor auto-recorded, hooks and the
      state machine agree in every run if and only if the event is restricted or
      its declaration requires `to`: otherwise it can be recorded by hand without. */
  lemma HooksAgreeIffMovesNeedTargets(config: Config, initial: string, start: System)
    requires Start(start) && NoHookMoves(config) && NoEmittedMoves(config)
    ensures MovesNeedTargets(config) <==>
      forall steps :: Throughout(config, initial, start, steps, SignersKeepWindows(config, initial)) ==>
        Agree(initial, Run(config, initial, start, steps).ledger)
  {
    if MovesNeedTargets(config) {
      forall steps | Throughout(config, initial, start, steps, SignersKeepWindows(config, initial))
        ensures Agree(initial, Run(config, initial, start, steps).ledger)
      {
        RunAgrees(config, initial, start, steps);
      }
    } else {
      var steps := DisagreeByHand(config, initial, start);
    }
  }

  /** A hook that auto-records transitions without a target breaks agreement in any
      run it finds away from the initial state, restricted or not. */
  lemma HookMoveDisagrees(config: Config, initial: string, s: System, i: nat, e: LedgerEntry)
    requires Agree(initial, s.ledger) && CurrentState(initial, s.ledger) != initial
    requires i < |config.hooks| && config.hooks[i].autoRecord == Some(STATE_TRANSITION)
    requires Admits(config.hooks[i], CurrentState(initial, s.ledger))
    requires IsMove(e) && Target(e).None?
    ensures !Agree(initial, Apply(config, initial, s, Record(e, |s.ledger|, ByHook(i))).ledger)
  {
    assert s.ledger[..|s.ledger|] == s.ledger;
    assert MayRecord(config, initial, s.ledger, e, |s.ledger|, ByHook(i));
    AppendAgreesIff(initial, s.ledger, e);
  }

  // ---------------------------------------------------------------------------
  // Counting since the last transition
  // ---------------------------------------------------------------------------

  /** Genesis never counts; an empty or absent list of types admits every other type. */
  predicate Counts(e: LedgerEntry, types: Option<seq<string>>) {
    e.eventType != GENESIS && (types.Some? && types.value != [] ==> e.eventType in types.value)
  }

  function CountBack(ledger: seq<LedgerEntry>, types: Option<seq<string>>): nat {
    if ledger == [] then 0
    else
      var n := |ledger| - 1;
      if ledger[n].eventType == STATE_TRANSITION then 0
      else CountBack(ledger[..n], types) + if Counts(ledger[n], types) then 1 else 0
  }

  method CountEventsSinceLastTransition(ledger: seq<LedgerEntry>, types: Option<seq<string>>) returns (count: nat)
    ensures count == |SinceLastMove(ledger, types)|
  {
    count := 0;
    var n := |ledger|;
    assert ledger[..n] == ledger;
    while n > 0
      invariant 0 <= n <= |ledger| && CountBack(ledger, types) == count + CountBack(ledger[..n], types)
    {
      assert ledger[..n][..n - 1] == ledger[..n - 1];
      n := n - 1;
      if ledger[n].eventType == STATE_TRANSITION {
        break;
      }
      if ledger[n].eventType == GENESIS {
        continue;
      }
      if types.Some? && types.value != [] && ledger[n].eventType !in types.value {
        continue;
      }
      count := count + 1;
    }
    CountsSinceLastMove(ledger, types);
  }

  /** The counted entries that no transition follows. */
  function SinceLastMove(ledger: seq<LedgerEntry>, types: Option<seq<string>>): set<nat> {
    set i: nat | i < |ledger| && CountsSince(ledger, types, i)
  }

  predicate CountsSince(ledger: seq<LedgerEntry>, types: Option<seq<string>>, i: nat)
    requires i < |ledger|
  {
    Listed(ledger[i].eventType, types) && NoMoveFrom(ledger, i)
  }

  predicate Listed(eventType: string, types: Option<seq<string>>) {
    eventType != "genesis" && (types in {None, Some([])} || eventType in types.value)
  }

  predicate NoMoveFrom(ledger: seq<LedgerEntry>, i: nat) {
    forall j :: i <= j < |ledger| ==> ledger[j].eventType != STATE_TRANSITION
  }

  lemma SinceSnoc(ledger: seq<LedgerEntry>, types: Option<seq<string>>)
    requires ledger != [] && ledger[|ledger| - 1].eventType != STATE_TRANSITION
    ensures var n := |ledger| - 1;
      |SinceLastMove(ledger, types)| == |SinceLastMove(ledger[..n], types)| + if Counts(ledger[n], types) then 1 else 0
  {
    var n := |ledger| - 1;
    var shorter := ledger[..n];
    forall i: nat | i < |ledger|
      ensures CountsSince(ledger, types, i) == if i == n then Counts(ledger[n], types) else CountsSince(shorter, types, i)
    {
    }
    if Counts(ledger[n], types) {
      assert SinceLastMove(ledger, types) == SinceLastMove(shorter, types) + {n};
    } else {
      assert SinceLastMove(ledger, types) == SinceLastMove(shorter, types);
    }
  }

  lemma {:induction false} CountsSinceLastMove(ledger: seq<LedgerEntry>, types: Option<seq<string>>)
    ensures CountBack(ledger, types) == |SinceLastMove(ledger, types)|
  {
    if ledger == [] || ledger[|ledger| - 1].eventType == STATE_TRANSITION {
      assert SinceLastMove(ledger, types) == {} by {
        forall i: nat | i < |ledger| ensures !NoMoveFrom(ledger, i) {
          assert ledger[|ledger| - 1].eventType == STATE_TRANSITION;
        }
      }
    } else {
      CountsSinceLastMove(ledger[..|ledger| - 1], types);
      SinceSnoc(ledger, types);
    }
  }
}
