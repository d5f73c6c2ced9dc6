/** Which candidate a command takes (`prepare_transition` of
    src/state/machine.rs) and which one its dry run announces (`cmd_gate_check`
    of src/cli/transition.rs). */
module TransitionChoice {
  import opened Wrappers
  import opened ProtocolConfig
  import opened LedgerEntries
  import opened GateFilters
  import opened Gates
  import opened RunState
  import opened ProtocolRuns

  /** What the machine answers: no candidate, every candidate blocked, the emit that
      cannot be made, or a transition ready to be committed. */
  datatype Answer =
    | NoTransition
    | Blocked(candidates: seq<nat>)
    | EmitFailed(index: nat, emit: nat)
    | Ready(index: nat)

  /** A process's copy of the ledger and what it evaluates its gates in: one context
      a transition, since the target state supplies the template variables. */
  datatype View = View(initial: string, copy: seq<LedgerEntry>, contexts: seq<Context>)
  {
    predicate Of(config: Config) {
      && |contexts| == |config.transitions|
      && forall i :: 0 <= i < |contexts| ==> contexts[i].config == config && contexts[i].ledger == copy
    }

    function State(): string {
      CurrentState(initial, copy)
    }
  }

  /** Transition `i` is a candidate for the command in the view's state. */
  predicate IsCandidate(config: Config, view: View, command: string, i: nat)
    requires i < |config.transitions|
  {
    config.transitions[i].command == command && config.transitions[i].from == view.State()
  }

  predicate Passes(config: Config, view: View, command: string, i: nat)
    requires view.Of(config) && i < |config.transitions|
  {
    IsCandidate(config, view, command, i) && AllPass(config.transitions[i].gates, view.contexts[i])
  }

  /** The first passing candidate in declaration order, if any passes. */
  predicate IsChoice(config: Config, view: View, command: string, choice: Option<nat>)
    requires view.Of(config)
  {
    match choice
    case None => forall i :: 0 <= i < |config.transitions| ==> !Passes(config, view, command, i)
    case Some(first) =>
      && first < |config.transitions| && Passes(config, view, command, first)
      && forall i :: 0 <= i < first ==> !Passes(config, view, command, i)
  }

  /** Emit `k` of transition `i` is refused: its event is restricted, or its fields
      do not resolve. `broken` are the emits of the second kind. */
  predicate IsRefused(config: Config, broken: set<(nat, nat)>, i: nat, k: nat)
    requires i < |config.transitions| && k < |config.transitions[i].emits|
  {
    Restricted(config, config.transitions[i].emits[k]) || (i, k) in broken
  }

  /** The position of the first refused emit. */
  predicate IsFirstRefused(config: Config, broken: set<(nat, nat)>, i: nat, refused: Option<nat>)
    requires i < |config.transitions|
  {
    var n := |config.transitions[i].emits|;
    match refused
    case None => forall k :: 0 <= k < n ==> !IsRefused(config, broken, i, k)
    case Some(first) =>
      && first < n && IsRefused(config, broken, i, first)
      && forall k :: 0 <= k < first ==> !IsRefused(config, broken, i, k)
  }

  /** `ids` are the positions of the candidates, in order. */
  ghost predicate AreCandidates(config: Config, view: View, command: string, ids: seq<nat>) {
    && (forall i: nat :: i in ids <==>
          && i < |config.transitions|
          && config.transitions[i].command == command && config.transitions[i].from == CurrentState(view.initial, view.copy))
    && forall j, k :: 0 <= j < k < |ids| ==> ids[j] < ids[k]
  }

  method Candidates(config: Config, view: View, command: string) returns (ids: seq<nat>)
    ensures AreCandidates(config, view, command, ids)
  {
    ids := [];
    for i := 0 to |config.transitions|
      invariant forall k: nat :: k in ids <==> k < i && IsCandidate(config, view, command, k)
      invariant forall k :: 0 <= k < |ids| ==> ids[k] < i
      invariant forall j, k :: 0 <= j < k < |ids| ==> ids[j] < ids[k]
    {
      if config.transitions[i].command == command && config.transitions[i].from == view.State() {
        ids := ids + [i];
      }
    }
  }

  method EveryGatePasses(gates: seq<Gate>, ctx: Context) returns (passed: bool)
    ensures passed == AllPass(gates, ctx)
  {
    passed := true;
    for i := 0 to |gates|
      invariant passed <==> forall k :: 0 <= k < i ==> Eval(gates[k], ctx)
    {
      passed := passed && Eval(gates[i], ctx);
    }
  }

  method ResolveEmits(config: Config, broken: set<(nat, nat)>, i: nat) returns (refused: Option<nat>)
    requires i < |config.transitions|
    ensures IsFirstRefused(config, broken, i, refused)
  {
    for k := 0 to |config.transitions[i].emits|
      invariant forall j :: 0 <= j < k ==> !IsRefused(config, broken, i, j)
    {
      if Restricted(config, config.transitions[i].emits[k]) {
        return Some(k);
      }
      if (i, k) in broken {
        return Some(k);
      }
    }
    refused := None;
  }

  /** Try each candidate in turn and stop at the first that passes; a refused emit
      then fails the command, and no later candidate is tried. */
  method PrepareTransition(config: Config, view: View, broken: set<(nat, nat)>, command: string) returns (answer: Answer)
    requires view.Of(config)
    ensures match answer
      case NoTransition => AreCandidates(config, view, command, [])
      case Blocked(ids) =>
        IsChoice(config, view, command, None) && ids != [] && AreCandidates(config, view, command, ids)
      case EmitFailed(i, k) => IsChoice(config, view, command, Some(i)) && IsFirstRefused(config, broken, i, Some(k))
      case Ready(i) =>
        && IsChoice(config, view, command, Some(i)) && IsFirstRefused(config, broken, i, None)
        && config.transitions[i].command == command
        && MayPrepare(config, view.initial, view.copy, i, |view.copy|, view.contexts[i])
  {
    var ids := Candidates(config, view, command);
    if ids == [] {
      return NoTransition;
    }
    for k := 0 to |ids|
      invariant forall j :: 0 <= j < k ==> ids[j] < |config.transitions| && !Passes(config, view, command, ids[j])
    {
      assert ids[k] in ids;
      var passed := EveryGatePasses(config.transitions[ids[k]].gates, view.contexts[ids[k]]);
      if passed {
        var refused := ResolveEmits(config, broken, ids[k]);
        if refused.Some? {
          return EmitFailed(ids[k], refused.value);
        }
        MayPrepareOnCopy(config, view, broken, command, ids[k]);
        return Ready(ids[k]);
      }
    }
    answer := Blocked(ids);
  }

  /** Evaluate every candidate and remember the first that passed. */
  method GateCheck(config: Config, view: View, command: string) returns (wouldTake: Option<nat>)
    requires view.Of(config)
    ensures IsChoice(config, view, command, wouldTake)
  {
    var ids := Candidates(config, view, command);
    wouldTake := None;
    for k := 0 to |ids|
      invariant wouldTake.None? ==> forall j :: 0 <= j < k ==> ids[j] < |config.transitions| && !Passes(config, view, command, ids[j])
      invariant wouldTake.Some? ==> IsChoice(config, view, command, wouldTake)
    {
      assert ids[k] in ids;
      if config.transitions[ids[k]].gates == [] {
        if wouldTake.None? {
          wouldTake := Some(ids[k]);
        }
        continue;
      }
      var allPassed := EveryGatePasses(config.transitions[ids[k]].gates, view.contexts[ids[k]]);
      if allPassed && wouldTake.None? {
        wouldTake := Some(ids[k]);
      }
    }
  }

  lemma MayPrepareOnCopy(config: Config, view: View, broken: set<(nat, nat)>, command: string, i: nat)
    requires view.Of(config) && i < |config.transitions| && Passes(config, view, command, i)
    requires IsFirstRefused(config, broken, i, None)
    ensures MayPrepare(config, view.initial, view.copy, i, |view.copy|, view.contexts[i])
  {
    assert view.copy[..|view.copy|] == view.copy;
    forall k | 0 <= k < |config.transitions[i].emits| ensures !Restricted(config, config.transitions[i].emits[k]) {
      assert !IsRefused(config, broken, i, k);
    }
  }

  /** The dry run and then the command, over the same view: what is announced is
      what is taken, unless one of its emits is refused, which the dry run does not
      look at. */
  method DryRunThenTake(config: Config, view: View, broken: set<(nat, nat)>, command: string)
    returns (wouldTake: Option<nat>, answer: Answer)
    requires view.Of(config)
    ensures wouldTake.None? <==> answer.NoTransition? || answer.Blocked?
    ensures wouldTake.Some? ==>
      && wouldTake.value < |config.transitions|
      && (answer == Ready(wouldTake.value) <==> IsFirstRefused(config, broken, wouldTake.value, None))
      && (answer != Ready(wouldTake.value) ==> answer.EmitFailed? && answer.index == wouldTake.value)
  {
    wouldTake := GateCheck(config, view, command);
    answer := PrepareTransition(config, view, broken, command);
  }
}
