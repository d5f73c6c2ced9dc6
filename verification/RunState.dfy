/** The state a run is in, as the state machine reads it off the ledger
    (src/state/machine.rs) and as hooks do (src/hooks/eval.rs). */
module RunState {
  import opened Wrappers
  import opened ProtocolConfig
  import opened LedgerEntries
  import opened GateFilters

  const TO := "to"

  predicate IsMove(e: LedgerEntry) {
    e.eventType == STATE_TRANSITION
  }

  /** What the machine makes of its last transition: a missing target is the initial state. */
  function Landing(initial: string, move: LedgerEntry): string {
    match Get(move.fields, TO)
    case Some(to) => to
    case None => initial
  }

  /** The state machine's reading: where the last transition landed. */
  function CurrentState(initial: string, ledger: seq<LedgerEntry>): string {
    var moves := EventsOfType(ledger, STATE_TRANSITION);
    if moves == [] then initial else Landing(initial, moves[|moves| - 1])
  }

  /** The state the run was in after its first `n` entries. */
  function StateAt(initial: string, ledger: seq<LedgerEntry>, n: nat): string
    requires n <= |ledger|
  {
    CurrentState(initial, ledger[..n])
  }

  lemma StateSnoc(initial: string, ledger: seq<LedgerEntry>, e: LedgerEntry)
    ensures CurrentState(initial, ledger + [e]) == if IsMove(e) then Landing(initial, e) else CurrentState(initial, ledger)
  {
    assert (ledger + [e])[..|ledger|] == ledger;
  }

  lemma PrefixKeepsState(initial: string, ledger: seq<LedgerEntry>, more: seq<LedgerEntry>, n: nat)
    requires n <= |ledger|
    ensures StateAt(initial, ledger + more, n) == StateAt(initial, ledger, n)
  {
    assert (ledger + more)[..n] == ledger[..n];
  }

  /** What is appended last decides, if any of it is a transition. */
  lemma {:induction false} StateAfter(initial: string, ledger: seq<LedgerEntry>, more: seq<LedgerEntry>)
    ensures CurrentState(initial, ledger + more)
         == if exists i :: 0 <= i < |more| && IsMove(more[i]) then CurrentState(initial, more) else CurrentState(initial, ledger)
    decreases |more|
  {
    if more == [] {
      assert ledger + more == ledger;
    } else {
      var n := |more| - 1;
      StateAfter(initial, ledger, more[..n]);
      StateSnoc(initial, ledger + more[..n], more[n]);
      StateSnoc(initial, more[..n], more[n]);
      assert more == more[..n] + [more[n]] && ledger + more == (ledger + more[..n]) + [more[n]];
      if i :| 0 <= i < |more| && IsMove(more[i]) && i < n {
        assert more[..n][i] == more[i];
      }
    }
  }

  // ---------------------------------------------------------------------------
  // The hooks' reading
  // ---------------------------------------------------------------------------

  /** The target a transition names. */
  function Target(e: LedgerEntry): Option<string> {
    if IsMove(e) then Get(e.fields, TO) else None
  }

  /** The target of the last transition that names one. */
  function LastTarget(initial: string, ledger: seq<LedgerEntry>): string {
    if ledger == [] then initial
    else
      var n := |ledger| - 1;
      if Target(ledger[n]).Some? then Target(ledger[n]).value else LastTarget(initial, ledger[..n])
  }

  method DeriveCurrentState(initial: string, ledger: seq<LedgerEntry>) returns (state: string)
    ensures state == LastTarget(initial, ledger)
  {
    var n := |ledger|;
    assert ledger[..n] == ledger;
    while n > 0
      invariant 0 <= n <= |ledger| && LastTarget(initial, ledger[..n]) == LastTarget(initial, ledger)
    {
      assert ledger[..n][..n - 1] == ledger[..n - 1];
      n := n - 1;
      if ledger[n].eventType == STATE_TRANSITION {
        var to := Get(ledger[n].fields, TO);
        if to.Some? {
          return to.value;
        }
      }
    }
    state := initial;
  }

  // ---------------------------------------------------------------------------
  // When the two agree
  // ---------------------------------------------------------------------------

  /** Entry `i` is the last transition on the ledger. */
  predicate IsLastMove(ledger: seq<LedgerEntry>, i: nat) {
    i < |ledger| && IsMove(ledger[i]) && forall j :: i < j < |ledger| ==> !IsMove(ledger[j])
  }

  /** Entry `i` is the last transition that names a target. */
  predicate IsLastNamed(ledger: seq<LedgerEntry>, i: nat) {
    i < |ledger| && Target(ledger[i]).Some? && forall j :: i < j < |ledger| ==> Target(ledger[j]).None?
  }

  /** The last transition names its target. */
  ghost predicate LastMoveIsNamed(ledger: seq<LedgerEntry>) {
    forall i: nat :: IsLastMove(ledger, i) ==> Target(ledger[i]).Some?
  }

  /** The last transition that names a target, if any does, names `initial`. */
  ghost predicate LastNamedIs(initial: string, ledger: seq<LedgerEntry>) {
    forall i: nat :: IsLastNamed(ledger, i) ==> Target(ledger[i]) == Some(initial)
  }

  lemma LastMoveSnoc(ledger: seq<LedgerEntry>, e: LedgerEntry, i: nat)
    ensures IsLastMove(ledger + [e], i) <==> if IsMove(e) then i == |ledger| else IsLastMove(ledger, i)
    ensures IsLastNamed(ledger + [e], i) <==> if Target(e).Some? then i == |ledger| else IsLastNamed(ledger, i)
  {
    var longer := ledger + [e];
    assert longer[|ledger|] == e;
    assert forall j :: 0 <= j < |ledger| ==> longer[j] == ledger[j];
  }

  lemma {:induction false} StateIsLastMove(initial: string, ledger: seq<LedgerEntry>, i: nat)
    requires IsLastMove(ledger, i)
    ensures CurrentState(initial, ledger) == Landing(initial, ledger[i])
  {
    var n := |ledger| - 1;
    StateSnoc(initial, ledger[..n], ledger[n]);
    assert ledger == ledger[..n] + [ledger[n]];
    if i < n {
      StateIsLastMove(initial, ledger[..n], i);
    }
  }

  lemma {:induction false} StateWithoutMove(initial: string, ledger: seq<LedgerEntry>) returns (i: nat)
    ensures IsLastMove(ledger, i) || CurrentState(initial, ledger) == LastTarget(initial, ledger) == initial
    ensures IsLastMove(ledger, i) || forall j :: 0 <= j < |ledger| ==> Target(ledger[j]).None?
  {
    i := 0;
    if ledger != [] {
      var n := |ledger| - 1;
      StateSnoc(initial, ledger[..n], ledger[n]);
      assert ledger == ledger[..n] + [ledger[n]];
      if IsMove(ledger[n]) {
        i := n;
      } else {
        i := StateWithoutMove(initial, ledger[..n]);
        LastMoveSnoc(ledger[..n], ledger[n], i);
      }
    }
  }

  lemma {:induction false} TargetIsLastNamed(initial: string, ledger: seq<LedgerEntry>) returns (i: nat)
    ensures IsLastNamed(ledger, i) ==> LastTarget(initial, ledger) == Target(ledger[i]).value
    ensures !IsLastNamed(ledger, i) ==> LastTarget(initial, ledger) == initial && forall k: nat :: !IsLastNamed(ledger, k)
    ensures forall k: nat :: IsLastNamed(ledger, k) ==> k == i
  {
    i := 0;
    if ledger != [] {
      var n := |ledger| - 1;
      assert ledger == ledger[..n] + [ledger[n]];
      if Target(ledger[n]).Some? {
        i := n;
      } else {
        i := TargetIsLastNamed(initial, ledger[..n]);
      }
      forall k: nat {
        LastMoveSnoc(ledger[..n], ledger[n], k);
      }
    }
  }

  /** Hooks skip a transition without a target where the machine falls back to
      the initial state. The two agree exactly when the last transition names its
      target, or the last one that names any names the initial state, or none does. */
  lemma HookStateIsExact(initial: string, ledger: seq<LedgerEntry>)
    ensures LastTarget(initial, ledger) == CurrentState(initial, ledger) <==>
      LastMoveIsNamed(ledger) || LastNamedIs(initial, ledger)
  {
    var m := StateWithoutMove(initial, ledger);
    var n := TargetIsLastNamed(initial, ledger);
    if IsLastMove(ledger, m) {
      StateIsLastMove(initial, ledger, m);
      assert forall i: nat :: IsLastMove(ledger, i) ==> i == m;
      if Target(ledger[m]).Some? {
        assert IsLastNamed(ledger, m);
      }
    } else if IsLastNamed(ledger, n) {
      assert false;
    } else {
      assert LastNamedIs(initial, ledger);
    }
  }

  /** What hooks read is a state the machine was in at some point. */
  lemma {:induction false} LastTargetWasVisited(initial: string, ledger: seq<LedgerEntry>) returns (m: nat)
    ensures m <= |ledger| && StateAt(initial, ledger, m) == LastTarget(initial, ledger)
  {
    m := 0;
    if ledger != [] {
      var n := |ledger| - 1;
      if Target(ledger[n]).Some? {
        m := |ledger|;
        StateSnoc(initial, ledger[..n], ledger[n]);
        assert ledger[..m] == ledger == ledger[..n] + [ledger[n]];
      } else {
        m := LastTargetWasVisited(initial, ledger[..n]);
        assert ledger[..n][..m] == ledger[..m];
      }
    }
  }
}
