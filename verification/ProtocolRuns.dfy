/** Runs of a protocol: any number of processes prepare transitions from copies
    of the ledger that may be stale and commit them later (src/state/machine.rs),
    while callers, signers and hooks record events (src/cli/transition.rs,
    src/cli/authed_event.rs, src/daemon/mod.rs, src/cli/hooks_cmd.rs). */
module ProtocolRuns {
  import opened Wrappers
  import opened ProtocolConfig
  import opened LedgerEntries
  import opened GateFilters
  import opened Gates
  import opened RunState

  // ---------------------------------------------------------------------------
  // The machine
  // ---------------------------------------------------------------------------

  /** A transition whose gates passed in state `from`, with nothing appended yet. */
  datatype Prepared = Prepared(index: nat, from: string)

  datatype System = System(ledger: seq<LedgerEntry>, prepared: map<nat, Prepared>)

  /** Who records an event: a caller by hand, a signer with a proof, a trusted
      caller of the daemon, a hook, or the engine itself. */
  datatype Writer = ByHand | ByProof | ByDaemon | ByHook(index: nat) | ByEngine

  datatype Step =
    // A writer that looked at the first `seen` entries records an event.
    | Record(entry: LedgerEntry, seen: nat, writer: Writer)
    // Process `pid`, holding the first `seen` entries, finds that every gate of a transition passes.
    | Prepare(pid: nat, index: nat, seen: nat, ctx: Context)
    // Process `pid` appends the transition it prepared, its attestations and its emits.
    | Commit(pid: nat, moved: LedgerEntry, attested: seq<LedgerEntry>, emitted: seq<LedgerEntry>)

  predicate Restricted(config: Config, event: string) {
    event in config.events && config.events[event].restricted
  }

  /** The entry carries the fields its declaration requires, if it is declared. */
  predicate HasRequired(config: Config, e: LedgerEntry) {
    e.eventType in config.events ==>
      forall i :: 0 <= i < |config.events[e.eventType].required| ==> Get(e.fields, config.events[e.eventType].required[i]).Some?
  }

  /** The hook's state filters admit the state. */
  predicate Admits(hook: Hook, state: string) {
    && (hook.states.Some? ==> state in hook.states.value)
    && (hook.statesNot.Some? ==> state !in hook.statesNot.value)
  }

  /** What each writer is refused for. Undeclared events are recorded by hand
      without further ado; a hook is matched against the state it read. */
  predicate MayRecord(config: Config, initial: string, ledger: seq<LedgerEntry>, entry: LedgerEntry, seen: nat, writer: Writer) {
    && seen <= |ledger|
    && match writer
       case ByHand => !Restricted(config, entry.eventType) && HasRequired(config, entry)
       case ByProof => Restricted(config, entry.eventType) && HasRequired(config, entry)
       case ByDaemon => entry.eventType in config.events && HasRequired(config, entry)
       case ByHook(i) =>
         i < |config.hooks| && config.hooks[i].autoRecord == Some(entry.eventType)
         && Admits(config.hooks[i], LastTarget(initial, ledger[..seen]))
       case ByEngine => entry.eventType in [SET_MEMBER_COMPLETE, CHECKPOINT, CONFIG_RESEAL]
  }

  /** Every gate passes on the copy, in the state the transition leaves, and no
      emit is of a restricted event. */
  predicate MayPrepare(config: Config, initial: string, ledger: seq<LedgerEntry>, index: nat, seen: nat, ctx: Context) {
    && index < |config.transitions| && seen <= |ledger|
    && ctx.config == config && ctx.ledger == ledger[..seen]
    && CurrentState(initial, ctx.ledger) == config.transitions[index].from
    && AllPass(config.transitions[index].gates, ctx)
    && forall i :: 0 <= i < |config.transitions[index].emits| ==> !Restricted(config, config.transitions[index].emits[i])
  }

  /** The ledger's state is still the one the gates were checked in. */
  predicate MayCommit(config: Config, initial: string, s: System, pid: nat) {
    && pid in s.prepared && s.prepared[pid].index < |config.transitions|
    && CurrentState(initial, s.ledger) == s.prepared[pid].from
  }

  /** The entries a commit of `t` appends. */
  predicate Records(t: Transition, moved: LedgerEntry, attested: seq<LedgerEntry>, emitted: seq<LedgerEntry>) {
    && IsMove(moved) && Target(moved) == Some(t.to)
    && Get(moved.fields, "from") == Some(t.from) && Get(moved.fields, "command") == Some(t.command)
    && (forall i :: 0 <= i < |attested| ==> attested[i].eventType == GATE_ATTESTATION)
    && |emitted| == |t.emits|
    && forall i :: 0 <= i < |emitted| ==> emitted[i].eventType == t.emits[i]
  }

  /** The step commits transition `index`. */
  predicate Fires(config: Config, initial: string, s: System, step: Step, index: nat) {
    && step.Commit? && MayCommit(config, initial, s, step.pid) && s.prepared[step.pid].index == index
    && Records(config.transitions[index], step.moved, step.attested, step.emitted)
  }

  /** What a step appends; a step that is not possible, or is refused, appends nothing. */
  function Appended(config: Config, initial: string, s: System, step: Step): seq<LedgerEntry> {
    match step
    case Record(entry, seen, writer) => if MayRecord(config, initial, s.ledger, entry, seen, writer) then [entry] else []
    case Prepare(_, _, _, _) => []
    case Commit(pid, moved, attested, emitted) =>
      if MayCommit(config, initial, s, pid) && Records(config.transitions[s.prepared[pid].index], moved, attested, emitted)
      then [moved] + attested + emitted
      else []
  }

  /** A commit gives up what was prepared, whether it goes through or is refused. */
  function PreparedAfter(config: Config, initial: string, s: System, step: Step): map<nat, Prepared> {
    match step
    case Record(_, _, _) => s.prepared
    case Prepare(pid, index, seen, ctx) =>
      if MayPrepare(config, initial, s.ledger, index, seen, ctx)
      then s.prepared[pid := Prepared(index, config.transitions[index].from)]
      else s.prepared
    case Commit(pid, _, _, _) => s.prepared - {pid}
  }

  function Apply(config: Config, initial: string, s: System, step: Step): System {
    System(s.ledger + Appended(config, initial, s, step), PreparedAfter(config, initial, s, step))
  }

  function Run(config: Config, initial: string, s: System, steps: seq<Step>): System {
    if steps == [] then s
    else
      var n := |steps| - 1;
      Apply(config, initial, Run(config, initial, s, steps[..n]), steps[n])
  }

  /** A run begins with nothing prepared and a ledger of the engine's own entries. */
  predicate Start(s: System) {
    && s.prepared == map[]
    && forall i :: 0 <= i < |s.ledger| ==> IsEngineEvent(s.ledger[i].eventType) && !IsMove(s.ledger[i])
  }

  // ---------------------------------------------------------------------------
  // Prepared transitions
  // ---------------------------------------------------------------------------

  /** The transition was possible on some earlier ledger of the run. */
  ghost predicate Justified(config: Config, initial: string, ledger: seq<LedgerEntry>, p: Prepared) {
    && p.index < |config.transitions| && p.from == config.transitions[p.index].from
    && exists seen: nat, ctx: Context :: MayPrepare(config, initial, ledger, p.index, seen, ctx)
  }

  ghost predicate AllJustified(config: Config, initial: string, s: System) {
    forall pid :: pid in s.prepared ==> Justified(config, initial, s.ledger, s.prepared[pid])
  }

  lemma JustifiedGrows(config: Config, initial: string, ledger: seq<LedgerEntry>, more: seq<LedgerEntry>, p: Prepared)
    requires Justified(config, initial, ledger, p)
    ensures Justified(config, initial, ledger + more, p)
  {
    var seen: nat, ctx: Context :| MayPrepare(config, initial, ledger, p.index, seen, ctx);
    assert (ledger + more)[..seen] == ledger[..seen];
    assert MayPrepare(config, initial, ledger + more, p.index, seen, ctx);
  }

  lemma StepKeepsJustified(config: Config, initial: string, s: System, step: Step)
    requires AllJustified(config, initial, s)
    ensures AllJustified(config, initial, Apply(config, initial, s, step))
  {
    var more := Appended(config, initial, s, step);
    var prepared := PreparedAfter(config, initial, s, step);
    forall pid | pid in prepared ensures Justified(config, initial, s.ledger + more, prepared[pid]) {
      if pid in s.prepared && prepared[pid] == s.prepared[pid] {
        JustifiedGrows(config, initial, s.ledger, more, prepared[pid]);
      } else {
        assert s.ledger + [] == s.ledger;
      }
    }
  }

  /** In every run, whatever is prepared passed its gates in its source on an
      earlier ledger of that run. */
  lemma {:induction false} EveryRunIsJustified(config: Config, initial: string, start: System, steps: seq<Step>)
    requires Start(start)
    ensures AllJustified(config, initial, Run(config, initial, start, steps))
    decreases |steps|
  {
    if steps != [] {
      var n := |steps| - 1;
      EveryRunIsJustified(config, initial, start, steps[..n]);
      StepKeepsJustified(config, initial, Run(config, initial, start, steps[..n]), steps[n]);
    }
  }

  /** A commit extends the ledger by exactly what it records, unless the state has
      moved since; then nothing is appended. The machine ends in the prepared
      target, or, when the transition emits `state_transition` itself, wherever
      the last such emit leads. */
  lemma CommitMovesOrRefuses(config: Config, initial: string, s: System, pid: nat, moved: LedgerEntry,
                             attested: seq<LedgerEntry>, emitted: seq<LedgerEntry>)
    requires AllJustified(config, initial, s) && pid in s.prepared
    requires Records(config.transitions[s.prepared[pid].index], moved, attested, emitted)
    ensures var t := config.transitions[s.prepared[pid].index];
      var after := Apply(config, initial, s, Commit(pid, moved, attested, emitted));
      && pid !in after.prepared
      && if CurrentState(initial, s.ledger) == t.from
         then && after.ledger == s.ledger + ([moved] + attested + emitted)
              && CurrentState(initial, after.ledger) == if STATE_TRANSITION in t.emits then CurrentState(initial, emitted) else t.to
         else after.ledger == s.ledger
  {
    assert Justified(config, initial, s.ledger, s.prepared[pid]);
    var t := config.transitions[s.prepared[pid].index];
    if CurrentState(initial, s.ledger) == t.from {
      CommitState(initial, s.ledger, t, moved, attested, emitted);
    } else {
      assert s.ledger + [] == s.ledger;
    }
  }

  lemma CommitState(initial: string, ledger: seq<LedgerEntry>, t: Transition, moved: LedgerEntry,
      attested: seq<LedgerEntry>,
                    emitted: seq<LedgerEntry>)
    requires Records(t, moved, attested, emitted)
    ensures CurrentState(initial, ledger + ([moved] + attested + emitted))
         == if STATE_TRANSITION in t.emits then CurrentState(initial, emitted) else t.to
  {
    StateSnoc(initial, ledger, moved);
    StateAfter(initial, ledger + [moved], attested);
    StateAfter(initial, ledger + [moved] + attested, emitted);
    assert ledger + ([moved] + attested + emitted) == ledger + [moved] + attested + emitted;
    if i :| 0 <= i < |t.emits| && t.emits[i] == STATE_TRANSITION {
      assert IsMove(emitted[i]);
    }
  }

  // ---------------------------------------------------------------------------
  // Records by hand
  // ---------------------------------------------------------------------------

  /** Every name bound to an empty value. */
  function Blanks(names: seq<string>): Fields {
    if names == [] then []
    else
      InsertKeepsOrder(Blanks(names[1..]), names[0], "");
      InsertInto(Blanks(names[1..]), names[0], "")
  }

  lemma {:induction false} BlanksBind(names: seq<string>, key: string)
    ensures Get(Blanks(names), key).Some? <==> key in names
  {
    if names != [] {
      BlanksBind(names[1..], key);
      InsertThenGet(Blanks(names[1..]), names[0], "", key);
    }
  }

  function Required(config: Config, event: string): seq<string> {
    if event in config.events then config.events[event].required else []
  }

  /** An entry with exactly the fields its event requires. */
  function BareEntry(config: Config, event: string): LedgerEntry {
    LedgerEntry(SCHEMA_VERSION, 0, "", "", "", event, "", "", "", Blanks(Required(config, event)))
  }

  /** The same with a target. */
  function EntryTo(config: Config, event: string, to: string): LedgerEntry {
    InsertKeepsOrder(Blanks(Required(config, event)), TO, to);
    BareEntry(config, event).(fields := InsertInto(Blanks(Required(config, event)), TO, to))
  }

  lemma BareHasRequired(config: Config, event: string)
    ensures HasRequired(config, BareEntry(config, event))
  {
    var names := Required(config, event);
    if event in config.events {
      forall i | 0 <= i < |names| ensures Get(Blanks(names), names[i]).Some? {
        BlanksBind(names, names[i]);
      }
    }
  }

  /** Both are accepted by hand unless the event is restricted. */
  lemma HandEntries(config: Config, initial: string, ledger: seq<LedgerEntry>, event: string, to: string)
    requires !Restricted(config, event)
    ensures MayRecord(config, initial, ledger, BareEntry(config, event), 0, ByHand)
    ensures MayRecord(config, initial, ledger, EntryTo(config, event, to), 0, ByHand)
    ensures Get(EntryTo(config, event, to).fields, TO) == Some(to)
    ensures Get(BareEntry(config, event).fields, TO).Some? <==> TO in Required(config, event)
  {
    var names := Required(config, event);
    forall key
      ensures Get(Blanks(names), key).Some? <==> key in names
      ensures Get(EntryTo(config, event, to).fields, key) == if key == TO then Some(to) else Get(Blanks(names), key)
    {
      BlanksBind(names, key);
      InsertThenGet(Blanks(names), TO, to, key);
    }
    if event in config.events {
      forall i | 0 <= i < |names| ensures Get(Blanks(names), names[i]).Some? {
      }
    }
  }

  // ---------------------------------------------------------------------------
  // Records of a commit
  // ---------------------------------------------------------------------------

  /** The entry a commit of `t` records for the move itself. */
  function MoveOf(t: Transition): LedgerEntry {
    var fields: Fields := [("command", t.command), ("from", t.from), ("to", t.to)];
    LedgerEntry(SCHEMA_VERSION, 0, "", "", "", STATE_TRANSITION, "", "", "", fields)
  }

  function EmitsOf(config: Config, t: Transition): seq<LedgerEntry> {
    seq(|t.emits|, i requires 0 <= i < |t.emits| => BareEntry(config, t.emits[i]))
  }

  lemma MoveIsRecorded(config: Config, t: Transition)
    ensures Records(t, MoveOf(t), [], EmitsOf(config, t))
  {
    var fs := MoveOf(t).fields;
    var rest: Fields := [("from", t.from), ("to", t.to)];
    var last: Fields := [("to", t.to)];
    assert fs[1..] == rest && rest[1..] == last;
    assert Get(last, TO) == Some(t.to);
    assert Get(fs, TO) == Get(rest, TO) == Get(last, TO);
    assert Get(fs, "from") == Get(rest, "from") == Some(t.from);
    assert IsMove(MoveOf(t)) && Target(MoveOf(t)) == Some(t.to);
    assert forall i :: 0 <= i < |t.emits| ==> EmitsOf(config, t)[i].eventType == t.emits[i];
  }
}
