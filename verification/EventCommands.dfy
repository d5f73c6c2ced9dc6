/** Who may record which event: the checks in front of an append
    (src/cli/transition.rs, src/cli/authed_event.rs, src/daemon/mod.rs,
    src/hooks/eval.rs), and the machine's `Record` steps they make possible. */
module EventCommands {
  import opened Wrappers
  import opened ProtocolConfig
  import opened LedgerEntries
  import opened RunState
  import opened ProtocolRuns

  datatype Answer =
    | Accepted
    | Undeclared
    | IsRestricted
    | NotRestricted
    | MissingField(name: string)
    | BadValue
    | BadProof

  /** Field `i` is the first required one that is not given. */
  predicate IsFirstMissing(required: seq<string>, fields: Fields, i: nat) {
    i < |required| && Get(fields, required[i]) == None && forall k :: 0 <= k < i ==> Get(fields, required[k]).Some?
  }

  /** Missing fields are looked for before any value is. `valuesOk`: the values given
      meet the declared patterns and lists. */
  method ValidateEventFields(event: EventConfig, fields: Fields, valuesOk: bool) returns (answer: Answer)
    ensures answer.Accepted? <==> (forall i :: 0 <= i < |event.required| ==> Get(fields, event.required[i]).Some?) && valuesOk
    ensures answer.BadValue? ==> !valuesOk && forall i :: 0 <= i < |event.required| ==> Get(fields, event.required[i]).Some?
    ensures answer.MissingField? ==>
      exists i: nat :: IsFirstMissing(event.required, fields, i) && answer.name == event.required[i]
    ensures answer.Accepted? || answer.BadValue? || answer.MissingField?
  {
    for i := 0 to |event.required|
      invariant forall k :: 0 <= k < i ==> Get(fields, event.required[k]).Some?
    {
      if Get(fields, event.required[i]).None? {
        assert IsFirstMissing(event.required, fields, i);
        return MissingField(event.required[i]);
      }
    }
    answer := if valuesOk then Accepted else BadValue;
  }

  /** `sahjhan event`: only what is declared restricted is refused outright. */
  method CmdEvent(config: Config, entry: LedgerEntry, valuesOk: bool) returns (answer: Answer)
    ensures answer.IsRestricted? <==> entry.eventType in config.events && config.events[entry.eventType].restricted
    ensures entry.eventType !in config.events ==> answer.Accepted?
    ensures entry.eventType in config.events && answer.Accepted? ==> valuesOk
    ensures forall initial, ledger, seen: nat :: seen <= |ledger| && (entry.eventType in config.events ==> valuesOk) ==>
      (answer.Accepted? <==> MayRecord(config, initial, ledger, entry, seen, ByHand))
  {
    if entry.eventType in config.events {
      if config.events[entry.eventType].restricted {
        return IsRestricted;
      }
      answer := ValidateEventFields(config.events[entry.eventType], entry.fields, valuesOk);
      return;
    }
    answer := Accepted;
  }

  /** `sahjhan authed-event`: only what is declared restricted, and with a proof. */
  method CmdAuthedEvent(config: Config, entry: LedgerEntry, valuesOk: bool, proofOk: bool) returns (answer: Answer)
    ensures answer.Undeclared? <==> entry.eventType !in config.events
    ensures answer.NotRestricted? <==> entry.eventType in config.events && !config.events[entry.eventType].restricted
    ensures answer.Accepted? ==> valuesOk && proofOk
    ensures forall initial, ledger, seen: nat :: seen <= |ledger| && valuesOk && proofOk ==>
      (answer.Accepted? <==> MayRecord(config, initial, ledger, entry, seen, ByProof))
  {
    if entry.eventType !in config.events {
      return Undeclared;
    }
    if !config.events[entry.eventType].restricted {
      return NotRestricted;
    }
    answer := ValidateEventFields(config.events[entry.eventType], entry.fields, valuesOk);
    if answer.Accepted? && !proofOk {
      return BadProof;
    }
  }

  /** A trusted peer of the daemon: any declared event. */
  method HandleRecordEvent(config: Config, entry: LedgerEntry, valuesOk: bool) returns (answer: Answer)
    ensures answer.Undeclared? <==> entry.eventType !in config.events
    ensures answer.Accepted? ==> valuesOk
    ensures forall initial, ledger, seen: nat :: seen <= |ledger| && valuesOk ==>
      (answer.Accepted? <==> MayRecord(config, initial, ledger, entry, seen, ByDaemon))
  {
    if entry.eventType !in config.events {
      return Undeclared;
    }
    answer := ValidateEventFields(config.events[entry.eventType], entry.fields, valuesOk);
  }

  /** The state filters of a hook. */
  method HookMatches(hook: Hook, state: string) returns (matches: bool)
    ensures matches <==>
      && (hook.states.Some? ==> exists i :: 0 <= i < |hook.states.value| && hook.states.value[i] == state)
      && (hook.statesNot.Some? ==> forall i :: 0 <= i < |hook.statesNot.value| ==> hook.statesNot.value[i] != state)
    ensures matches <==> Admits(hook, state)
  {
    if hook.states.Some? && state !in hook.states.value {
      return false;
    }
    if hook.statesNot.Some? && state in hook.statesNot.value {
      return false;
    }
    matches := true;
  }

  /** The events a hook evaluation will append, by hook, in order. `applies` says which
      hooks are for the tool use at hand. */
  method EvaluateHooks(config: Config, initial: string, ledger: seq<LedgerEntry>, applies: seq<bool>)
    returns (records: seq<(nat, string)>)
    requires |applies| == |config.hooks|
    ensures forall r :: r in records <==>
      && r.0 < |config.hooks| && applies[r.0] && config.hooks[r.0].autoRecord == Some(r.1)
      && Admits(config.hooks[r.0], LastTarget(initial, ledger))
    ensures forall j, k :: 0 <= j < k < |records| ==> records[j].0 < records[k].0
    ensures forall r, more: seq<LedgerEntry>, entry: LedgerEntry :: r in records && entry.eventType == r.1 ==>
      MayRecord(config, initial, ledger + more, entry, |ledger|, ByHook(r.0))
  {
    records := [];
    var state := DeriveCurrentState(initial, ledger);
    for i := 0 to |config.hooks|
      invariant forall r :: r in records <==>
        && r.0 < i && applies[r.0] && config.hooks[r.0].autoRecord == Some(r.1)
        && Admits(config.hooks[r.0], LastTarget(initial, ledger))
      invariant forall k :: 0 <= k < |records| ==> records[k].0 < i
      invariant forall j, k :: 0 <= j < k < |records| ==> records[j].0 < records[k].0
    {
      var matches := HookMatches(config.hooks[i], state);
      if !applies[i] || !matches {
        continue;
      }
      if config.hooks[i].autoRecord.Some? {
        records := records + [(i, config.hooks[i].autoRecord.value)];
      }
    }
    forall r, more: seq<LedgerEntry>, entry: LedgerEntry | r in records && entry.eventType == r.1
      ensures MayRecord(config, initial, ledger + more, entry, |ledger|, ByHook(r.0))
    {
      assert (ledger + more)[..|ledger|] == ledger;
    }
  }

  /** The move with its three fields, an attestation each, the emits in declaration
      order: what a commit of `t` leaves behind `n` entries. */
  ghost predicate IsCommitted(t: Transition, ledger: seq<LedgerEntry>, n: nat, attested: nat) {
    && |ledger| == n + 1 + attested + |t.emits|
    && ledger[n].eventType == "state_transition"
    && Get(ledger[n].fields, "from") == Some(t.from) && Get(ledger[n].fields, "to") == Some(t.to)
    && Get(ledger[n].fields, "command") == Some(t.command)
    && (forall k :: n < k <= n + attested ==> ledger[k].eventType == "gate_attestation")
    && forall k :: 0 <= k < |t.emits| ==> ledger[n + 1 + attested + k].eventType == t.emits[k]
  }

  lemma AppendedIsCommitted(t: Transition, before: seq<LedgerEntry>, moved: LedgerEntry, attested: seq<LedgerEntry>,
      emitted: seq<LedgerEntry>)
    requires Records(t, moved, attested, emitted)
    ensures IsCommitted(t, before + ([moved] + attested + emitted), |before|, |attested|)
  {
    var n, a := |before|, |attested|;
    var after := before + ([moved] + attested + emitted);
    assert after == before + [moved] + attested + emitted;
    assert after[n] == moved;
    assert forall k :: n < k <= n + a ==> after[k] == attested[k - n - 1];
    assert forall k :: 0 <= k < |emitted| ==> after[n + 1 + a + k] == emitted[k];
  }

  /** What a commit records, entry by entry. */
  lemma CommitRecordsInOrder(config: Config, initial: string, s: System, step: Step, index: nat)
    requires index < |config.transitions| && Fires(config, initial, s, step, index)
    ensures s.ledger <= Apply(config, initial, s, step).ledger
    ensures IsCommitted(config.transitions[index], Apply(config, initial, s, step).ledger, |s.ledger|, |step.attested|)
  {
    AppendedIsCommitted(config.transitions[index], s.ledger, step.moved, step.attested, step.emitted);
  }
}
