/** Any number of processes over one ledger file, interleaved at the points
    where the source takes and drops its file lock (src/ledger/chain.rs). */
module LedgerProtocol {
  import opened Wrappers
  import opened LedgerEntries
  import opened LedgerChain

  // ---------------------------------------------------------------------------
  // States and steps
  // ---------------------------------------------------------------------------

  datatype Phase =
    | Creating                              // file created, genesis not yet written
    | Idle
    | Locked                                // exclusive lock held, file not yet read
    | Reread(onDisk: seq<LedgerEntry>)      // lock held, true tail known
    | Written(synced: seq<LedgerEntry>)     // lock held, line written
    | Unlocked(synced: seq<LedgerEntry>)    // lock dropped, in-memory copy not yet replaced

  /** A process and the copy of the ledger it holds in memory. */
  datatype Process = Process(entries: seq<LedgerEntry>, engine: string, protocol: string, phase: Phase)

  datatype State = State(file: Option<string>, holder: Option<nat>, procs: map<nat, Process>)

  datatype Step =
    | Create(pid: nat)
    | WriteGenesis(pid: nat, name: string, version: string, seals: Fields, nonce: string, ts: string)
    | Open(pid: nat)
    | Reload(pid: nat)
    | Lock(pid: nat)
    | ReadTail(pid: nat)
    | WriteLine(pid: nat, ev: Event)
    | Unlock(pid: nat)
    | Sync(pid: nat)

  const INITIAL := State(None, None, map[])

  function Release(s: State, pid: nat): State
    requires pid in s.procs
  {
    s.(holder := None, procs := s.procs[pid := s.procs[pid].(phase := Idle)])
  }

  function Enter(s: State, pid: nat, phase: Phase): State
    requires pid in s.procs
  {
    s.(procs := s.procs[pid := s.procs[pid].(phase := phase)])
  }

  function AddLine(s: State, pid: nat, es: seq<LedgerEntry>, e: LedgerEntry): State
    requires pid in s.procs && s.file.Some?
  {
    AddText(s, pid, Line(e), es + [e])
  }

  function AddText(s: State, pid: nat, text: string, synced: seq<LedgerEntry>): State
    requires pid in s.procs && s.file.Some?
  {
    Enter(s.(file := Some(s.file.value + text)), pid, Written(synced))
  }

  function LoadedFrom(es: seq<LedgerEntry>): Process
    requires es != []
  {
    Process(es, es[0].engine, es[0].protocol, Idle)
  }

  /** One step; a step that is not enabled, or that the source refuses, changes nothing it has not written. */
  function Apply(s: State, step: Step, digest: Digest): State {
    match step
    case Create(pid) => ApplyCreate(s, pid)
    case WriteGenesis(pid, name, version, seals, nonce, ts) =>
      ApplyGenesis(s, pid, Genesis(name, version, seals, nonce, ts, digest))
    case Open(pid) => ApplyOpen(s, pid, digest)
    case Reload(pid) => ApplyReload(s, pid, digest)
    case Lock(pid) => ApplyLock(s, pid)
    case ReadTail(pid) => ApplyReadTail(s, pid, digest)
    case WriteLine(pid, ev) => ApplyWriteLine(s, pid, ev, digest)
    case Unlock(pid) => ApplyUnlock(s, pid)
    case Sync(pid) => ApplySync(s, pid)
  }

  function ApplyCreate(s: State, pid: nat): State {
    if s.file.None? && pid !in s.procs
    then s.(file := Some(""), procs := s.procs[pid := Process([], "", "", Creating)])
    else s
  }

  function ApplyGenesis(s: State, pid: nat, genesis: LedgerEntry): State {
    if pid in s.procs && s.procs[pid].phase.Creating? && s.file.Some? && s.holder.None?
    then s.(file := Some(s.file.value + Line(genesis)), procs := s.procs[pid := LoadedFrom([genesis])])
    else s
  }

  function ApplyOpen(s: State, pid: nat, digest: Digest): State {
    if pid !in s.procs && s.file.Some? && s.holder.None? then
      match ParseText(s.file.value, digest)
      case Ok(es) => if es != [] && Chained(es) then s.(procs := s.procs[pid := LoadedFrom(es)]) else s
      case Err(_) => s
    else s
  }

  function ApplyReload(s: State, pid: nat, digest: Digest): State {
    if pid in s.procs && s.procs[pid].phase.Idle? && s.file.Some? && s.holder.None? then
      match ParseText(s.file.value, digest)
      case Ok(es) =>
        if es != [] then s.(procs := s.procs[pid := LoadedFrom(es)])
        else s.(procs := s.procs[pid := s.procs[pid].(entries := [])])
      case Err(_) => s
    else s
  }

  function ApplyLock(s: State, pid: nat): State {
    if pid in s.procs && s.procs[pid].phase.Idle? && s.file.Some? && s.holder.None?
    then Enter(s.(holder := Some(pid)), pid, Locked)
    else s
  }

  function ApplyReadTail(s: State, pid: nat, digest: Digest): State {
    if pid in s.procs && s.procs[pid].phase.Locked? && s.file.Some? then
      match ParseText(s.file.value, digest)
      case Ok(es) => if es != [] then Enter(s, pid, Reread(es)) else Release(s, pid)
      case Err(_) => Release(s, pid)
    else s
  }

  function ApplyWriteLine(s: State, pid: nat, ev: Event, digest: Digest): State {
    if pid in s.procs && s.procs[pid].phase.Reread? && s.procs[pid].phase.onDisk != [] && s.file.Some? then
      var p := s.procs[pid];
      var es := p.phase.onDisk;
      if es[|es| - 1].seqNo + 1 < U64_LIMIT
      then AddLine(s, pid, es, NextEntry(es, p.engine, p.protocol, ev, digest))
      else Release(s, pid)
    else s
  }

  function ApplyUnlock(s: State, pid: nat): State {
    if pid in s.procs && s.procs[pid].phase.Written?
    then Enter(s.(holder := None), pid, Unlocked(s.procs[pid].phase.synced))
    else s
  }

  function ApplySync(s: State, pid: nat): State {
    if pid in s.procs && s.procs[pid].phase.Unlocked?
    then s.(procs := s.procs[pid := s.procs[pid].(entries := s.procs[pid].phase.synced, phase := Idle)])
    else s
  }

  function Run(s: State, steps: seq<Step>, digest: Digest): State {
    if steps == [] then s else Apply(Run(s, steps[..|steps| - 1], digest), steps[|steps| - 1], digest)
  }

  // ---------------------------------------------------------------------------
  // The invariant
  // ---------------------------------------------------------------------------

  predicate Holding(phase: Phase) {
    phase.Locked? || phase.Reread? || phase.Written?
  }

  predicate ProcessOk(pid: nat, p: Process, holder: Option<nat>, es: seq<LedgerEntry>)
    requires es != []
  {
    && p.entries <= es && p.engine == es[0].engine && p.protocol == es[0].protocol
    && (Holding(p.phase) <==> holder == Some(pid))
    && match p.phase
       case Creating => false
       case Idle => true
       case Locked => true
       case Reread(onDisk) => onDisk == es
       case Written(synced) => synced == es
       case Unlocked(synced) => synced <= es
  }

  /** The file holds `es`, and every process is consistent with that. */
  ghost predicate Holds(s: State, es: seq<LedgerEntry>, digest: Digest) {
    && WellFormed(es, digest)
    && s.file == Some(Render(es))
    && AllProcessesOk(s, es)
  }

  /** No genesis entry yet: at most one process exists, the one creating the file. */
  ghost predicate NotStarted(s: State) {
    && s.holder.None?
    && (s.file.None? ==> s.procs == map[])
    && (s.file.Some? ==> s.file.value == "")
    && (forall pid :: pid in s.procs ==> s.procs[pid].phase.Creating? && s.procs[pid].entries == [])
    && (forall p, q :: p in s.procs && q in s.procs ==> p == q)
  }

  lemma EmptyFileParses(digest: Digest)
    ensures ParseText("", digest) == Ok([])
  {
    assert Lines("") == [];
  }

  /** The creator's write starts the ledger. */
  lemma GenesisStep(s: State, step: Step, digest: Digest) returns (es: seq<LedgerEntry>)
    requires NotStarted(s) && step.WriteGenesis?
    requires step.pid in s.procs && s.file.Some?
    ensures es != [] && WellFormed(es, digest)
    ensures Apply(s, step, digest) == State(Some(Render(es)), None, s.procs[step.pid := LoadedFrom(es)])
  {
    var genesis := Genesis(step.name, step.version, step.seals, step.nonce, step.ts, digest);
    es := [genesis];
    GenesisIsWellFormed(step.name, step.version, step.seals, step.nonce, step.ts, digest);
    RenderSnoc([], genesis);
    assert [] + [genesis] == [genesis];
  }

  lemma StartedHolds(s: State, pid: nat, es: seq<LedgerEntry>, digest: Digest)
    requires NotStarted(s) && pid in s.procs && es != [] && WellFormed(es, digest)
    ensures Holds(State(Some(Render(es)), None, s.procs[pid := LoadedFrom(es)]), es, digest)
  {
  }

  /** The first steps: nothing happens until the creator writes the genesis entry. */
  lemma StartStep(s: State, step: Step, digest: Digest) returns (es: seq<LedgerEntry>)
    requires NotStarted(s)
    ensures NotStarted(Apply(s, step, digest)) || Holds(Apply(s, step, digest), es, digest)
  {
    es := [];
    EmptyFileParses(digest);
    if step.WriteGenesis? {
      if step.pid in s.procs && s.file.Some? {
        es := GenesisStep(s, step, digest);
        StartedHolds(s, step.pid, es, digest);
      }
    } else {
      StartQuietStep(s, step, digest);
    }
  }

  lemma StartQuietStep(s: State, step: Step, digest: Digest)
    requires NotStarted(s) && !step.WriteGenesis? && ParseText("", digest) == Ok([])
    ensures NotStarted(Apply(s, step, digest))
  {
  }

  /** The one step that changes a started file extends it by the next entry. */
  lemma WriteStep(s: State, es: seq<LedgerEntry>, pid: nat, ev: Event, digest: Digest) returns (longer: seq<LedgerEntry>)
    requires Holds(s, es, digest)
    requires pid in s.procs && s.procs[pid].phase.Reread? && es[|es| - 1].seqNo + 1 < U64_LIMIT
    ensures es <= longer && WellFormed(longer, digest)
    ensures ApplyWriteLine(s, pid, ev, digest)
         == State(Some(Render(longer)), s.holder, s.procs[pid := s.procs[pid].(phase := Written(longer))])
  {
    assert ProcessOk(pid, s.procs[pid], s.holder, es);
    var e := NextEntry(es, es[0].engine, es[0].protocol, ev, digest);
    LineExtends(es, ev, e, digest);
    longer := es + [e];
    WriteApplies(s, pid, ev, es, e, digest);
  }

  lemma LineExtends(es: seq<LedgerEntry>, ev: Event, e: LedgerEntry, digest: Digest)
    requires WellFormed(es, digest) && es[|es| - 1].seqNo + 1 < U64_LIMIT
    requires e == NextEntry(es, es[0].engine, es[0].protocol, ev, digest)
    ensures Render(es) + Line(e) == Render(es + [e]) && WellFormed(es + [e], digest)
  {
    AppendExtendsFile(es, ev, digest);
  }

  lemma WriteApplies(s: State, pid: nat, ev: Event, es: seq<LedgerEntry>, e: LedgerEntry, digest: Digest)
    requires pid in s.procs && s.procs[pid].phase == Reread(es) && es != [] && s.file.Some?
    requires es[|es| - 1].seqNo + 1 < U64_LIMIT
    requires e == NextEntry(es, s.procs[pid].engine, s.procs[pid].protocol, ev, digest)
    ensures ApplyWriteLine(s, pid, ev, digest) == AddLine(s, pid, es, e)
  {
  }

  lemma WriteHolds(s: State, es: seq<LedgerEntry>, pid: nat, longer: seq<LedgerEntry>, digest: Digest)
    requires Holds(s, es, digest) && pid in s.procs && s.procs[pid].phase.Reread?
    requires es <= longer && WellFormed(longer, digest)
    ensures Holds(State(Some(Render(longer)), s.holder, s.procs[pid := s.procs[pid].(phase := Written(longer))]), longer, digest)
  {
    var procs := s.procs[pid := s.procs[pid].(phase := Written(longer))];
    assert ProcessOk(pid, s.procs[pid], s.holder, es);
    forall q | q in procs ensures ProcessOk(q, procs[q], s.holder, longer) {
      assert ProcessOk(q, s.procs[q], s.holder, es);
    }
  }

  /** Every other step leaves the file as it is. */
  lemma QuietStep(s: State, es: seq<LedgerEntry>, step: Step, digest: Digest)
    requires Holds(s, es, digest) && !Writes(s, es, step)
    ensures Holds(Apply(s, step, digest), es, digest)
  {
    FileRoundTrip(es, digest);
    QuietProcesses(s, es, step, digest);
  }

  /** The step is a write the source performs. */
  predicate Writes(s: State, es: seq<LedgerEntry>, step: Step)
    requires es != []
  {
    step.WriteLine? && step.pid in s.procs && s.procs[step.pid].phase.Reread? && es[|es| - 1].seqNo + 1 < U64_LIMIT
  }

  ghost predicate AllProcessesOk(s: State, es: seq<LedgerEntry>)
    requires es != []
  {
    && (s.holder.Some? ==> s.holder.value in s.procs)
    && forall pid :: pid in s.procs ==> ProcessOk(pid, s.procs[pid], s.holder, es)
  }

  /** Replacing one process by a consistent one, with the lock handed on accordingly. */
  lemma ProcessesAfter(s: State, es: seq<LedgerEntry>, pid: nat, p: Process, holder: Option<nat>)
    requires es != [] && AllProcessesOk(s, es) && ProcessOk(pid, p, holder, es)
    requires holder == s.holder || (s.holder in {None, Some(pid)} && holder in {None, Some(pid)})
    ensures AllProcessesOk(State(s.file, holder, s.procs[pid := p]), es)
  {
    var procs := s.procs[pid := p];
    forall q | q in procs ensures ProcessOk(q, procs[q], holder, es) {
      if q != pid {
        assert ProcessOk(q, s.procs[q], s.holder, es);
      }
    }
  }

  lemma QuietProcesses(s: State, es: seq<LedgerEntry>, step: Step, digest: Digest)
    requires es != [] && Chained(es) && AllProcessesOk(s, es) && !Writes(s, es, step)
    requires s.file.Some? && ParseText(s.file.value, digest) == Ok(es)
    ensures Apply(s, step, digest).file == s.file && AllProcessesOk(Apply(s, step, digest), es)
  {
    var pid := step.pid;
    if pid in s.procs {
      assert ProcessOk(pid, s.procs[pid], s.holder, es);
      var p := s.procs[pid];
      match step
      case Reload(_) =>
        if p.phase.Idle? && s.holder.None? {
          ProcessesAfter(s, es, pid, LoadedFrom(es), s.holder);
        }
      case Lock(_) =>
        if p.phase.Idle? && s.holder.None? {
          ProcessesAfter(s, es, pid, p.(phase := Locked), Some(pid));
        }
      case ReadTail(_) =>
        if p.phase.Locked? {
          ProcessesAfter(s, es, pid, p.(phase := Reread(es)), s.holder);
        }
      case WriteLine(_, _) =>
        if p.phase.Reread? {
          ProcessesAfter(s, es, pid, p.(phase := Idle), None);
        }
      case Unlock(_) =>
        if p.phase.Written? {
          ProcessesAfter(s, es, pid, p.(phase := Unlocked(p.phase.synced)), None);
        }
      case Sync(_) =>
        if p.phase.Unlocked? {
          ProcessesAfter(s, es, pid, p.(entries := p.phase.synced, phase := Idle), s.holder);
        }
      case _ =>
    } else if step.Open? && s.holder.None? {
      ProcessesAfter(s, es, pid, LoadedFrom(es), None);
    }
  }

  lemma StepKeeps(s: State, es: seq<LedgerEntry>, step: Step, digest: Digest) returns (longer: seq<LedgerEntry>)
    requires Holds(s, es, digest)
    ensures es <= longer && Holds(Apply(s, step, digest), longer, digest)
  {
    if Writes(s, es, step) {
      longer := WriteStep(s, es, step.pid, step.ev, digest);
      WriteHolds(s, es, step.pid, longer, digest);
    } else {
      QuietStep(s, es, step, digest);
      longer := es;
    }
  }

  // ---------------------------------------------------------------------------
  // Over whole runs
  // ---------------------------------------------------------------------------

  /** Where a run stands: before the genesis entry, or over a file the engine can open. */
  ghost predicate Sound(s: State, digest: Digest) {
    NotStarted(s) || exists es :: Holds(s, es, digest)
  }

  lemma {:induction false} EveryRunIsSound(steps: seq<Step>, digest: Digest)
    ensures Sound(Run(INITIAL, steps, digest), digest)
  {
    if steps != [] {
      var before := Run(INITIAL, steps[..|steps| - 1], digest);
      EveryRunIsSound(steps[..|steps| - 1], digest);
      if NotStarted(before) {
        var es := StartStep(before, steps[|steps| - 1], digest);
      } else {
        var es :| Holds(before, es, digest);
        var longer := StepKeeps(before, es, steps[|steps| - 1], digest);
      }
    }
  }

  /** In every run, a file with any text in it parses, verifies, keeps one
      engine and protocol, and every process's copy is a prefix of it. */
  lemma FileAlwaysVerifies(steps: seq<Step>, digest: Digest)
    ensures var s := Run(INITIAL, steps, digest);
      s.file.Some? && s.file.value != "" ==>
        && ParseText(s.file.value, digest).Ok?
        && WellFormed(ParseText(s.file.value, digest).value, digest)
        && forall pid :: pid in s.procs ==> s.procs[pid].entries <= ParseText(s.file.value, digest).value
  {
    EveryRunIsSound(steps, digest);
    var s := Run(INITIAL, steps, digest);
    if s.file.Some? && s.file.value != "" {
      var es :| Holds(s, es, digest);
      FileRoundTrip(es, digest);
      forall pid | pid in s.procs ensures s.procs[pid].entries <= es {
        assert ProcessOk(pid, s.procs[pid], s.holder, es);
      }
    }
  }

  lemma {:induction false} RunExtends(s: State, es: seq<LedgerEntry>, steps: seq<Step>, digest: Digest)
    returns (longer: seq<LedgerEntry>)
    requires Holds(s, es, digest)
    ensures es <= longer && Holds(Run(s, steps, digest), longer, digest)
    decreases |steps|
  {
    longer := es;
    if steps != [] {
      longer := RunExtends(s, es, steps[..|steps| - 1], digest);
      longer := StepKeeps(Run(s, steps[..|steps| - 1], digest), longer, steps[|steps| - 1], digest);
    }
  }

  lemma {:induction false} RunsCompose(s: State, steps: seq<Step>, more: seq<Step>, digest: Digest)
    ensures Run(s, steps + more, digest) == Run(Run(s, steps, digest), more, digest)
    decreases |more|
  {
    if more == [] {
      assert steps + more == steps;
    } else {
      var init := more[..|more| - 1];
      RunsCompose(s, steps, init, digest);
      assert (steps + more)[..|steps + more| - 1] == steps + init;
    }
  }

  /** No continuation of a run ever takes an entry back. */
  lemma FileOnlyGrows(steps: seq<Step>, more: seq<Step>, digest: Digest)
    ensures var before, after := Run(INITIAL, steps, digest), Run(INITIAL, steps + more, digest);
      before.file.Some? && before.file.value != "" ==>
        && after.file.Some?
        && ParseText(before.file.value, digest).Ok? && ParseText(after.file.value, digest).Ok?
        && ParseText(before.file.value, digest).value <= ParseText(after.file.value, digest).value
  {
    EveryRunIsSound(steps, digest);
    var before := Run(INITIAL, steps, digest);
    if before.file.Some? && before.file.value != "" {
      var es :| Holds(before, es, digest);
      var longer := RunExtends(before, es, more, digest);
      RunsCompose(INITIAL, steps, more, digest);
      FileRoundTrip(es, digest);
      FileRoundTrip(longer, digest);
    }
  }

  // ---------------------------------------------------------------------------
  // One append, undisturbed
  // ---------------------------------------------------------------------------

  /** The five steps of one append. */
  function AppendRun(s: State, pid: nat, ev: Event, digest: Digest): State {
    var locked := ApplyLock(s, pid);
    var read := ApplyReadTail(locked, pid, digest);
    var written := ApplyWriteLine(read, pid, ev, digest);
    var unlocked := ApplyUnlock(written, pid);
    ApplySync(unlocked, pid)
  }

  /** With nothing in between, the steps do what `Ledger.Append` does: the line
      follows the tail on disk, and the copy becomes what is then on disk. */
  lemma AppendRunResult(s: State, pid: nat, ev: Event, es: seq<LedgerEntry>, digest: Digest)
    requires pid in s.procs && s.procs[pid].phase.Idle? && s.holder.None? && s.file.Some?
    requires ParseText(s.file.value, digest) == Ok(es) && es != [] && es[|es| - 1].seqNo + 1 < U64_LIMIT
    ensures var e := NextEntry(es, s.procs[pid].engine, s.procs[pid].protocol, ev, digest);
      AppendRun(s, pid, ev, digest)
      == State(Some(s.file.value + Line(e)), None, s.procs[pid := s.procs[pid].(entries := es + [e])])
  {
    var e := NextEntry(es, s.procs[pid].engine, s.procs[pid].protocol, ev, digest);
    BeforeWrite(s, pid, es, digest);
    var read := ApplyReadTail(ApplyLock(s, pid), pid, digest);
    WriteApplies(read, pid, ev, es, e, digest);
    AfterWrite(s, read, pid, es, Line(e), es + [e]);
  }

  lemma BeforeWrite(s: State, pid: nat, es: seq<LedgerEntry>, digest: Digest)
    requires pid in s.procs && s.procs[pid].phase.Idle? && s.holder.None? && s.file.Some?
    requires ParseText(s.file.value, digest) == Ok(es) && es != []
    ensures ApplyReadTail(ApplyLock(s, pid), pid, digest)
         == State(s.file, Some(pid), s.procs[pid := s.procs[pid].(phase := Reread(es))])
  {
    var p := s.procs[pid];
    assert s.procs[pid := p.(phase := Locked)][pid := p.(phase := Reread(es))] == s.procs[pid := p.(phase := Reread(es))];
  }

  lemma AfterWrite(s: State, read: State, pid: nat, es: seq<LedgerEntry>, text: string, synced: seq<LedgerEntry>)
    requires pid in s.procs && s.procs[pid].phase.Idle? && s.file.Some?
    requires read == State(s.file, Some(pid), s.procs[pid := s.procs[pid].(phase := Reread(es))])
    ensures ApplySync(ApplyUnlock(AddText(read, pid, text, synced), pid), pid)
         == State(Some(s.file.value + text), None, s.procs[pid := s.procs[pid].(entries := synced)])
  {
    var p := s.procs[pid];
    var done := p.(entries := synced);
    assert read.procs[pid := p.(phase := Written(synced))][pid := p.(phase := Unlocked(synced))][pid := done]
        == s.procs[pid := done];
  }

  // ---------------------------------------------------------------------------
  // The steps against the ledger object
  // ---------------------------------------------------------------------------

  /** An open step lets a process in exactly when `Ledger.Open` would, with the parsed
      entries and their origin. */
  lemma OpenStepIsOpen(s: State, pid: nat, digest: Digest)
    requires pid !in s.procs && s.file.Some? && s.holder.None?
    ensures Apply(s, Open(pid), digest) ==
      if CanOpen(s.file.value, digest)
      then var es := ParseText(s.file.value, digest).value;
           s.(procs := s.procs[pid := Process(es, es[0].engine, es[0].protocol, Idle)])
      else s
  {
  }

  /** A reload step replaces what `Ledger.Reload` would: the copy, and the origin unless
      the file holds no entry. */
  lemma ReloadStepIsReload(s: State, pid: nat, digest: Digest)
    requires pid in s.procs && s.procs[pid].phase.Idle? && s.file.Some? && s.holder.None?
    ensures var parsed := ParseText(s.file.value, digest);
      var p := s.procs[pid];
      var after := Apply(s, Reload(pid), digest);
      after.file == s.file && after.holder == s.holder && pid in after.procs &&
      if parsed.Err? then after == s
      else
        && after.procs[pid].entries == parsed.value && after.procs[pid].phase.Idle?
        && after.procs[pid].engine == (if parsed.value == [] then p.engine else parsed.value[0].engine)
        && after.procs[pid].protocol == (if parsed.value == [] then p.protocol else parsed.value[0].protocol)
  {
  }

  /** The file is created empty, and its creator then writes its genesis entry, as
      `Ledger.Init` does. */
  lemma CreationIsInit(s: State, pid: nat, genesis: LedgerEntry)
    requires s.file.None? && s.holder.None? && pid !in s.procs
    ensures var created := ApplyGenesis(ApplyCreate(s, pid), pid, genesis);
      && created.file == Some(Render([genesis])) && pid in created.procs
      && created.procs[pid] == Process([genesis], genesis.engine, genesis.protocol, Idle)
  {
    OneLineFile(genesis);
    GenesisWritten(ApplyCreate(s, pid), pid, genesis);
  }

  lemma OneLineFile(g: LedgerEntry)
    ensures Render([g]) == "" + Line(g)
  {
    RenderSnoc([], g);
    assert [] + [g] == [g] && Render([]) == "";
  }

  lemma GenesisWritten(s: State, pid: nat, g: LedgerEntry)
    requires pid in s.procs && s.procs[pid].phase.Creating? && s.file == Some("") && s.holder.None?
    ensures var after := ApplyGenesis(s, pid, g);
      after.file == Some("" + Line(g)) && pid in after.procs && after.procs[pid] == Process([g], g.engine, g.protocol, Idle)
  {
  }
}
