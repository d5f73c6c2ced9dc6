/** The seal protocol as interleaved steps: writers and readers around one
    readers/writer lock (src/manifest/lock.rs, src/cli/transition.rs,
    src/cli/commands.rs, src/cli/manifest_cmd.rs). */
module ManifestProtocol {
  import opened Wrappers
  import opened Manifests

  /** A writer goes lock, load, append, track, save, release. `Loaded` and later
      phases carry its own copy of the table, `Appended` and later the ledger. */
  datatype Phase =
    | Idle
    | Reading
    | Locked
    | Loaded(copy: Seals)
    | Appended(copy: Seals, path: string)
    | TrackedIn(copy: Seals, path: string)
    | SavedAll

  /** `unsealed` remembers the ledgers some writer left behind grown but not
      sealed: its track or save step failed. */
  datatype System = System(
    files: Files,
    manifest: Seals,
    writer: Option<nat>,
    readers: set<nat>,
    procs: map<nat, Phase>,
    unsealed: set<string>)

  datatype Step =
    | LockExclusive(pid: nat)
    | LockShared(pid: nat)
    | LoadManifest(pid: nat)
    | AppendLines(pid: nat, ledger: string, lines: seq<string>)
    | TrackLedger(pid: nat, now: string)
    | SaveManifest(pid: nat)
    | Release(pid: nat)

  function PhaseOf(s: System, pid: nat): Phase {
    if pid in s.procs then s.procs[pid] else Idle
  }

  function Enter(s: System, pid: nat, phase: Phase): System {
    s.(procs := s.procs[pid := phase])
  }

  function FileOf(files: Files, path: string): Content {
    if path in files then files[path] else []
  }

  /** The seal of a ledger: its hash and the number of its last entry. */
  predicate IsSealOf(env: Env, seal: Seal, file: Content) {
    file != [] && seal.sha256 == env.sha(file) && seal.ledgerSeq == |file| - 1
  }

  const LEDGER_APPEND := "ledger_append"

  /** A ledger no managed path covers is left unsealed on purpose. */
  function TrackCopy(env: Env, copy: Seals, path: string, file: Content, now: string): Seals
    requires file != []
  {
    if env.isManaged(path) then Tracked(env, copy, path, file, LEDGER_APPEND, |file| - 1, now) else copy
  }

  /** Releasing before the save leaves what was appended unsealed. */
  function LeftBehind(env: Env, phase: Phase): set<string> {
    if (phase.Appended? || phase.TrackedIn?) && env.isManaged(phase.path) then {phase.path} else {}
  }

  /** A step that is not possible changes nothing. */
  function Apply(env: Env, s: System, step: Step): System {
    match step
    case LockExclusive(pid) =>
      if PhaseOf(s, pid).Idle? && s.writer.None? && s.readers == {} then Enter(s, pid, Locked).(writer := Some(pid)) else s
    case LockShared(pid) =>
      if PhaseOf(s, pid).Idle? && s.writer.None? then Enter(s, pid, Reading).(readers := s.readers + {pid}) else s
    case LoadManifest(pid) =>
      if PhaseOf(s, pid).Locked? then Enter(s, pid, Loaded(s.manifest)) else s
    case AppendLines(pid, ledger, lines) =>
      if PhaseOf(s, pid).Loaded? && lines != []
      then Enter(s, pid, Appended(PhaseOf(s, pid).copy, ledger)).(files := s.files[ledger := FileOf(s.files, ledger) + lines])
      else s
    case TrackLedger(pid, now) =>
      var phase := PhaseOf(s, pid);
      if phase.Appended? && phase.path in s.files && s.files[phase.path] != []
      then Enter(s, pid, TrackedIn(TrackCopy(env, phase.copy, phase.path, s.files[phase.path], now), phase.path))
      else s
    case SaveManifest(pid) =>
      var phase := PhaseOf(s, pid);
      if phase.TrackedIn?
      then Enter(s, pid, SavedAll).(manifest := phase.copy, unsealed := s.unsealed - {phase.path})
      else s
    case Release(pid) =>
      if PhaseOf(s, pid).Reading? then Enter(s, pid, Idle).(readers := s.readers - {pid})
      else if PhaseOf(s, pid).Idle? then s
      else Enter(s, pid, Idle).(writer := None, unsealed := s.unsealed + LeftBehind(env, PhaseOf(s, pid)))
  }

  function Run(env: Env, s: System, steps: seq<Step>): System {
    if steps == [] then s
    else
      var n := |steps| - 1;
      Apply(env, Run(env, s, steps[..n]), steps[n])
  }

  // ---------------------------------------------------------------------------
  // What every run keeps
  // ---------------------------------------------------------------------------

  /** Writers exclude everyone, readers exclude writers, and only the lock's
      holders are past `Idle`. */
  predicate LockHeld(s: System) {
    && (s.writer.Some? ==> s.readers == {} && !PhaseOf(s, s.writer.value).Idle? && !PhaseOf(s, s.writer.value).Reading?)
    && forall pid :: pid in s.procs ==>
      && (s.procs[pid].Reading? <==> pid in s.readers)
      && (!s.procs[pid].Idle? && !s.procs[pid].Reading? ==> s.writer == Some(pid))
  }

  /** The ledger being sealed right now, between its append and its save. */
  function InFlight(s: System): set<string> {
    if s.writer.None? then {}
    else
      var phase := PhaseOf(s, s.writer.value);
      if phase.Appended? || phase.TrackedIn? then {phase.path} else {}
  }

  /** The seal is of the file as it stood before it last grew. */
  ghost predicate Outgrown(env: Env, seal: Seal, file: Content) {
    exists n :: 0 < n < |file| && IsSealOf(env, seal, file[..n])
  }

  /** The seal is of the file as it stands, unless the ledger is being sealed
      right now or was left unsealed. */
  ghost predicate SealHolds(env: Env, s: System, path: string)
    requires path in s.manifest
  {
    && env.isManaged(path) && path in s.files
    && if path in s.unsealed || path in InFlight(s)
       then Outgrown(env, s.manifest[path], s.files[path])
       else IsSealOf(env, s.manifest[path], s.files[path])
  }

  /** The holder's copy is the stored table, with the tracked ledger sealed anew. */
  predicate CopyHolds(env: Env, s: System, phase: Phase) {
    match phase
    case Loaded(copy) => copy == s.manifest
    case Appended(copy, path) => copy == s.manifest && path in s.files
    case TrackedIn(copy, path) =>
      && path in s.files && s.files[path] != []
      && if env.isManaged(path)
         then path in copy && copy == s.manifest[path := copy[path]] && IsSealOf(env, copy[path], s.files[path])
         else copy == s.manifest
    case _ => true
  }

  ghost predicate Holds(env: Env, s: System) {
    && LockHeld(s)
    && (forall path :: path in s.unsealed ==> env.isManaged(path))
    && (forall path :: path in s.manifest ==> SealHolds(env, s, path))
    && (s.writer.Some? ==> CopyHolds(env, s, PhaseOf(s, s.writer.value)))
  }

  /** Nothing sealed, nothing held. */
  predicate Start(s: System) {
    s.manifest == map[] && s.writer.None? && s.readers == {} && s.procs == map[] && s.unsealed == {}
  }

  // ---------------------------------------------------------------------------
  // Steps
  // ---------------------------------------------------------------------------

  /** Steps that touch neither the files nor the table. */
  lemma LockSteps(env: Env, s: System, step: Step)
    requires Holds(env, s) && (step.LockExclusive? || step.LockShared? || step.LoadManifest?)
    ensures Holds(env, Apply(env, s, step))
  {
    var t := Apply(env, s, step);
    assert InFlight(t) == InFlight(s);
    forall path | path in t.manifest ensures SealHolds(env, t, path) {
      assert SealHolds(env, s, path);
    }
  }

  lemma ReleaseStep(env: Env, s: System, pid: nat)
    requires Holds(env, s)
    ensures Holds(env, Apply(env, s, Release(pid)))
  {
    var t := Apply(env, s, Release(pid));
    forall path | path in t.manifest ensures SealHolds(env, t, path) {
      assert SealHolds(env, s, path);
      assert path in t.unsealed || path in InFlight(t) <==> path in s.unsealed || path in InFlight(s);
    }
  }

  lemma AppendOutgrows(env: Env, seal: Seal, file: Content, lines: seq<string>)
    requires lines != [] && (IsSealOf(env, seal, file) || Outgrown(env, seal, file))
    ensures Outgrown(env, seal, file + lines)
  {
    if IsSealOf(env, seal, file) {
      assert (file + lines)[..|file|] == file;
    } else {
      var n :| 0 < n < |file| && IsSealOf(env, seal, file[..n]);
      assert (file + lines)[..n] == file[..n];
    }
  }

  lemma AppendStep(env: Env, s: System, pid: nat, ledger: string, lines: seq<string>)
    requires Holds(env, s) && PhaseOf(s, pid).Loaded? && lines != []
    ensures Holds(env, Apply(env, s, AppendLines(pid, ledger, lines)))
  {
    var t := Apply(env, s, AppendLines(pid, ledger, lines));
    forall path | path in t.manifest ensures SealHolds(env, t, path) {
      assert SealHolds(env, s, path);
      if path == ledger {
        AppendOutgrows(env, s.manifest[path], s.files[path], lines);
      }
    }
  }

  lemma StepKeeps(env: Env, s: System, step: Step)
    requires Holds(env, s)
    ensures Holds(env, Apply(env, s, step))
  {
    match step
    case LockExclusive(_) => LockSteps(env, s, step);
    case LockShared(_) => LockSteps(env, s, step);
    case LoadManifest(_) => LockSteps(env, s, step);
    case AppendLines(pid, ledger, lines) =>
      if PhaseOf(s, pid).Loaded? && lines != [] {
        AppendStep(env, s, pid, ledger, lines);
      }
    case TrackLedger(_, _) =>
    case SaveManifest(_) =>
    case Release(pid) => ReleaseStep(env, s, pid);
  }

  lemma {:induction false} EveryRunHolds(env: Env, start: System, steps: seq<Step>)
    requires Start(start)
    ensures Holds(env, Run(env, start, steps))
    decreases |steps|
  {
    if steps != [] {
      var n := |steps| - 1;
      EveryRunHolds(env, start, steps[..n]);
      StepKeeps(env, Run(env, start, steps[..n]), steps[n]);
    }
  }

  // ---------------------------------------------------------------------------
  // What the runs guarantee
  // ---------------------------------------------------------------------------

  /** Whenever no writer holds the lock, a seal is of its file as it stands, hash
      and entry number both, exactly unless some writer left that ledger unsealed. */
  lemma SealsAreCurrent(env: Env, start: System, steps: seq<Step>, path: string)
    requires Start(start)
    requires var s := Run(env, start, steps); s.writer.None? && path in s.manifest
    ensures var s := Run(env, start, steps);
      path in s.files && (IsSealOf(env, s.manifest[path], s.files[path]) <==> path !in s.unsealed)
  {
    EveryRunHolds(env, start, steps);
    var s := Run(env, start, steps);
    assert SealHolds(env, s, path);
    if path in s.unsealed {
      var n :| 0 < n < |s.files[path]| && IsSealOf(env, s.manifest[path], s.files[path][..n]);
    }
  }

  predicate TellsApart(env: Env, a: Content, b: Content) {
    env.sha(a) == env.sha(b) ==> a == b
  }

  ghost predicate Collisionless(env: Env) {
    forall a: Content, b: Content :: TellsApart(env, a, b)
  }

  /** A reader's verify is clean exactly when no sealed ledger was left unsealed;
      in particular it never sees an append without its seal. */
  lemma ReadersVerifyExactly(env: Env, start: System, steps: seq<Step>, reader: nat)
    requires Start(start) && Collisionless(env)
    requires PhaseOf(Run(env, start, steps), reader).Reading?
    ensures var s := Run(env, start, steps); SealsMatch(env, s.manifest, s.files) <==> s.manifest.Keys !! s.unsealed
  {
    EveryRunHolds(env, start, steps);
    var s := Run(env, start, steps);
    assert reader in s.readers && s.writer.None?;
    forall path | path in s.manifest
      ensures env.isManaged(path) && path in s.files
      ensures env.sha(s.files[path]) == s.manifest[path].sha256 <==> path !in s.unsealed
    {
      assert SealHolds(env, s, path);
      if path in s.unsealed {
        var n :| 0 < n < |s.files[path]| && IsSealOf(env, s.manifest[path], s.files[path][..n]);
        assert TellsApart(env, s.files[path], s.files[path][..n]);
      }
    }
  }

  /** No step drops a seal, replaces it by an older one, or shortens a file. */
  lemma SealsOnlyAdvance(env: Env, s: System, step: Step, path: string)
    requires Holds(env, s) && path in s.manifest
    ensures var t := Apply(env, s, step);
      && path in t.manifest && s.manifest[path].ledgerSeq <= t.manifest[path].ledgerSeq
      && path in t.files && s.files[path] <= t.files[path]
  {
    assert SealHolds(env, s, path);
    if path in s.unsealed || path in InFlight(s) {
      var n :| 0 < n < |s.files[path]| && IsSealOf(env, s.manifest[path], s.files[path][..n]);
    }
  }

  /** Every release comes before the append or after the save: no step failed in between. */
  ghost predicate NothingFails(env: Env, start: System, steps: seq<Step>) {
    forall n :: 0 <= n < |steps| ==> CompletesAt(env, start, steps, n)
  }

  predicate CompletesAt(env: Env, start: System, steps: seq<Step>, n: nat)
    requires n < |steps|
  {
    steps[n].Release? ==> LeftBehind(env, PhaseOf(Run(env, start, steps[..n]), steps[n].pid)) == {}
  }

  /** Without a failed step every seal is current whenever no writer holds the lock. */
  lemma {:induction false} NothingFailsNothingUnsealed(env: Env, start: System, steps: seq<Step>)
    requires Start(start) && NothingFails(env, start, steps)
    ensures Run(env, start, steps).unsealed == {}
    decreases |steps|
  {
    if steps != [] {
      var n := |steps| - 1;
      assert CompletesAt(env, start, steps, n);
      forall k | 0 <= k < n ensures CompletesAt(env, start, steps[..n], k) {
        assert CompletesAt(env, start, steps, k);
        assert steps[..n][..k] == steps[..k];
      }
      NothingFailsNothingUnsealed(env, start, steps[..n]);
    }
  }

  // ---------------------------------------------------------------------------
  // One writer
  // ---------------------------------------------------------------------------

  /** The data directory as one process sees it while it holds the lock. */
  class DataDir {
    var files: Files
    var stored: Saved

    constructor (files: Files, stored: Saved)
      ensures this.files == files && this.stored == stored
    {
      this.files, this.stored := files, stored;
    }

    /** `record_and_render` up to its renders. `appended` is what the locked
        append wrote, or nothing if it failed. */
    method RecordAndRender(env: Env, ledger: string, appended: Option<seq<string>>, now: string) returns (recorded: bool)
      requires appended.Some? ==> appended.value != []
      modifies this
      ensures recorded == appended.Some?
      ensures !recorded ==> files == old(files) && stored == old(stored)
      ensures recorded ==>
        var t := WriterRun(env, Resting(old(files), old(stored.entries)), ledger, appended.value, now);
        files == t.files && stored.entries == t.manifest
      ensures recorded ==> stored.manifestHash == env.tableHash(stored.entries)
    {
      var manifest := new Manifest.Load(env, stored);
      if appended.None? {
        return false;
      }
      files := files[ledger := FileOf(files, ledger) + appended.value];
      WriterRunResult(env, Resting(old(files), old(stored.entries)), ledger, appended.value, now);
      if env.isManaged(ledger) {
        var tracked := manifest.Track(ledger, Some(files[ledger]), LEDGER_APPEND, |files[ledger]| - 1, now);
      }
      stored := manifest.Save();
      recorded := true;
    }
  }

  /** No process is at work. */
  function Resting(files: Files, entries: Seals): System {
    System(files, entries, None, {}, map[], {})
  }

  /** The six steps of one writer, undisturbed. */
  function WriterRun(env: Env, s: System, ledger: string, lines: seq<string>, now: string): System {
    var locked := Apply(env, s, LockExclusive(0));
    var loaded := Apply(env, locked, LoadManifest(0));
    var appended := Apply(env, loaded, AppendLines(0, ledger, lines));
    var tracked := Apply(env, appended, TrackLedger(0, now));
    var saved := Apply(env, tracked, SaveManifest(0));
    Apply(env, saved, Release(0))
  }

  lemma WriterRunResult(env: Env, s: System, ledger: string, lines: seq<string>, now: string)
    requires s == Resting(s.files, s.manifest) && lines != []
    ensures var grown := FileOf(s.files, ledger) + lines;
      var t := WriterRun(env, s, ledger, lines, now);
      t.files == s.files[ledger := grown] && t.manifest == TrackCopy(env, s.manifest, ledger, grown, now)
  {
  }
}
