/** The seal table and what a reader checks of it (src/manifest/tracker.rs,
    src/manifest/verify.rs). */
module Manifests {
  import opened Wrappers
  import opened LedgerEntries

  /** A file, by its lines. */
  type Content = seq<string>

  datatype Seal = Seal(sha256: string, lastOperation: string, lastUpdated: string, ledgerSeq: nat)

  type Seals = map<string, Seal>

  /** What the manifest takes from its surroundings: the file hash, the hash of
      the seal table, and which paths are under a managed one. */
  datatype Env = Env(sha: Content -> string, tableHash: Seals -> string, isManaged: string -> bool)

  datatype TrackError = NotManaged(path: string) | CannotRead(missing: string)

  /** A manifest as it is stored. */
  datatype Saved = Saved(entries: Seals, manifestHash: string)

  class Manifest {
    const env: Env
    var entries: Seals
    var manifestHash: string

    constructor Init(env: Env)
      ensures this.env == env && entries == map[] && manifestHash == env.tableHash(map[])
    {
      this.env, entries, manifestHash := env, map[], env.tableHash(map[]);
    }

    constructor Load(env: Env, saved: Saved)
      ensures this.env == env && entries == saved.entries && manifestHash == saved.manifestHash
    {
      this.env, entries, manifestHash := env, saved.entries, saved.manifestHash;
    }

    /** Refuses a path no managed one covers, and one that cannot be read; both
        leave the table as it was. */
    method Track(path: string, file: Option<Content>, operation: string, ledgerSeq: nat, now: string)
      returns (done: Result<(), TrackError>)
      modifies this
      ensures done.Ok? <==> env.isManaged(path) && file.Some?
      ensures done.Err? ==> entries == old(entries) && manifestHash == old(manifestHash)
      ensures done.Err? ==> done.error == if env.isManaged(path) then CannotRead(path) else NotManaged(path)
      ensures done.Ok? ==> entries == Tracked(env, old(entries), path, file.value, operation, ledgerSeq, now)
      ensures done.Ok? ==> path in entries && entries[path] == Seal(env.sha(file.value), operation, now, ledgerSeq)
      ensures done.Ok? ==> entries.Keys == old(entries.Keys) + {path}
      ensures forall other :: other != path && other in old(entries) ==> entries[other] == old(entries)[other]
      ensures done.Ok? ==> manifestHash == env.tableHash(entries)
    {
      if !env.isManaged(path) {
        return Err(NotManaged(path));
      }
      if file.None? {
        return Err(CannotRead(path));
      }
      var entry := Seal(env.sha(file.value), operation, now, ledgerSeq);
      entries := entries[path := entry];
      manifestHash := env.tableHash(entries);
      done := Ok(());
    }

    method Save() returns (saved: Saved)
      modifies this
      ensures entries == old(entries) && manifestHash == env.tableHash(entries)
      ensures saved == Saved(entries, env.tableHash(entries))
    {
      manifestHash := env.tableHash(entries);
      saved := Saved(entries, manifestHash);
    }
  }

  /** The table after sealing `path`: every other seal stays. */
  function Tracked(env: Env, entries: Seals, path: string, file: Content, operation: string, ledgerSeq: nat,
      now: string): Seals {
    entries[path := Seal(env.sha(file), operation, now, ledgerSeq)]
  }

  // ---------------------------------------------------------------------------
  // Verification
  // ---------------------------------------------------------------------------

  datatype Kind = Modified | Missing | Unmanaged

  datatype Mismatch = Mismatch(path: string, expected: string, actual: Option<string>, kind: Kind)

  datatype VerifyResult = VerifyResult(clean: bool, mismatches: seq<Mismatch>, unmanaged: seq<Mismatch>)

  type Files = map<string, Content>

  /** What is wrong with one seal, if anything. */
  function Problem(env: Env, entries: Seals, files: Files, path: string): Option<Mismatch>
    requires path in entries
  {
    var expected := entries[path].sha256;
    if !env.isManaged(path) then Some(Mismatch(path, expected, None, Unmanaged))
    else if path !in files then Some(Mismatch(path, expected, None, Missing))
    else if env.sha(files[path]) != expected then Some(Mismatch(path, expected, Some(env.sha(files[path])), Modified))
    else None
  }

  /** Every managed seal is the hash of the file that is there. */
  predicate SealsMatch(env: Env, entries: Seals, files: Files) {
    forall path :: path in entries && env.isManaged(path) ==> path in files && env.sha(files[path]) == entries[path].sha256
  }

  /** A seal outside the managed paths, of a file that is gone, or of other content. */
  ghost predicate Reported(env: Env, entries: Seals, files: Files, m: Mismatch) {
    && m.path in entries && m.expected == entries[m.path].sha256
    && match m.kind
       case Unmanaged => !env.isManaged(m.path) && m.actual == None
       case Missing => env.isManaged(m.path) && m.path !in files && m.actual == None
       case Modified =>
         && env.isManaged(m.path) && m.path in files
         && m.actual == Some(env.sha(files[m.path])) && env.sha(files[m.path]) != m.expected
  }

  lemma ProblemIsReported(env: Env, entries: Seals, files: Files, path: string, m: Mismatch)
    requires path in entries
    ensures Problem(env, entries, files, path) == Some(m) <==> m.path == path && Reported(env, entries, files, m)
  {
  }

  predicate SortedByPath(ms: seq<Mismatch>) {
    forall i, j :: 0 <= i < j < |ms| ==> Less(ms[i].path, ms[j].path)
  }

  /** Insert a mismatch of a path not yet listed. */
  function InsertByPath(ms: seq<Mismatch>, m: Mismatch): seq<Mismatch> {
    if ms == [] || Less(m.path, ms[0].path) then [m] + ms else [ms[0]] + InsertByPath(ms[1..], m)
  }

  lemma {:induction false} InsertSorts(ms: seq<Mismatch>, m: Mismatch)
    requires SortedByPath(ms) && forall i :: 0 <= i < |ms| ==> ms[i].path != m.path
    ensures SortedByPath(InsertByPath(ms, m))
    ensures forall x :: x in InsertByPath(ms, m) <==> x == m || x in ms
  {
    if ms != [] {
      if Less(m.path, ms[0].path) {
        forall j | 0 <= j < |ms| ensures Less(m.path, ms[j].path) {
          if j > 0 {
            LessIsTransitive(m.path, ms[0].path, ms[j].path);
          }
        }
      } else {
        LessIsTotal(m.path, ms[0].path);
        InsertSorts(ms[1..], m);
        var inner := InsertByPath(ms[1..], m);
        assert ms == [ms[0]] + ms[1..];
        forall j | 0 <= j < |inner| ensures Less(ms[0].path, inner[j].path) {
          assert inner[j] in inner;
          if inner[j] != m {
            var k :| 0 <= k < |ms[1..]| && ms[1..][k] == inner[j];
          }
        }
      }
    }
  }

  /** The seals are visited in hash-map order; the lists come out sorted by path. */
  method Verify(env: Env, entries: Seals, files: Files) returns (r: VerifyResult)
    ensures r.clean <==> SealsMatch(env, entries, files)
    ensures forall m :: m in r.mismatches <==> Reported(env, entries, files, m) && m.kind != Unmanaged
    ensures forall m :: m in r.unmanaged <==> Reported(env, entries, files, m) && m.kind == Unmanaged
    ensures SortedByPath(r.mismatches) && SortedByPath(r.unmanaged)
  {
    var mismatches: seq<Mismatch>, unmanaged: seq<Mismatch> := [], [];
    var left := entries.Keys;
    while left != {}
      invariant left <= entries.Keys
      invariant SortedByPath(mismatches) && SortedByPath(unmanaged)
      invariant forall m :: m in mismatches <==> Reported(env, entries, files, m) && m.kind != Unmanaged && m.path !in left
      invariant forall m :: m in unmanaged <==> Reported(env, entries, files, m) && m.kind == Unmanaged && m.path !in left
      decreases left
    {
      var path :| path in left;
      var problem := Problem(env, entries, files, path);
      forall m ensures problem == Some(m) <==> m.path == path && Reported(env, entries, files, m) {
        ProblemIsReported(env, entries, files, path, m);
      }
      if problem.Some? {
        var m := problem.value;
        if m.kind == Unmanaged {
          assert forall i :: 0 <= i < |unmanaged| ==> unmanaged[i] in unmanaged;
          InsertSorts(unmanaged, m);
          unmanaged := InsertByPath(unmanaged, m);
        } else {
          assert forall i :: 0 <= i < |mismatches| ==> mismatches[i] in mismatches;
          InsertSorts(mismatches, m);
          mismatches := InsertByPath(mismatches, m);
        }
      }
      left := left - {path};
    }
    CleanMeansMatch(env, entries, files, mismatches);
    r := VerifyResult(mismatches == [], mismatches, unmanaged);
  }

  lemma CleanMeansMatch(env: Env, entries: Seals, files: Files, mismatches: seq<Mismatch>)
    requires forall m :: m in mismatches <==> Reported(env, entries, files, m) && m.kind != Unmanaged
    ensures mismatches == [] <==> SealsMatch(env, entries, files)
  {
    if mismatches == [] {
      forall path | path in entries && env.isManaged(path) ensures path in files && env.sha(files[path]) == entries[path].sha256 {
        var problem := Problem(env, entries, files, path);
        if problem.Some? {
          ProblemIsReported(env, entries, files, path, problem.value);
          assert problem.value !in mismatches;
        }
      }
    } else {
      assert mismatches[0] in mismatches;
    }
  }
}
