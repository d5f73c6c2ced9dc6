/** The enforcement blob: read, replaced and patched by any number of actors
    through one lock (src/daemon/mod.rs, src/daemon/enforcement.rs). Each request
    is one step, as the vault's mutex makes it. */
module Enforcement {
  import opened Wrappers
  import opened MergePatch

  type Bytes = string

  /** The encodings the daemon works with: base64, JSON text and the version hash. */
  datatype Codec = Codec(
    decode: string -> Option<Bytes>,
    parse: Bytes -> Option<Json>,
    serialize: Json -> Bytes,
    version: Bytes -> string)
  {
    /** What is serialized parses back. */
    predicate RoundTrips(v: Json) {
      v.Obj? ==> parse(serialize(v)) == Some(v)
    }

    predicate TellsApart(a: Bytes, b: Bytes) {
      version(a) == version(b) ==> a == b
    }

    ghost predicate Faithful() {
      (forall v: Json :: RoundTrips(v)) && (forall a: Bytes, b: Bytes :: TellsApart(a, b))
    }
  }

  datatype Code = DecodeError | InvalidData | VersionConflict | NotFound | InternalError

  datatype Response =
    | Served(blob: Bytes, token: string)
    | Done(merged: Option<Bytes>, token: string)
    | Refused(code: Code, current: Option<string>)

  /** `Update` replaces top-level members, `Amend` merges recursively. `truth` is the
      state the ledger gives when a read comes in, if it can be derived. */
  datatype Request =
    | Read(truth: Option<string>)
    | Replace(payload: string, expected: Option<string>)
    | Update(payload: string, expected: Option<string>)
    | Amend(payload: string, expected: Option<string>)

  const LAST_REFRESH := "last_refresh"
  const STATE := "state"

  // ---------------------------------------------------------------------------
  // One request
  // ---------------------------------------------------------------------------

  /** The JSON object every mutation carries, or the refusal to send back. */
  function DecodeObject(codec: Codec, payload: string): (r: Result<Json, Code>)
    ensures r.Ok? ==> r.value.Obj?
  {
    match codec.decode(payload)
    case None => Err(DecodeError)
    case Some(bytes) =>
      match codec.parse(bytes)
      case Some(v) => if v.Obj? then Ok(v) else Err(InvalidData)
      case None => Err(InvalidData)
  }

  function VersionRefusal(codec: Codec, expected: Option<string>, current: Option<Bytes>): Option<Response> {
    if expected.None? then None
    else
      match current
      case None => Some(Refused(VersionConflict, None))
      case Some(bytes) =>
        if codec.version(bytes) == expected.value then None
        else Some(Refused(VersionConflict, Some(codec.version(bytes))))
  }

  /** The token is the version of what is stored, or there is no token. */
  predicate TokenFits(codec: Codec, expected: Option<string>, current: Option<Bytes>) {
    expected.None? || (current.Some? && codec.version(current.value) == expected.value)
  }

  /** A conflict names the version of what is stored, if anything is. */
  function Conflict(codec: Codec, current: Option<Bytes>): Response {
    Refused(VersionConflict, if current.Some? then Some(codec.version(current.value)) else None)
  }

  /** What is stored, if anything, is the text of an object. */
  predicate HoldsObject(codec: Codec, stored: Option<Bytes>) {
    stored.Some? ==> codec.parse(stored.value).Some? && codec.parse(stored.value).value.Obj?
  }

  function Refreshed(v: Json, now: string): Json
    requires v.Obj?
  {
    Obj(v.members[LAST_REFRESH := Scalar(now)])
  }

  function Combined(state: Json, patch: Json, recursive: bool): (r: Json)
    requires state.Obj? && patch.Obj?
    ensures r.Obj?
  {
    if recursive then Merge(state, patch) else Obj(state.members + patch.members)
  }

  /** The blob as it is served: its `state` is the ledger's. What is not an object,
      or comes while the ledger cannot be read, is served as it is stored. */
  function Overlaid(codec: Codec, bytes: Bytes, truth: Option<string>): Bytes {
    if truth.None? then bytes
    else
      match codec.parse(bytes)
      case Some(v) => if v.Obj? then codec.serialize(Obj(v.members[STATE := Scalar(truth.value)])) else bytes
      case None => bytes
  }

  /** What is stored after a request, and the answer to it. */
  function Handle(codec: Codec, stored: Option<Bytes>, request: Request, now: string): (Option<Bytes>, Response) {
    match request
    case Read(truth) =>
      (stored, if stored.None? then Refused(NotFound, None)
               else Served(Overlaid(codec, stored.value, truth), codec.version(stored.value)))
    case Replace(payload, expected) => HandleReplace(codec, stored, payload, expected, now)
    case Update(payload, expected) => HandlePatch(codec, stored, payload, expected, false, now)
    case Amend(payload, expected) => HandlePatch(codec, stored, payload, expected, true, now)
  }

  function HandleReplace(codec: Codec, stored: Option<Bytes>, payload: string, expected: Option<string>,
      now: string): (Option<Bytes>, Response) {
    match DecodeObject(codec, payload)
    case Err(code) => (stored, Refused(code, None))
    case Ok(v) =>
      match VersionRefusal(codec, expected, stored)
      case Some(refusal) => (stored, refusal)
      case None =>
        var serialized := codec.serialize(Refreshed(v, now));
        (Some(serialized), Done(None, codec.version(serialized)))
  }

  function HandlePatch(codec: Codec, stored: Option<Bytes>, payload: string, expected: Option<string>, recursive: bool,
      now: string)
    : (Option<Bytes>, Response)
  {
    match DecodeObject(codec, payload)
    case Err(code) => (stored, Refused(code, None))
    case Ok(patch) =>
      if stored.None? then (stored, Refused(NotFound, None))
      else if VersionRefusal(codec, expected, stored).Some? then (stored, VersionRefusal(codec, expected, stored).value)
      else
        match codec.parse(stored.value)
        case None => (stored, Refused(InternalError, None))
        case Some(state) =>
          if !state.Obj? then (stored, Refused(InternalError, None))
          else
            var serialized := codec.serialize(Refreshed(Combined(state, patch, recursive), now));
            (Some(serialized), Done(Some(serialized), codec.version(serialized)))
  }

  /** The member a request leaves under `key`, given the member that was there. */
  function Requested(request: Request, payload: Json, existing: Option<Json>, key: string): Option<Json> {
    match request
    case Read(_) => existing
    case Replace(_, _) => Member(payload, key)
    case Update(_, _) => if Member(payload, key).Some? then Member(payload, key) else existing
    case Amend(_, _) => Patched(existing, Member(payload, key))
  }

  /** The bytes are the text of an object with the refresh time and otherwise
      exactly the members the request asks for over those of `state`. */
  ghost predicate Stores(codec: Codec, bytes: Bytes, now: string, request: Request, payload: Json, state: Json) {
    && codec.parse(bytes).Some? && codec.parse(bytes).value.Obj?
    && forall key :: Member(codec.parse(bytes).value, key)
         == if key == LAST_REFRESH then Some(Scalar(now)) else Requested(request, payload, Member(state, key), key)
  }

  /** A request that takes effect stores what it asks for, member by member,
      with the refresh time and nothing else. */
  lemma EffectIsTheRequest(codec: Codec, stored: Option<Bytes>, request: Request, now: string, state: Json)
    requires codec.Faithful() && !request.Read? && Handle(codec, stored, request, now).1.Done?
    requires !request.Replace? ==> stored.Some? && codec.parse(stored.value) == Some(state)
    ensures DecodeObject(codec, request.payload).Ok?
    ensures var after := Handle(codec, stored, request, now).0;
      after.Some? && Stores(codec, after.value, now, request, DecodeObject(codec, request.payload).value, state)
  {
    var payload := DecodeObject(codec, request.payload).value;
    if request.Replace? {
      assert codec.RoundTrips(Refreshed(payload, now));
    } else {
      assert codec.RoundTrips(Refreshed(Combined(state, payload, request.Amend?), now));
      forall key ensures Member(Merge(state, payload), key) == Patched(Member(state, key), Member(payload, key)) {
        MergeMember(state, payload, key);
      }
    }
  }

  class Vault {
    var stored: Option<Bytes>

    constructor ()
      ensures stored == None
    {
      stored := None;
    }

    /** Serve the blob under the ledger's state. */
    method Serve(codec: Codec, truth: Option<string>) returns (response: Response)
      ensures forall now :: Handle(codec, stored, Read(truth), now) == (stored, response)
    {
      if stored.None? {
        return Refused(NotFound, None);
      }
      var version := codec.version(stored.value);
      var bytes := Overlaid(codec, stored.value, truth);
      response := Served(bytes, version);
    }

    method Write(codec: Codec, payload: string, expected: Option<string>, now: string) returns (response: Response)
      modifies this
      ensures (stored, response) == HandleReplace(codec, old(stored), payload, expected, now)
      // It takes effect exactly on an object, under a token that still fits,
      ensures response.Done? <==> DecodeObject(codec, payload).Ok? && TokenFits(codec, expected, old(stored))
      ensures !response.Done? ==> stored == old(stored)
      ensures !response.Done? ==> response == match DecodeObject(codec, payload)
        case Err(code) => Refused(code, None)
        case Ok(_) => Conflict(codec, old(stored))
      // and then the payload is stored, and the answer is a token for it.
      ensures response.Done? ==> stored.Some? && response == Done(None, codec.version(stored.value))
      ensures response.Done? && codec.Faithful() ==>
        Stores(codec, stored.value, now, Replace(payload, expected), DecodeObject(codec, payload).value, Null)
    {
      var decoded := DecodeObject(codec, payload);
      if decoded.Err? {
        return Refused(decoded.error, None);
      }
      var refusal := VersionRefusal(codec, expected, stored);
      if refusal.Some? {
        return refusal.value;
      }
      var serialized := codec.serialize(Refreshed(decoded.value, now));
      if codec.Faithful() {
        EffectIsTheRequest(codec, stored, Replace(payload, expected), now, Null);
      }
      stored := Some(serialized);
      response := Done(None, codec.version(serialized));
    }

    method Patch(codec: Codec, payload: string, expected: Option<string>, recursive: bool, now: string)
      returns (response: Response)
      modifies this
      ensures (stored, response) == HandlePatch(codec, old(stored), payload, expected, recursive, now)
      // It takes effect exactly on an object, over a stored object, under a token that still fits,
      ensures response.Done? <==>
        && DecodeObject(codec, payload).Ok? && old(stored).Some?
        && TokenFits(codec, expected, old(stored)) && HoldsObject(codec, old(stored))
      ensures !response.Done? ==> stored == old(stored)
      ensures !response.Done? ==> response == match DecodeObject(codec, payload)
        case Err(code) => Refused(code, None)
        case Ok(_) =>
          if old(stored).None? then Refused(NotFound, None)
          else if !TokenFits(codec, expected, old(stored)) then Conflict(codec, old(stored))
          else Refused(InternalError, None)
      // and then what is stored is the patch over what was there, and is handed back.
      ensures response.Done? ==> stored.Some? && response == Done(stored, codec.version(stored.value))
      ensures response.Done? && codec.Faithful() ==>
        var request := if recursive then Amend(payload, expected) else Update(payload, expected);
        Stores(codec, stored.value, now, request, DecodeObject(codec, payload).value, codec.parse(old(stored).value).value)
    {
      var decoded := DecodeObject(codec, payload);
      if decoded.Err? {
        return Refused(decoded.error, None);
      }
      if stored.None? {
        return Refused(NotFound, None);
      }
      var refusal := VersionRefusal(codec, expected, stored);
      if refusal.Some? {
        return refusal.value;
      }
      var state := codec.parse(stored.value);
      if state.None? || !state.value.Obj? {
        return Refused(InternalError, None);
      }
      var merged := new JsonObject(state.value.members);
      if recursive {
        merged.MergePatch(decoded.value);
      } else {
        merged.members := merged.members + decoded.value.members;
      }
      assert Obj(merged.members) == Combined(state.value, decoded.value, recursive);
      merged.members := merged.members[LAST_REFRESH := Scalar(now)];
      var serialized := codec.serialize(Obj(merged.members));
      if codec.Faithful() {
        EffectIsTheRequest(codec, stored, if recursive then Amend(payload, expected) else Update(payload, expected), now, state.value);
      }
      stored := Some(serialized);
      response := Done(Some(serialized), codec.version(serialized));
    }
  }

  // ---------------------------------------------------------------------------
  // Compare and set, over every interleaving
  // ---------------------------------------------------------------------------

  /** Requests in the order the lock admits them, each with its clock reading. */
  type Requests = seq<(Request, string)>

  /** A token handed to some caller, with the stored bytes it stands for and the
      blob the caller was shown along with it, if any. */
  datatype Issue = Issue(token: string, bytes: Bytes, shown: Option<Bytes>)

  function BlobOf(response: Response): Option<Bytes> {
    match response
    case Served(blob, _) => Some(blob)
    case Done(merged, _) => merged
    case Refused(_, _) => None
  }

  /** The blob shows all of the stored bytes, but for a `state` read off the ledger. */
  ghost predicate Shows(codec: Codec, blob: Bytes, bytes: Bytes) {
    blob == bytes ||
    (&& codec.parse(blob).Some? && codec.parse(bytes).Some? && codec.parse(blob).value.Obj? && codec.parse(bytes).value.Obj?
     && forall key :: key != STATE ==> Member(codec.parse(blob).value, key) == Member(codec.parse(bytes).value, key))
  }

  /** A read changes nothing, serves all of what is stored, with the ledger's state in
      place, and hands out the version of the stored bytes. */
  lemma ReadServesWhatIsStored(codec: Codec, stored: Option<Bytes>, truth: Option<string>, now: string)
    requires codec.Faithful()
    ensures var (after, response) := Handle(codec, stored, Read(truth), now);
      && after == stored
      && (stored.None? ==> response == Refused(NotFound, None))
      && (stored.Some? ==>
          && response.Served? && response.token == codec.version(stored.value) && Shows(codec, response.blob, stored.value)
          && (truth.None? || !HoldsObject(codec, stored) ==> response.blob == stored.value)
          && (truth.Some? && HoldsObject(codec, stored) ==>
              codec.parse(response.blob).Some? && Member(codec.parse(response.blob).value, STATE) == Some(Scalar(truth.value))))
  {
    if stored.Some? && truth.Some? && HoldsObject(codec, stored) {
      assert codec.RoundTrips(Obj(codec.parse(stored.value).value.members[STATE := Scalar(truth.value)]));
    }
  }

  function TokenOf(response: Response): Option<string> {
    match response
    case Served(_, token) => Some(token)
    case Done(_, token) => Some(token)
    case Refused(_, current) => current
  }

  function StoredAfter(codec: Codec, stored: Option<Bytes>, requests: Requests): Option<Bytes> {
    if requests == [] then stored
    else
      var n := |requests| - 1;
      Handle(codec, StoredAfter(codec, stored, requests[..n]), requests[n].0, requests[n].1).0
  }

  /** Every token handed out so far. */
  function Issued(codec: Codec, stored: Option<Bytes>, requests: Requests): seq<Issue> {
    if requests == [] then []
    else
      var n := |requests| - 1;
      var (after, response) := Handle(codec, StoredAfter(codec, stored, requests[..n]), requests[n].0, requests[n].1);
      Issued(codec, stored, requests[..n])
      + if TokenOf(response).Some? && after.Some? then [Issue(TokenOf(response).value, after.value, BlobOf(response))] else []
  }

  function Expectation(request: Request): Option<string> {
    if request.Read? then None else request.expected
  }

  lemma {:induction false} IssuedAreVersions(codec: Codec, stored: Option<Bytes>, requests: Requests, issue: Issue)
    requires issue in Issued(codec, stored, requests)
    ensures issue.token == codec.version(issue.bytes)
    ensures codec.Faithful() && issue.shown.Some? ==> Shows(codec, issue.shown.value, issue.bytes)
  {
    var n := |requests| - 1;
    if issue in Issued(codec, stored, requests[..n]) {
      IssuedAreVersions(codec, stored, requests[..n], issue);
    } else if codec.Faithful() && requests[n].0.Read? {
      ReadServesWhatIsStored(codec, StoredAfter(codec, stored, requests[..n]), requests[n].0.truth, requests[n].1);
    }
  }

  /** In every run, a mutation that carries a token takes effect only on exactly
      the bytes that token was issued for, all of which its caller was shown if it
      was shown a blob with it; otherwise nothing changes. */
  lemma ConditionalMutationIsExact(codec: Codec, stored: Option<Bytes>, requests: Requests, issue: Issue,
      request: Request, now: string)
    requires codec.Faithful()
    requires issue in Issued(codec, stored, requests) && Expectation(request) == Some(issue.token)
    ensures var current := StoredAfter(codec, stored, requests);
      var (after, response) := Handle(codec, current, request, now);
      if response.Done?
      then current == Some(issue.bytes) && (issue.shown.Some? ==> Shows(codec, issue.shown.value, current.value))
      else response.Refused? && after == current
  {
    var current := StoredAfter(codec, stored, requests);
    IssuedAreVersions(codec, stored, requests, issue);
    if Handle(codec, current, request, now).1.Done? {
      assert codec.TellsApart(current.value, issue.bytes);
    }
  }

  /** Read, and mutate later under the token that came with the blob: whatever came in
      between, it takes effect only over exactly the bytes the blob showed. */
  lemma ReadThenMutate(codec: Codec, stored: Option<Bytes>, before: Requests, truth: Option<string>, at: string, between: Requests,
      request: Request, now: string)
    requires codec.Faithful()
    requires var response := Handle(codec, StoredAfter(codec, stored, before), Read(truth), at).1;
      response.Served? && Expectation(request) == Some(response.token)
    ensures var seen := StoredAfter(codec, stored, before);
      var blob := Handle(codec, seen, Read(truth), at).1.blob;
      var current := StoredAfter(codec, stored, before + [(Read(truth), at)] + between);
      Handle(codec, current, request, now).1.Done? ==> current == seen && Shows(codec, blob, current.value)
  {
    var seen := StoredAfter(codec, stored, before);
    var current := StoredAfter(codec, stored, before + [(Read(truth), at)] + between);
    ReadServesWhatIsStored(codec, seen, truth, at);
    if Handle(codec, current, request, now).1.Done? {
      assert codec.TellsApart(current.value, seen.value);
    }
  }

  /** Once what is stored is the text of an object, it stays one. */
  lemma {:induction false} StoredIsAnObject(codec: Codec, stored: Option<Bytes>, requests: Requests)
    requires codec.Faithful() && HoldsObject(codec, stored)
    ensures HoldsObject(codec, StoredAfter(codec, stored, requests))
  {
    if requests != [] {
      var n := |requests| - 1;
      var before := StoredAfter(codec, stored, requests[..n]);
      StoredIsAnObject(codec, stored, requests[..n]);
      HandleKeepsObject(codec, before, requests[n].0, requests[n].1);
    }
  }

  lemma HandleKeepsObject(codec: Codec, stored: Option<Bytes>, request: Request, now: string)
    requires codec.Faithful() && HoldsObject(codec, stored)
    ensures HoldsObject(codec, Handle(codec, stored, request, now).0)
  {
    if Handle(codec, stored, request, now).1.Done? {
      EffectIsTheRequest(codec, stored, request, now, if stored.Some? then codec.parse(stored.value).value else Null);
    }
  }

  /** In every run over stored objects, a well-formed conditional mutation of any
      kind is refused exactly when the blob is no longer the one its token was
      issued for, and then as a conflict. */
  lemma ConflictIsExact(codec: Codec, stored: Option<Bytes>, requests: Requests, issue: Issue, request: Request,
      now: string)
    requires codec.Faithful() && issue in Issued(codec, stored, requests)
    requires Expectation(request) == Some(issue.token) && DecodeObject(codec, request.payload).Ok?
    requires !request.Replace? ==> HoldsObject(codec, stored)
    ensures var current := StoredAfter(codec, stored, requests);
      var response := Handle(codec, current, request, now).1;
      && (response.Refused? <==> current != Some(issue.bytes))
      && (response.Refused? && current.Some? ==> response == Conflict(codec, current))
  {
    var current := StoredAfter(codec, stored, requests);
    IssuedAreVersions(codec, stored, requests, issue);
    if !request.Replace? {
      StoredIsAnObject(codec, stored, requests);
    }
    if current.Some? {
      assert codec.TellsApart(current.value, issue.bytes);
    }
  }

  // ---------------------------------------------------------------------------
  // Actors that only name their own keys
  // ---------------------------------------------------------------------------

  /** An unconditional merge by one actor. */
  datatype Amendment = Amendment(actor: string, patch: Json, now: string)

  /** Inside its top-level maps the patch names no key but the actor's own. */
  predicate OwnKeysOnly(a: Amendment) {
    && a.patch.Obj? && LAST_REFRESH !in a.patch.members
    && forall key :: key in a.patch.members ==> a.patch.members[key].Obj? && a.patch.members[key].members.Keys <= {a.actor}
  }

  predicate AllOwn(amendments: seq<Amendment>) {
    forall i :: 0 <= i < |amendments| ==> OwnKeysOnly(amendments[i])
  }

  function Amended(state: Json, amendments: seq<Amendment>): (r: Json)
    requires state.Obj? && AllOwn(amendments)
    ensures r.Obj?
  {
    if amendments == [] then state
    else
      var n := |amendments| - 1;
      Refreshed(Merge(Amended(state, amendments[..n]), amendments[n].patch), amendments[n].now)
  }

  /** One actor's amendments, in order. */
  function By(amendments: seq<Amendment>, actor: string): (r: seq<Amendment>)
    requires AllOwn(amendments)
    ensures AllOwn(r)
  {
    if amendments == [] then []
    else
      var n := |amendments| - 1;
      By(amendments[..n], actor) + if amendments[n].actor == actor then [amendments[n]] else []
  }

  /** What stands under `actor` inside the top-level map `key`. */
  function Entry(v: Json, key: string, actor: string): Option<Json> {
    match Member(v, key)
    case None => None
    case Some(child) => Member(child, actor)
  }

  /** The amendment changes an actor's entry by what the patch says at that
      entry, and by nothing else. */
  lemma AmendsEntry(state: Json, a: Amendment, key: string, actor: string)
    requires state.Obj? && OwnKeysOnly(a) && key != LAST_REFRESH
    ensures Entry(Refreshed(Merge(state, a.patch), a.now), key, actor) == Patched(Entry(state, key, actor), Entry(a.patch, key, actor))
    ensures a.actor != actor ==> Entry(a.patch, key, actor) == None
  {
    var merged := Merge(state, a.patch);
    MergeMember(state, a.patch, key);
    assert Member(Refreshed(merged, a.now), key) == Member(merged, key);
  }

  /** However the actors interleave, each one's entry ends as if it had acted alone. */
  lemma {:induction false} ActorsAreIsolated(state: Json, amendments: seq<Amendment>, key: string, actor: string)
    requires state.Obj? && AllOwn(amendments) && key != LAST_REFRESH
    ensures Entry(Amended(state, amendments), key, actor) == Entry(Amended(state, By(amendments, actor)), key, actor)
    decreases |amendments|
  {
    if amendments != [] {
      var n := |amendments| - 1;
      var a := amendments[n];
      var before, own := Amended(state, amendments[..n]), By(amendments[..n], actor);
      ActorsAreIsolated(state, amendments[..n], key, actor);
      AmendsEntry(before, a, key, actor);
      if a.actor == actor {
        assert (own + [a])[..|own|] == own;
        AmendsEntry(Amended(state, own), a, key, actor);
      } else {
        assert own + [] == own;
      }
    }
  }

  /** The requests that carry those amendments. */
  predicate Carries(codec: Codec, request: Request, a: Amendment) {
    request.Amend? && request.expected == None && DecodeObject(codec, request.payload) == Ok(a.patch)
  }

  predicate AllCarry(codec: Codec, requests: Requests, amendments: seq<Amendment>) {
    && |requests| == |amendments|
    && forall i :: 0 <= i < |requests| ==> Carries(codec, requests[i].0, amendments[i]) && requests[i].1 == amendments[i].now
  }

  lemma AmendStores(codec: Codec, state: Json, request: Request, a: Amendment)
    requires codec.Faithful() && state.Obj? && OwnKeysOnly(a) && Carries(codec, request, a)
    ensures Handle(codec, Some(codec.serialize(state)), request, a.now).0
         == Some(codec.serialize(Refreshed(Merge(state, a.patch), a.now)))
  {
    assert codec.RoundTrips(state);
  }

  /** On the stored bytes: what the daemon holds after the requests is the text
      of the amended blob. */
  lemma {:induction false} StoredIsAmended(codec: Codec, state: Json, requests: Requests, amendments: seq<Amendment>)
    requires codec.Faithful() && state.Obj? && AllOwn(amendments) && AllCarry(codec, requests, amendments)
    ensures StoredAfter(codec, Some(codec.serialize(state)), requests) == Some(codec.serialize(Amended(state, amendments)))
    decreases |requests|
  {
    if requests != [] {
      var n := |requests| - 1;
      assert AllOwn(amendments[..n]) && AllCarry(codec, requests[..n], amendments[..n]);
      StoredIsAmended(codec, state, requests[..n], amendments[..n]);
      AmendStores(codec, Amended(state, amendments[..n]), requests[n].0, amendments[n]);
    }
  }
}
