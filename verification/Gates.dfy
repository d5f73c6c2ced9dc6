/** Gate evaluation (src/gates/types.rs, src/gates/ledger.rs). */
module Gates {
  import opened Wrappers
  import opened ProtocolConfig
  import opened LedgerEntries
  import opened GateFilters
  import opened SinceWindow

  const PROTOCOL_VIOLATION := "protocol_violation"
  const VIOLATION_RESOLVED := "violation_resolved"
  const LAST_TRANSITION := "last_transition"
  const LAST_EVENT_OF_TYPE := "last_event_of_type:"

  function OrElse<T>(o: Option<T>, fallback: T): T {
    match o
    case Some(x) => x
    case None => fallback
  }

  /** The baseline type a `since` parameter names; `None` for one the engine cannot read. */
  function ResolveGateSince(config: Config, since: Since): Option<string> {
    match since
    case AbsentSince => Some(STATE_TRANSITION)
    case NonStringSince => None
    case WrittenSince(text) => ResolveSinceAnchor(config, text)
  }

  function ResolveSinceAnchor(config: Config, text: string): Option<string> {
    if text == LAST_TRANSITION then Some(STATE_TRANSITION)
    else if LAST_EVENT_OF_TYPE <= text then
      var eventType := text[|LAST_EVENT_OF_TYPE|..];
      if eventType != "" && (eventType in config.events || IsEngineEvent(eventType)) then Some(eventType) else None
    else None
  }

  // ---------------------------------------------------------------------------
  // Leaves
  // ---------------------------------------------------------------------------

  function MatchingCount(ctx: Context, event: string, filter: FilterSpec): nat {
    |Matching(EventsOfType(ctx.ledger, event), ResolveFilterSpec(filter, ctx.vars))|
  }

  predicate EvalHasEvent(ctx: Context, event: string, minCount: Option<i64>, maxCount: Option<i64>, filter: FilterSpec) {
    var matching := MatchingCount(ctx, event, filter);
    && matching >= AsU32(OrElse(minCount, 1))
    && (maxCount.Some? ==> matching < AsU32(maxCount.value))
  }

  function WindowOf(ctx: Context, event: string, baseline: string, filter: FilterSpec, sinceFilter: FilterSpec): Window {
    Window(event, ResolveFilterSpec(filter, ctx.vars), baseline, sinceFilter, ctx.vars)
  }

  predicate EvalHasEventSince(ctx: Context, event: string, since: Since, minCount: Option<i64>, filter: FilterSpec,
      sinceFilter: FilterSpec) {
    match ResolveGateSince(ctx.config, since)
    case None => false
    case Some(baseline) =>
      var min := OrElse(minCount, 1);
      WindowOf(ctx, event, baseline, filter, sinceFilter).Count(ctx.ledger) >= if min < 1 then 1 else min
  }

  predicate EvalMinElapsed(ctx: Context, event: string, seconds: Option<i64>) {
    var entries := EventsOfType(ctx.ledger, event);
    var required: int := OrElse(seconds, 0);
    entries != [] && entries[|entries| - 1].ts in ctx.millis ==>
      ctx.now - ctx.millis[entries[|entries| - 1].ts] >= required * 1000
  }

  /** The members of the set that some entry covers. */
  function CoveredMembers(entries: seq<LedgerEntry>, setName: string, field: string): set<string> {
    if entries == [] then {}
    else
      var n := |entries| - 1;
      CoveredMembers(entries[..n], setName, field) + CoveredBy(entries[n], setName, field)
  }

  function CoveredBy(e: LedgerEntry, setName: string, field: string): set<string> {
    if Get(e.fields, "set") == Some(setName) && Get(e.fields, field).Some? then {Get(e.fields, field).value} else {}
  }

  predicate EvalSetCovered(ctx: Context, setName: Option<string>, event: Option<string>, field: Option<string>) {
    && setName.Some? && setName.value in ctx.config.sets
    && var covered := CoveredMembers(EventsOfType(ctx.ledger, OrElse(event, SET_MEMBER_COMPLETE)), setName.value, OrElse(field, "member"));
    forall i :: 0 <= i < |ctx.config.sets[setName.value]| ==> ctx.config.sets[setName.value][i] in covered
  }

  /** The loop that fills the covered set, and the members it leaves missing. */
  method MissingMembers(ctx: Context, setName: string, event: Option<string>, field: Option<string>)
    returns (missing: seq<string>)
    requires setName in ctx.config.sets
    ensures missing == [] <==> EvalSetCovered(ctx, Some(setName), event, field)
    ensures missing == Uncovered(ctx.config.sets[setName], setName, OrElse(field, "member"),
      EventsOfType(ctx.ledger, OrElse(event, SET_MEMBER_COMPLETE)))
  {
    var entries := EventsOfType(ctx.ledger, OrElse(event, SET_MEMBER_COMPLETE));
    var fieldName := OrElse(field, "member");
    var covered: set<string> := {};
    for i := 0 to |entries|
      invariant covered == CoveredMembers(entries[..i], setName, fieldName)
    {
      assert entries[..i + 1][..i] == entries[..i];
      covered := covered + CoveredBy(entries[i], setName, fieldName);
    }
    assert entries[..|entries|] == entries;
    missing := [];
    var values := ctx.config.sets[setName];
    CoveredMeansEntry(entries, setName, fieldName);
    for i := 0 to |values|
      invariant missing == Uncovered(values[..i], setName, fieldName, entries)
    {
      assert values[..i + 1][..i] == values[..i];
      if values[i] !in covered {
        missing := missing + [values[i]];
      }
    }
    assert values[..|values|] == values;
    UncoveredNone(values, setName, fieldName, entries);
  }

  lemma {:induction false} UncoveredNone(values: seq<string>, setName: string, field: string, entries: seq<LedgerEntry>)
    ensures Uncovered(values, setName, field, entries) == [] <==>
      forall i :: 0 <= i < |values| ==> IsCovered(entries, setName, field, values[i])
  {
    if values != [] {
      var n := |values| - 1;
      UncoveredNone(values[..n], setName, field, entries);
      assert forall i :: 0 <= i < n ==> values[..n][i] == values[i];
    }
  }

  /** Some entry completes the member of the set. */
  predicate IsCovered(entries: seq<LedgerEntry>, setName: string, field: string, member: string) {
    exists i :: 0 <= i < |entries| && Get(entries[i].fields, "set") == Some(setName) && Get(entries[i].fields, field) == Some(member)
  }

  /** The members no entry completes, in declaration order. */
  function Uncovered(values: seq<string>, setName: string, field: string, entries: seq<LedgerEntry>): seq<string> {
    if values == [] then []
    else
      var n := |values| - 1;
      Uncovered(values[..n], setName, field, entries) + if IsCovered(entries, setName, field, values[n]) then [] else [values[n]]
  }

  /** `at` are the positions of the members no entry completes, in ascending order. */
  ghost predicate UncoveredAt(values: seq<string>, setName: string, field: string, entries: seq<LedgerEntry>, at: seq<nat>) {
    && (forall i: nat :: i in at <==> i < |values| && !IsCovered(entries, setName, field, values[i]))
    && forall j, k :: 0 <= j < k < |at| ==> at[j] < at[k]
  }

  lemma {:induction false} UncoveredKeepOrder(values: seq<string>, setName: string, field: string, entries: seq<LedgerEntry>)
    returns (at: seq<nat>)
    ensures UncoveredAt(values, setName, field, entries, at) && |Uncovered(values, setName, field, entries)| == |at|
    ensures forall k :: 0 <= k < |at| ==> at[k] < |values| && Uncovered(values, setName, field, entries)[k] == values[at[k]]
  {
    at := [];
    if values != [] {
      var n := |values| - 1;
      at := UncoveredKeepOrder(values[..n], setName, field, entries);
      assert forall k :: 0 <= k < |at| ==> at[k] in at;
      if !IsCovered(entries, setName, field, values[n]) {
        at := at + [n];
      }
    }
  }

  lemma {:induction false} CoveredMeansEntry(entries: seq<LedgerEntry>, setName: string, field: string)
    ensures forall member :: member in CoveredMembers(entries, setName, field) <==> IsCovered(entries, setName, field, member)
  {
    if entries != [] {
      var n := |entries| - 1;
      CoveredMeansEntry(entries[..n], setName, field);
      assert forall i :: 0 <= i < n ==> entries[..n][i] == entries[i];
    }
  }

  predicate EvalNoViolations(ctx: Context) {
    |EventsOfType(ctx.ledger, PROTOCOL_VIOLATION)| <= |EventsOfType(ctx.ledger, VIOLATION_RESOLVED)|
  }

  predicate EvalFieldNotEmpty(ctx: Context, field: string) {
    ctx.eventFields.Some? && Get(ctx.eventFields.value, field) !in [None, Some("")]
  }

  predicate EvalLeaf(leaf: Leaf, ctx: Context) {
    match leaf
    case HasEvent(event, min, max, filter) => EvalHasEvent(ctx, OrElse(event, ""), min, max, filter)
    case HasEventSince(event, since, min, filter, sinceFilter) =>
      EvalHasEventSince(ctx, OrElse(event, ""), since, min, filter, sinceFilter)
    case LacksEvent(event, filter) => MatchingCount(ctx, OrElse(event, ""), filter) == 0
    case MinElapsed(event, seconds) => EvalMinElapsed(ctx, OrElse(event, ""), seconds)
    case SetCovered(setName, event, field) => EvalSetCovered(ctx, setName, event, field)
    case NoViolations => EvalNoViolations(ctx)
    case FieldNotEmpty(field) => EvalFieldNotEmpty(ctx, OrElse(field, ""))
    case Foreign(id, _) => id in ctx.passing
    case UnknownType(_) => false
  }

  // ---------------------------------------------------------------------------
  // Composites
  // ---------------------------------------------------------------------------

  predicate Eval(g: Gate, ctx: Context) {
    match g
    case LeafGate(leaf) => EvalLeaf(leaf, ctx)
    case AnyOf(gates) => Passed(gates, ctx) > 0
    case AllOf(gates) => Passed(gates, ctx) == |gates|
    case Not(gates) => |gates| == 1 && !Eval(gates[0], ctx)
    case KOfN(k, gates) => Passed(gates, ctx) >= AsUsize(OrElse(k, 0))
  }

  /** How many of `gates` pass. */
  function Passed(gates: seq<Gate>, ctx: Context): (n: nat)
    ensures n <= |gates|
  {
    if gates == [] then 0 else (if Eval(gates[0], ctx) then 1 else 0) + Passed(gates[1..], ctx)
  }

  predicate AllPass(gates: seq<Gate>, ctx: Context) {
    forall i :: 0 <= i < |gates| ==> Eval(gates[i], ctx)
  }

  /** The counts say what the composites are named for. */
  lemma {:induction false} PassedCounts(gates: seq<Gate>, ctx: Context)
    ensures Passed(gates, ctx) == |gates| <==> AllPass(gates, ctx)
    ensures Passed(gates, ctx) == 0 <==> forall i :: 0 <= i < |gates| ==> !Eval(gates[i], ctx)
  {
    if gates != [] {
      PassedCounts(gates[1..], ctx);
      assert forall i :: 0 < i < |gates| ==> gates[i] == gates[1..][i - 1];
    }
  }
}
