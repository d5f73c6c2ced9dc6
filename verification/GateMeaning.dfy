/** What each gate asks of a ledger (src/gates/types.rs, src/gates/ledger.rs), said
    over the positions of its entries instead of over lists and counts. */
module GateMeaning {
  import opened Wrappers
  import opened ProtocolConfig
  import opened LedgerEntries
  import opened LedgerChain
  import opened Template
  import opened ShellWords
  import opened GateFilters
  import opened SinceWindow
  import opened Gates

  // ---------------------------------------------------------------------------
  // Entries that a gate looks at
  // ---------------------------------------------------------------------------

  /** A lookup finds exactly what is listed. */
  lemma {:induction false} GetIsListed(fs: Fields, key: string, value: string)
    ensures Get(fs, key) == Some(value) <==> (key, value) in fs
  {
    if fs != [] {
      GetIsListed(fs[1..], key, value);
      assert fs == [fs[0]] + fs[1..];
      if fs[0].0 == key && (key, value) in fs[1..] {
        var i :| 0 <= i < |fs[1..]| && fs[1..][i] == (key, value);
        LessIsTotal(fs[0].0, fs[i + 1].0);
      }
    }
  }

  /** An entry matches a filter exactly when it lists all of it. */
  lemma MatchingIsListing(e: LedgerEntry, filter: FilterSpec)
    ensures EntryMatchesFilter(e, filter) <==> forall p :: p in filter ==> p in e.fields
  {
    forall i | 0 <= i < |filter|
      ensures Get(e.fields, filter[i].0) == Some(filter[i].1) <==> filter[i] in e.fields
    {
      GetIsListed(e.fields, filter[i].0, filter[i].1);
    }
    if forall p :: p in filter ==> p in e.fields {
      assert forall i :: 0 <= i < |filter| ==> filter[i] in filter;
    }
  }

  /** Entry `i` is of the type and carries every pair of the filter, its values
      resolved under the gate's variables. */
  predicate SelectedBy(ctx: Context, event: string, filter: FilterSpec, i: nat) {
    && i < |ctx.ledger| && ctx.ledger[i].eventType == event
    && forall k :: 0 <= k < |filter| ==> (filter[k].0, Resolve(filter[k].1, ctx.vars, EscapeStrategy.Plain)) in ctx.ledger[i].fields
  }

  function SelectedPositions(ctx: Context, event: string, filter: FilterSpec): set<nat> {
    set i: nat | i < |ctx.ledger| && SelectedBy(ctx, event, filter, i)
  }

  lemma SelectedMatches(ctx: Context, event: string, filter: FilterSpec, i: nat)
    requires i < |ctx.ledger|
    ensures SelectedBy(ctx, event, filter, i) <==>
      ctx.ledger[i].eventType == event && EntryMatchesFilter(ctx.ledger[i], ResolveFilterSpec(filter, ctx.vars))
  {
    var resolved := ResolveFilterSpec(filter, ctx.vars);
    MatchingIsListing(ctx.ledger[i], resolved);
    forall k | 0 <= k < |filter|
      ensures resolved[k] in resolved && resolved[k] == (filter[k].0, Resolve(filter[k].1, ctx.vars, EscapeStrategy.Plain))
    {
    }
  }

  function Test(event: string, filter: FilterSpec): LedgerEntry -> bool {
    (e: LedgerEntry) => e.eventType == event && EntryMatchesFilter(e, filter)
  }

  lemma MatchingSnoc(entries: seq<LedgerEntry>, e: LedgerEntry, filter: FilterSpec)
    ensures Matching(entries + [e], filter) == Matching(entries, filter) + if EntryMatchesFilter(e, filter) then [e] else []
  {
    assert (entries + [e])[..|entries|] == entries;
  }

  lemma {:induction false} MatchingPositions(ledger: seq<LedgerEntry>, n: nat, event: string, filter: FilterSpec)
    requires n <= |ledger|
    ensures |Matching(EventsOfType(ledger[..n], event), filter)| == |PositionsOf(ledger, n, Test(event, filter))|
  {
    if n == 0 {
      assert PositionsOf(ledger, 0, Test(event, filter)) == {};
    } else {
      var before := ledger[..n - 1];
      MatchingPositions(ledger, n - 1, event, filter);
      PositionsSnoc(ledger, n - 1, Test(event, filter));
      assert ledger[..n][..n - 1] == before;
      if ledger[n - 1].eventType == event {
        MatchingSnoc(EventsOfType(before, event), ledger[n - 1], filter);
      } else {
        assert EventsOfType(before, event) + [] == EventsOfType(before, event);
      }
    }
  }

  /** Selecting by type and filtering count the selected positions. */
  lemma CountIsOfPositions(ctx: Context, event: string, filter: FilterSpec)
    ensures MatchingCount(ctx, event, filter) == |SelectedPositions(ctx, event, filter)|
  {
    var resolved := ResolveFilterSpec(filter, ctx.vars);
    MatchingPositions(ctx.ledger, |ctx.ledger|, event, resolved);
    assert ctx.ledger[..|ctx.ledger|] == ctx.ledger;
    forall i: nat | i < |ctx.ledger|
      ensures i in PositionsOf(ctx.ledger, |ctx.ledger|, Test(event, resolved)) <==> SelectedBy(ctx, event, filter, i)
    {
      SelectedMatches(ctx, event, filter, i);
    }
    assert PositionsOf(ctx.ledger, |ctx.ledger|, Test(event, resolved)) == SelectedPositions(ctx, event, filter);
  }

  /** A filter value is resolved as it is written: a bound placeholder to its value,
      brace-free text to itself. */
  lemma FilterValueResolves(filter: FilterSpec, vars: Bindings, i: nat, name: string)
    requires i < |filter| && SafeBindings(vars, EscapeStrategy.Plain)
    ensures |ResolveFilterSpec(filter, vars)| == |filter| && ResolveFilterSpec(filter, vars)[i].0 == filter[i].0
    ensures BraceFree(name) && filter[i].1 == "{{" + name + "}}" && Lookup(vars, name).Some? ==>
      ResolveFilterSpec(filter, vars)[i].1 == Lookup(vars, name).value
    ensures BraceFree(filter[i].1) ==> ResolveFilterSpec(filter, vars)[i].1 == filter[i].1
  {
    if BraceFree(name) && filter[i].1 == "{{" + name + "}}" && Lookup(vars, name).Some? {
      PlaceholderResolves(name, vars, EscapeStrategy.Plain);
    }
    if BraceFree(filter[i].1) {
      PlainTextResolves(filter[i].1, vars, EscapeStrategy.Plain);
    }
  }

  // ---------------------------------------------------------------------------
  // Leaves
  // ---------------------------------------------------------------------------

  /** A cast keeps the number modulo two to the thirty-second: a negative limit
      becomes a huge one. */
  lemma CastKeepsLowBits(n: i64)
    ensures 0 <= AsU32(n) < 0x1_0000_0000 && (exists q: int :: n == q * 0x1_0000_0000 + AsU32(n))
    ensures 0 <= n < 0x1_0000_0000 ==> AsU32(n) == n
    ensures -0x1_0000_0000 <= n < 0 ==> AsU32(n) == n + 0x1_0000_0000
  {
    assert n == (n / 0x1_0000_0000) * 0x1_0000_0000 + AsU32(n);
  }

  /** A text parameter, or what it is when it is not written. */
  function Written(parameter: Option<string>, fallback: string): string {
    if parameter.Some? then parameter.value else fallback
  }

  /** At least `min_count` entries, one by default, and fewer than `max_count`, both
      after their casts. */
  lemma HasEventDecides(name: Option<string>, min: Option<i64>, max: Option<i64>, filter: FilterSpec, ctx: Context, event: string)
    requires event == Written(name, "")
    ensures var n := |SelectedPositions(ctx, event, filter)|;
      var passes := EvalLeaf(HasEvent(name, min, max, filter), ctx);
      && (passes <==> (if min.Some? then n >= AsU32(min.value) else n >= 1) && (max.Some? ==> n < AsU32(max.value)))
      && ((min.Some? ==> 0 <= min.value < 0x1_0000_0000) && (max.Some? ==> 0 <= max.value < 0x1_0000_0000) ==>
          (passes <==> (if min.Some? then n >= min.value else n >= 1) && (max.Some? ==> n < max.value)))
  {
    CountIsOfPositions(ctx, event, filter);
    CastKeepsLowBits(1);
    if min.Some? {
      CastKeepsLowBits(min.value);
    }
    if max.Some? {
      CastKeepsLowBits(max.value);
    }
  }

  lemma LacksEventDecides(name: Option<string>, filter: FilterSpec, ctx: Context, event: string)
    requires event == Written(name, "")
    ensures EvalLeaf(LacksEvent(name, filter), ctx) <==> forall i: nat :: !SelectedBy(ctx, event, filter, i)
  {
    CountIsOfPositions(ctx, event, filter);
    if i: nat :| SelectedBy(ctx, event, filter, i) {
      assert i in SelectedPositions(ctx, event, filter);
    }
  }

  /** A baseline is the last transition, by default, or a declared or engine event
      that is named. */
  lemma BaselineIsExact(config: Config, since: Since, baseline: string)
    ensures ResolveGateSince(config, since) == Some(baseline) <==>
      || (baseline == "state_transition" && (since == AbsentSince || since == WrittenSince("last_transition")))
      || (since == WrittenSince("last_event_of_type:" + baseline) && baseline != ""
          && (baseline in config.events || IsEngineEvent(baseline)))
  {
    if since.WrittenSince? {
      var text := since.text;
      assert "last_event_of_type:" == LAST_EVENT_OF_TYPE;
      if LAST_EVENT_OF_TYPE <= text {
        assert text == LAST_EVENT_OF_TYPE + text[|LAST_EVENT_OF_TYPE|..];
      }
      assert (LAST_EVENT_OF_TYPE + baseline)[|LAST_EVENT_OF_TYPE|..] == baseline;
      assert (LAST_EVENT_OF_TYPE + baseline)[5] == LAST_EVENT_OF_TYPE[5] != LAST_TRANSITION[5];
    }
  }

  /** At least `min_count` entries in the window of a readable baseline, and one in
      any case. */
  lemma HasEventSinceDecides(name: Option<string>, since: Since, min: Option<i64>, filter: FilterSpec, sinceFilter: FilterSpec,
      ctx: Context, event: string)
    requires event == Written(name, "") && Chained(ctx.ledger)
    ensures EvalLeaf(HasEventSince(name, since, min, filter, sinceFilter), ctx) <==>
      var baseline := ResolveGateSince(ctx.config, since);
      baseline.Some? &&
      var n := |WindowPositions(WindowOf(ctx, event, baseline.value, filter, sinceFilter), ctx.ledger)|;
      n >= 1 && (min.Some? ==> n >= min.value)
  {
    var baseline := ResolveGateSince(ctx.config, since);
    if baseline.Some? {
      CountIsExact(WindowOf(ctx, event, baseline.value, filter, sinceFilter), ctx.ledger);
    }
  }

  /** What the window counts is what the gate's own filter selects. */
  lemma WindowCountsSelected(event: string, baseline: string, filter: FilterSpec, sinceFilter: FilterSpec, ctx: Context, i: nat)
    requires i in WindowPositions(WindowOf(ctx, event, baseline, filter, sinceFilter), ctx.ledger)
    ensures SelectedBy(ctx, event, filter, i)
  {
    SelectedMatches(ctx, event, filter, i);
  }

  /** Entry `i` is the last of its type. */
  predicate IsLastOf(ledger: seq<LedgerEntry>, event: string, i: nat) {
    i < |ledger| && ledger[i].eventType == event && forall j :: i < j < |ledger| ==> ledger[j].eventType != event
  }

  lemma {:induction false} LastSelected(ledger: seq<LedgerEntry>, event: string, i: nat)
    requires IsLastOf(ledger, event, i)
    ensures var es := EventsOfType(ledger, event); es != [] && es[|es| - 1] == ledger[i]
  {
    var n := |ledger| - 1;
    if i < n {
      LastSelected(ledger[..n], event, i);
      assert EventsOfType(ledger[..n], event) + [] == EventsOfType(ledger[..n], event);
    }
  }

  lemma {:induction false} SomeLast(ledger: seq<LedgerEntry>, event: string) returns (i: nat)
    ensures if EventsOfType(ledger, event) != [] then IsLastOf(ledger, event, i) else forall j: nat :: !IsLastOf(ledger, event, j)
  {
    i := 0;
    if ledger != [] {
      var n := |ledger| - 1;
      if ledger[n].eventType == event {
        i := n;
      } else {
        i := SomeLast(ledger[..n], event);
        assert EventsOfType(ledger[..n], event) + [] == EventsOfType(ledger[..n], event);
        forall j: nat ensures IsLastOf(ledger, event, j) <==> IsLastOf(ledger[..n], event, j) {
          LastIsLast(ledger, event, j);
        }
      }
    }
  }

  lemma LastIsLast(ledger: seq<LedgerEntry>, event: string, j: nat)
    requires ledger != [] && ledger[|ledger| - 1].eventType != event
    ensures IsLastOf(ledger, event, j) <==> IsLastOf(ledger[..|ledger| - 1], event, j)
  {
    var n := |ledger| - 1;
    assert forall k :: 0 <= k < n ==> ledger[..n][k] == ledger[k];
    if IsLastOf(ledger[..n], event, j) {
      forall k | j < k < |ledger| ensures ledger[k].eventType != event {
        assert k < n ==> ledger[..n][k] == ledger[k];
      }
    }
  }

  /** The last event of the type, if any and if its time can be read, is that long ago. */
  lemma MinElapsedDecides(name: Option<string>, seconds: Option<i64>, ctx: Context, event: string, required: i64)
    requires event == Written(name, "") && required == if seconds.Some? then seconds.value else 0
    ensures EvalLeaf(MinElapsed(name, seconds), ctx) <==>
      forall i: nat :: IsLastOf(ctx.ledger, event, i) && ctx.ledger[i].ts in ctx.millis ==>
        ctx.now - ctx.millis[ctx.ledger[i].ts] >= required * 1000
  {
    var last := SomeLast(ctx.ledger, event);
    if EventsOfType(ctx.ledger, event) != [] {
      LastSelected(ctx.ledger, event, last);
      assert forall i: nat :: IsLastOf(ctx.ledger, event, i) ==> i == last;
    }
  }

  /** The set is named and declared, and an entry of the event completes each of its members. */
  lemma SetCoveredDecides(group: Option<string>, name: Option<string>, key: Option<string>, ctx: Context, event: string, field: string)
    requires event == Written(name, "set_member_complete") && field == Written(key, "member")
    ensures EvalLeaf(SetCovered(group, name, key), ctx) <==>
      && group.Some? && group.value in ctx.config.sets
      && forall k :: 0 <= k < |ctx.config.sets[group.value]| ==>
           Completed(ctx.ledger, event, group.value, field, ctx.config.sets[group.value][k])
  {
    if group.Some? && group.value in ctx.config.sets {
      var entries, members := EventsOfType(ctx.ledger, event), ctx.config.sets[group.value];
      CoveredMeansEntry(entries, group.value, field);
      forall k | 0 <= k < |members|
        ensures members[k] in CoveredMembers(entries, group.value, field) <==>
          Completed(ctx.ledger, event, group.value, field, members[k])
      {
        CompletedIsCovered(ctx.ledger, event, group.value, field, members[k]);
      }
    }
  }

  predicate Completed(ledger: seq<LedgerEntry>, event: string, setName: string, field: string, member: string) {
    exists i :: 0 <= i < |ledger| && ledger[i].eventType == event && Completes(ledger[i], setName, field, member)
  }

  predicate Completes(e: LedgerEntry, setName: string, field: string, member: string) {
    ("set", setName) in e.fields && (field, member) in e.fields
  }

  lemma CompletedIsCovered(ledger: seq<LedgerEntry>, event: string, setName: string, field: string, member: string)
    ensures IsCovered(EventsOfType(ledger, event), setName, field, member) <==> Completed(ledger, event, setName, field, member)
  {
    var entries := EventsOfType(ledger, event);
    EventsOfTypeAreExact(ledger, event);
    forall e: LedgerEntry
      ensures Completes(e, setName, field, member) <==> Get(e.fields, "set") == Some(setName) && Get(e.fields, field) == Some(member)
    {
      GetIsListed(e.fields, "set", setName);
      GetIsListed(e.fields, field, member);
    }
    if i :| 0 <= i < |entries| && Completes(entries[i], setName, field, member) {
      assert entries[i] in ledger;
    }
    if i :| 0 <= i < |ledger| && ledger[i].eventType == event && Completes(ledger[i], setName, field, member) {
      assert ledger[i] in entries;
    }
  }

  /** No more violations than resolutions. */
  lemma NoViolationsDecides(ctx: Context)
    ensures EvalLeaf(NoViolations, ctx) <==>
      |SelectedPositions(ctx, "protocol_violation", [])| <= |SelectedPositions(ctx, "violation_resolved", [])|
  {
    UnfilteredCount(ctx, PROTOCOL_VIOLATION);
    UnfilteredCount(ctx, VIOLATION_RESOLVED);
  }

  lemma UnfilteredCount(ctx: Context, event: string)
    ensures |EventsOfType(ctx.ledger, event)| == |SelectedPositions(ctx, event, [])|
  {
    CountIsOfPositions(ctx, event, []);
    UnfilteredMatch(EventsOfType(ctx.ledger, event));
  }

  lemma {:induction false} UnfilteredMatch(entries: seq<LedgerEntry>)
    ensures Matching(entries, []) == entries
  {
    if entries != [] {
      UnfilteredMatch(entries[..|entries| - 1]);
    }
  }

  /** The event at hand carries the field with some text. */
  lemma FieldNotEmptyDecides(name: Option<string>, ctx: Context, field: string)
    requires field == Written(name, "")
    ensures EvalLeaf(FieldNotEmpty(name), ctx) <==>
      ctx.eventFields.Some? && exists value :: value != "" && (field, value) in ctx.eventFields.value
  {
    if ctx.eventFields.Some? {
      forall value ensures Get(ctx.eventFields.value, field) == Some(value) <==> (field, value) in ctx.eventFields.value {
        GetIsListed(ctx.eventFields.value, field, value);
      }
    }
  }

  /** Checks of files, commands and databases decide as they come out, and a type the
      engine does not know never passes. */
  lemma OthersDecide(id: string, mentions: seq<string>, kind: string, ctx: Context)
    ensures EvalLeaf(Foreign(id, mentions), ctx) <==> id in ctx.passing
    ensures !EvalLeaf(UnknownType(kind), ctx)
  {
  }

  // ---------------------------------------------------------------------------
  // Composites
  // ---------------------------------------------------------------------------

  /** The children that pass. */
  function Passing(gates: seq<Gate>, ctx: Context): set<nat> {
    set i: nat | i < |gates| && Eval(gates[i], ctx)
  }

  lemma {:induction false} PassedSnoc(gates: seq<Gate>, g: Gate, ctx: Context)
    ensures Passed(gates + [g], ctx) == Passed(gates, ctx) + if Eval(g, ctx) then 1 else 0
  {
    if gates == [] {
      assert Passed([g][1..], ctx) == 0 && gates + [g] == [g];
    } else {
      PassedSnoc(gates[1..], g, ctx);
      assert (gates + [g])[1..] == gates[1..] + [g];
    }
  }

  lemma {:induction false} PassedIsPassing(gates: seq<Gate>, ctx: Context)
    ensures Passed(gates, ctx) == |Passing(gates, ctx)|
    decreases |gates|
  {
    if gates == [] {
      assert Passing(gates, ctx) == {};
    } else {
      var n := |gates| - 1;
      PassedIsPassing(gates[..n], ctx);
      PassedSnoc(gates[..n], gates[n], ctx);
      assert gates == gates[..n] + [gates[n]];
      assert Passing(gates, ctx) == Passing(gates[..n], ctx) + if Eval(gates[n], ctx) then {n} else {};
    }
  }

  /** One child passes, all do, or the only child fails. */
  lemma CompositesDecide(gates: seq<Gate>, ctx: Context)
    ensures Eval(AnyOf(gates), ctx) <==> exists i :: 0 <= i < |gates| && Eval(gates[i], ctx)
    ensures Eval(AllOf(gates), ctx) <==> forall i :: 0 <= i < |gates| ==> Eval(gates[i], ctx)
    ensures Eval(Not(gates), ctx) <==> |gates| == 1 && !Eval(gates[0], ctx)
  {
    PassedCounts(gates, ctx);
  }

  /** At least `k` children pass; a negative `k` is a huge one. */
  lemma KOfNDecides(gates: seq<Gate>, k: Option<i64>, ctx: Context)
    ensures Eval(KOfN(k, gates), ctx) <==> |Passing(gates, ctx)| >= AsUsize(OrElse(k, 0))
    ensures k.Some? && 0 <= k.value ==> (Eval(KOfN(k, gates), ctx) <==> |Passing(gates, ctx)| >= k.value)
    ensures k.None? ==> Eval(KOfN(k, gates), ctx)
    ensures k.Some? && k.value < 0 && |gates| < 0x8000_0000_0000_0000 ==> !Eval(KOfN(k, gates), ctx)
  {
    PassedIsPassing(gates, ctx);
  }
}
