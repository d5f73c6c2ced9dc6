/** The polarity of a reference against evaluation: when a required,
    non-disjunctive reference really blocks its gate (src/lint/index.rs,
    src/gates/types.rs, src/gates/ledger.rs). */
module Polarity {
  import opened Wrappers
  import opened ProtocolConfig
  import opened LedgerEntries
  import opened GateFilters
  import opened Gates
  import opened GateRefs

  predicate NoEntry(ledger: seq<LedgerEntry>, event: string) {
    forall i :: 0 <= i < |ledger| ==> ledger[i].eventType != event
  }

  /** A reference lint treats as one the gate cannot pass without. */
  ghost predicate Demands(g: Gate, positive: bool, event: string) {
    EventRef(event, true, false) in Refs(g, positive, false)
  }

  // ---------------------------------------------------------------------------
  // Leaves
  // ---------------------------------------------------------------------------

  /** The leaf cannot pass on no events: its minimum survives the cast to u32,
      or its ceiling is cast to zero; its set has members, or does not exist. */
  predicate LeafOk(leaf: Leaf, config: Config) {
    match leaf
    case HasEvent(_, min, max, _) =>
      OrElse(min, 1) >= 1 ==> AsU32(OrElse(min, 1)) > 0 || (max.Some? && AsU32(max.value) == 0)
    case SetCovered(setName, _, _) =>
      setName.Some? && setName.value in config.sets ==> config.sets[setName.value] != []
    case _ => true
  }

  lemma {:induction false} NothingSelected(ledger: seq<LedgerEntry>, event: string)
    requires NoEntry(ledger, event)
    ensures EventsOfType(ledger, event) == []
  {
    if ledger != [] {
      NothingSelected(ledger[..|ledger| - 1], event);
    }
  }

  lemma {:induction false} MentionsAreUnrequired(events: seq<string>, positive: bool, disjunctive: bool, r: EventRef)
    requires r in Mentioned(events, positive, disjunctive)
    ensures !r.required && r.disjunctive == disjunctive
  {
    if events != [] {
      var n := |events| - 1;
      if r in Mentioned(events[..n], positive, disjunctive) {
        MentionsAreUnrequired(events[..n], positive, disjunctive, r);
      }
    }
  }

  /** The event a leaf demands where it stands positively, if it demands one. */
  function Demand(leaf: Leaf): string {
    match leaf
    case HasEvent(event, min, _, _) => if OrElse(min, 1) >= 1 then OrElse(event, "") else ""
    case HasEventSince(event, _, _, _, _) => OrElse(event, "")
    case SetCovered(_, event, _) => OrElse(event, SET_MEMBER_COMPLETE)
    case _ => ""
  }

  lemma LeafDemands(leaf: Leaf, positive: bool, disjunctive: bool, r: EventRef)
    requires r in LeafRefs(leaf, positive, disjunctive)
    ensures r.disjunctive == disjunctive
    ensures r.required ==> positive && r.event == Demand(leaf) != ""
  {
    if leaf.Foreign? {
      MentionsAreUnrequired(leaf.mentions, positive, disjunctive, r);
    }
  }

  lemma LeafIsBlocked(leaf: Leaf, ctx: Context, event: string)
    requires event == Demand(leaf) != "" && NoEntry(ctx.ledger, event)
    requires LeafOk(leaf, ctx.config)
    ensures !EvalLeaf(leaf, ctx)
  {
    NothingSelected(ctx.ledger, event);
    match leaf
    case HasEvent(_, _, _, filter) => assert MatchingCount(ctx, event, filter) == 0;
    case HasEventSince(_, since, min, filter, sinceFilter) => SinceIsBlocked(ctx, event, since, min, filter, sinceFilter);
    case SetCovered(setName, _, _) =>
      if setName.Some? && setName.value in ctx.config.sets {
        assert ctx.config.sets[setName.value][0] !in CoveredMembers([], setName.value, OrElse(leaf.field, "member"));
      }
  }

  lemma SinceIsBlocked(ctx: Context, event: string, since: Since, min: Option<i64>, filter: FilterSpec,
      sinceFilter: FilterSpec)
    requires EventsOfType(ctx.ledger, event) == []
    ensures !EvalHasEventSince(ctx, event, since, min, filter, sinceFilter)
  {
    var baseline := ResolveGateSince(ctx.config, since);
    if baseline.Some? {
      assert WindowOf(ctx, event, baseline.value, filter, sinceFilter).Count(ctx.ledger) == 0;
    }
  }

  /** The context of a run that has recorded nothing. */
  function EmptyRun(config: Config, passing: set<string>): Context {
    Context([], config, [], None, passing, 0, map[])
  }

  /** `LeafOk` is exact: a leaf that demands an event is blocked without it, on
      every ledger, if and only if the leaf meets it. */
  lemma LeafOkIsExact(leaf: Leaf, config: Config)
    requires Demand(leaf) != ""
    ensures LeafOk(leaf, config) <==>
      forall ctx: Context :: ctx.config == config && NoEntry(ctx.ledger, Demand(leaf)) ==> !EvalLeaf(leaf, ctx)
  {
    if LeafOk(leaf, config) {
      forall ctx: Context | ctx.config == config && NoEntry(ctx.ledger, Demand(leaf)) ensures !EvalLeaf(leaf, ctx) {
        LeafIsBlocked(leaf, ctx, Demand(leaf));
      }
    } else {
      var ctx := EmptyRun(config, {});
      NothingSelected(ctx.ledger, Demand(leaf));
      assert EvalLeaf(leaf, ctx);
    }
  }

  // ---------------------------------------------------------------------------
  // The shape condition
  // ---------------------------------------------------------------------------

  ghost predicate LeavesOk(g: Gate, config: Config) {
    match g
    case LeafGate(leaf) => LeafOk(leaf, config)
    case AnyOf(gates) => forall i :: 0 <= i < |gates| ==> LeavesOk(gates[i], config)
    case AllOf(gates) => forall i :: 0 <= i < |gates| ==> LeavesOk(gates[i], config)
    case Not(gates) => forall i :: 0 <= i < |gates| ==> LeavesOk(gates[i], config)
    case KOfN(_, gates) => forall i :: 0 <= i < |gates| ==> LeavesOk(gates[i], config)
  }

  /** `not` flips what its children stand for. */
  function ChildPolarity(g: Gate, positive: bool): bool {
    if g.Not? then !positive else positive
  }

  /** Some leaf of this shape could yield a required, non-disjunctive reference. */
  ghost predicate Live(g: Gate, positive: bool) {
    match g
    case LeafGate(_) => positive
    case AllOf(gates) => exists i :: 0 <= i < |gates| && Live(gates[i], positive)
    case Not(gates) => exists i :: 0 <= i < |gates| && Live(gates[i], !positive)
    case _ => false
  }

  /** No live `all_of` of several children stands negatively, and a live `not`
      that stands negatively has exactly one child. */
  ghost predicate Clean(g: Gate, positive: bool) {
    Live(g, positive) ==>
      match g
      case AllOf(gates) =>
        && (!positive ==> |gates| == 1)
        && forall i :: 0 <= i < |gates| ==> Clean(gates[i], positive)
      case Not(gates) =>
        && (!positive ==> |gates| == 1)
        && (|gates| == 1 ==> Clean(gates[0], !positive))
      case _ => true
  }

  /** The simplest clean shapes: no `all_of` under an odd number of `not`s, and
      one child per `not`. */
  ghost predicate PlainShape(g: Gate, positive: bool) {
    match g
    case LeafGate(_) => true
    case AllOf(gates) => positive && forall i :: 0 <= i < |gates| ==> PlainShape(gates[i], positive)
    case Not(gates) => |gates| == 1 && PlainShape(gates[0], !positive)
    case AnyOf(gates) => forall i :: 0 <= i < |gates| ==> PlainShape(gates[i], positive)
    case KOfN(_, gates) => forall i :: 0 <= i < |gates| ==> PlainShape(gates[i], positive)
  }

  lemma {:induction false} PlainIsClean(g: Gate, positive: bool)
    requires PlainShape(g, positive)
    ensures Clean(g, positive)
    decreases g
  {
    match g
    case AllOf(gates) =>
      forall i | 0 <= i < |gates| ensures Clean(gates[i], positive) {
        PlainIsClean(gates[i], positive);
      }
    case Not(gates) => PlainIsClean(gates[0], !positive);
    case _ =>
  }

  lemma {:induction false} DisjunctionSpreads(g: Gate, positive: bool, r: EventRef)
    requires r in Refs(g, positive, true)
    ensures r.disjunctive
    decreases g
  {
    match g
    case LeafGate(leaf) => LeafDemands(leaf, positive, true, r);
    case AnyOf(gates) => SomeChild(gates, positive, r);
    case KOfN(_, gates) => SomeChild(gates, positive, r);
    case AllOf(gates) => SomeChild(gates, positive, r);
    case Not(gates) => SomeChild(gates, !positive, r);
  }

  lemma {:induction false} SomeChild(gates: seq<Gate>, positive: bool, r: EventRef)
    requires r in AllRefs(gates, positive, true)
    ensures r.disjunctive
    decreases gates
  {
    AllRefsAreExact(gates, positive, true, r);
    var i :| 0 <= i < |gates| && r in Refs(gates[i], positive, true);
    DisjunctionSpreads(gates[i], positive, r);
  }

  /** The child a demand comes from: only `all_of` and `not` pass demands up. */
  lemma DemandComesFrom(g: Gate, positive: bool, event: string) returns (i: nat)
    requires Demands(g, positive, event) && !g.LeafGate?
    ensures g.AllOf? || g.Not?
    ensures i < |g.gates| && Demands(g.gates[i], ChildPolarity(g, positive), event)
  {
    var r := EventRef(event, true, false);
    if g.AnyOf? || g.KOfN? {
      SomeChild(g.gates, positive, r);
    }
    var p := ChildPolarity(g, positive);
    AllRefsAreExact(g.gates, p, false, r);
    i :| 0 <= i < |g.gates| && r in Refs(g.gates[i], p, false);
  }

  lemma {:induction false} DemandIsLive(g: Gate, positive: bool, event: string)
    requires Demands(g, positive, event)
    ensures Live(g, positive)
    decreases g
  {
    if g.LeafGate? {
      LeafDemands(g.leaf, positive, false, EventRef(event, true, false));
    } else {
      var i := DemandComesFrom(g, positive, event);
      DemandIsLive(g.gates[i], ChildPolarity(g, positive), event);
    }
  }

  /** Polarity is sound on clean trees: without the event a demand names, a
      gate standing positively fails and one standing negatively passes. */
  lemma {:induction false} PolarityIsSound(g: Gate, positive: bool, event: string, ctx: Context)
    requires Demands(g, positive, event) && Clean(g, positive)
    requires LeavesOk(g, ctx.config) && NoEntry(ctx.ledger, event)
    ensures Eval(g, ctx) == !positive
    decreases g
  {
    DemandIsLive(g, positive, event);
    if g.LeafGate? {
      LeafDemands(g.leaf, positive, false, EventRef(event, true, false));
      LeafIsBlocked(g.leaf, ctx, event);
    } else {
      var i := DemandComesFrom(g, positive, event);
      if g.AllOf? {
        PolarityIsSound(g.gates[i], positive, event, ctx);
        PassedCounts(g.gates, ctx);
      } else if |g.gates| == 1 {
        PolarityIsSound(g.gates[0], !positive, event, ctx);
      }
    }
  }

  // ---------------------------------------------------------------------------
  // The shape condition is exact
  // ---------------------------------------------------------------------------

  /** What config validation asks of composites. */
  ghost predicate Validated(g: Gate) {
    match g
    case LeafGate(_) => true
    case AnyOf(gates) => gates != [] && forall i :: 0 <= i < |gates| ==> Validated(gates[i])
    case AllOf(gates) => gates != [] && forall i :: 0 <= i < |gates| ==> Validated(gates[i])
    case Not(gates) => |gates| == 1 && Validated(gates[0])
    case KOfN(k, gates) =>
      k.Some? && 1 <= k.value && AsUsize(k.value) <= |gates| && forall i :: 0 <= i < |gates| ==> Validated(gates[i])
  }

  /** The same tree with other leaves. */
  ghost predicate SameShape(g: Gate, h: Gate) {
    match g
    case LeafGate(_) => h.LeafGate?
    case AnyOf(gates) => h.AnyOf? && |gates| == |h.gates| && forall i :: 0 <= i < |gates| ==> SameShape(gates[i], h.gates[i])
    case AllOf(gates) => h.AllOf? && |gates| == |h.gates| && forall i :: 0 <= i < |gates| ==> SameShape(gates[i], h.gates[i])
    case Not(gates) => h.Not? && |gates| == |h.gates| && forall i :: 0 <= i < |gates| ==> SameShape(gates[i], h.gates[i])
    case KOfN(k, gates) =>
      h.KOfN? && k == h.k && |gates| == |h.gates| && forall i :: 0 <= i < |gates| ==> SameShape(gates[i], h.gates[i])
  }

  /** Every demand of the tree blocks it. */
  ghost predicate Sound(g: Gate, config: Config) {
    forall event, ctx: Context ::
      Demands(g, true, event) && ctx.config == config && NoEntry(ctx.ledger, event) ==> !Eval(g, ctx)
  }

  /** The same shape with `leaf` at every leaf. */
  function Fill(g: Gate, leaf: Leaf): Gate {
    match g
    case LeafGate(_) => LeafGate(leaf)
    case AnyOf(gates) => AnyOf(FillAll(gates, leaf))
    case AllOf(gates) => AllOf(FillAll(gates, leaf))
    case Not(gates) => Not(FillAll(gates, leaf))
    case KOfN(k, gates) => KOfN(k, FillAll(gates, leaf))
  }

  function FillAll(gates: seq<Gate>, leaf: Leaf): (filled: seq<Gate>)
    ensures |filled| == |gates|
    ensures forall i :: 0 <= i < |gates| ==> filled[i] == Fill(gates[i], leaf)
  {
    if gates == [] then [] else [Fill(gates[0], leaf)] + FillAll(gates[1..], leaf)
  }

  /** A leaf that passes, or fails, in a run where only "yes" passes. */
  function Constant(value: bool): Leaf {
    Foreign(if value then "yes" else "no", [])
  }

  /** A tree that evaluates to `value`: leaves chosen by the parity above them. */
  function Always(g: Gate, value: bool): Gate {
    match g
    case LeafGate(_) => LeafGate(Constant(value))
    case AnyOf(gates) => AnyOf(AllAlways(gates, value))
    case AllOf(gates) => AllOf(AllAlways(gates, value))
    case Not(gates) => Not(AllAlways(gates, !value))
    case KOfN(k, gates) => KOfN(k, AllAlways(gates, value))
  }

  function AllAlways(gates: seq<Gate>, value: bool): (chosen: seq<Gate>)
    ensures |chosen| == |gates|
    ensures forall i :: 0 <= i < |gates| ==> chosen[i] == Always(gates[i], value)
  {
    if gates == [] then [] else [Always(gates[0], value)] + AllAlways(gates[1..], value)
  }

  ghost predicate OnlyYes(ctx: Context) {
    ctx.passing == {"yes"}
  }

  lemma {:induction false} AlwaysKeepsShape(g: Gate, value: bool, config: Config)
    ensures SameShape(g, Always(g, value)) && LeavesOk(Always(g, value), config)
    decreases g
  {
    if !g.LeafGate? {
      var v := ChildPolarity(g, value);
      forall i | 0 <= i < |g.gates|
        ensures SameShape(g.gates[i], Always(g.gates[i], v)) && LeavesOk(Always(g.gates[i], v), config)
      {
        AlwaysKeepsShape(g.gates[i], v, config);
      }
    }
  }

  lemma {:induction false} AlwaysHolds(g: Gate, value: bool, ctx: Context)
    requires Validated(g) && OnlyYes(ctx)
    ensures Eval(Always(g, value), ctx) == value
    decreases g
  {
    if !g.LeafGate? {
      var v := ChildPolarity(g, value);
      var chosen := AllAlways(g.gates, v);
      forall i | 0 <= i < |chosen| ensures Eval(chosen[i], ctx) == v {
        AlwaysHolds(g.gates[i], v, ctx);
      }
      PassedCounts(chosen, ctx);
    }
  }

  /** A leaf that demands "x". */
  const DEMANDING := HasEvent(Some("x"), None, None, [])

  lemma {:induction false} FillIsSame(g: Gate, leaf: Leaf, config: Config)
    requires LeafOk(leaf, config)
    ensures SameShape(g, Fill(g, leaf)) && LeavesOk(Fill(g, leaf), config)
    decreases g
  {
    if !g.LeafGate? {
      forall i | 0 <= i < |g.gates| ensures SameShape(g.gates[i], Fill(g.gates[i], leaf)) && LeavesOk(Fill(g.gates[i], leaf), config) {
        FillIsSame(g.gates[i], leaf, config);
      }
    }
  }

  lemma DemandGoesUp(g: Gate, positive: bool, i: nat, event: string)
    requires g.AllOf? || g.Not?
    requires i < |g.gates| && Demands(g.gates[i], ChildPolarity(g, positive), event)
    ensures Demands(g, positive, event)
  {
    AllRefsAreExact(g.gates, ChildPolarity(g, positive), false, EventRef(event, true, false));
  }

  lemma {:induction false} LiveDemands(g: Gate, positive: bool)
    requires Live(g, positive)
    ensures Demands(Fill(g, DEMANDING), positive, "x")
    decreases g
  {
    if !g.LeafGate? {
      var p := ChildPolarity(g, positive);
      var i :| 0 <= i < |g.gates| && Live(g.gates[i], p);
      LiveDemands(g.gates[i], p);
      DemandGoesUp(Fill(g, DEMANDING), positive, i, "x");
    }
  }

  const YES: set<string> := {"yes"}

  /** One child as given, the others constant. */
  function Among(gates: seq<Gate>, i: nat, special: Gate, value: bool): seq<Gate>
    requires i < |gates|
  {
    AllAlways(gates, value)[i := special]
  }

  lemma AmongKeepsShape(g: Gate, i: nat, special: Gate, value: bool, ctx: Context)
    requires g.AllOf? && i < |g.gates| && Validated(g) && OnlyYes(ctx)
    requires SameShape(g.gates[i], special) && LeavesOk(special, ctx.config)
    ensures var h := AllOf(Among(g.gates, i, special, value));
      SameShape(g, h) && LeavesOk(h, ctx.config)
    ensures forall k :: 0 <= k < |g.gates| && k != i ==> Eval(Among(g.gates, i, special, value)[k], ctx) == value
  {
    forall k | 0 <= k < |g.gates|
      ensures SameShape(g.gates[k], Always(g.gates[k], value)) && LeavesOk(Always(g.gates[k], value), ctx.config)
      ensures Eval(Always(g.gates[k], value), ctx) == value
    {
      AlwaysKeepsShape(g.gates[k], value, ctx.config);
      AlwaysHolds(g.gates[k], value, ctx);
    }
  }

  /** An unclean shape has leaves that break it: a demand for "x" stands, yet the
      gate does not block on an empty ledger. */
  lemma {:induction false} Break(g: Gate, positive: bool, ctx: Context) returns (h: Gate)
    requires Validated(g) && !Clean(g, positive) && OnlyYes(ctx) && ctx.ledger == []
    ensures SameShape(g, h) && LeavesOk(h, ctx.config)
    ensures Demands(h, positive, "x") && Eval(h, ctx) == positive
    decreases g
  {
    if g.Not? {
      var child := Break(g.gates[0], !positive, ctx);
      h := Not([child]);
      DemandGoesUp(h, positive, 0, "x");
    } else if positive || |g.gates| == 1 {
      var i :| 0 <= i < |g.gates| && !Clean(g.gates[i], positive);
      var child := Break(g.gates[i], positive, ctx);
      h := BreakAllOf(g, positive, i, child, ctx);
    } else {
      h := BreakPair(g, ctx);
    }
  }

  lemma BreakAllOf(g: Gate, positive: bool, i: nat, child: Gate, ctx: Context) returns (h: Gate)
    requires g.AllOf? && i < |g.gates| && Validated(g) && OnlyYes(ctx)
    requires SameShape(g.gates[i], child) && LeavesOk(child, ctx.config)
    requires Demands(child, positive, "x") && Eval(child, ctx) == positive
    ensures SameShape(g, h) && LeavesOk(h, ctx.config)
    ensures Demands(h, positive, "x") && Eval(h, ctx) == positive
  {
    h := AllOf(Among(g.gates, i, child, true));
    AmongKeepsShape(g, i, child, true, ctx);
    DemandGoesUp(h, positive, i, "x");
    PassedCounts(h.gates, ctx);
    assert h.gates[i] == child;
  }

  /** Two children under a negative `all_of`: one demands, the other fails. */
  lemma BreakPair(g: Gate, ctx: Context) returns (h: Gate)
    requires g.AllOf? && |g.gates| > 1 && Live(g, false) && Validated(g) && OnlyYes(ctx)
    ensures SameShape(g, h) && LeavesOk(h, ctx.config)
    ensures Demands(h, false, "x") && !Eval(h, ctx)
  {
    var i :| 0 <= i < |g.gates| && Live(g.gates[i], false);
    var child := Fill(g.gates[i], DEMANDING);
    FillIsSame(g.gates[i], DEMANDING, ctx.config);
    LiveDemands(g.gates[i], false);
    h := AllOf(Among(g.gates, i, child, false));
    AmongKeepsShape(g, i, child, false, ctx);
    DemandGoesUp(h, false, i, "x");
    PassedCounts(h.gates, ctx);
    var k := if i == 0 then 1 else 0;
    assert !Eval(h.gates[k], ctx);
  }

  /** Among validated trees the clean shapes are exactly the sound ones: a shape
      is clean if and only if every tree of that shape with usable leaves is
      blocked by each of its demands. */
  lemma CleanShapesAreTheSoundOnes(g: Gate, config: Config)
    requires Validated(g)
    ensures Clean(g, true) <==>
      forall h: Gate :: SameShape(g, h) && LeavesOk(h, config) ==> Sound(h, config)
  {
    if Clean(g, true) {
      forall h: Gate | SameShape(g, h) && LeavesOk(h, config) ensures Sound(h, config) {
        CleanIsSound(g, h, config);
      }
    } else {
      var ctx := EmptyRun(config, YES);
      var h := Break(g, true, ctx);
      assert NoEntry(ctx.ledger, "x");
      assert !Sound(h, config);
    }
  }

  lemma CleanIsSound(g: Gate, h: Gate, config: Config)
    requires Clean(g, true) && SameShape(g, h) && LeavesOk(h, config)
    ensures Sound(h, config)
  {
    ShapeKeepsClean(g, h, true);
    forall event, ctx: Context | Demands(h, true, event) && ctx.config == config && NoEntry(ctx.ledger, event)
      ensures !Eval(h, ctx)
    {
      PolarityIsSound(h, true, event, ctx);
    }
  }

  lemma {:induction false} ShapeKeepsLive(g: Gate, h: Gate, positive: bool)
    requires SameShape(g, h)
    ensures Live(g, positive) <==> Live(h, positive)
    decreases g
  {
    if g.AllOf? || g.Not? {
      forall i | 0 <= i < |g.gates|
        ensures Live(g.gates[i], ChildPolarity(g, positive)) <==> Live(h.gates[i], ChildPolarity(g, positive))
      {
        ShapeKeepsLive(g.gates[i], h.gates[i], ChildPolarity(g, positive));
      }
    }
  }

  lemma {:induction false} ShapeKeepsClean(g: Gate, h: Gate, positive: bool)
    requires SameShape(g, h)
    ensures Clean(g, positive) <==> Clean(h, positive)
    decreases g
  {
    ShapeKeepsLive(g, h, positive);
    if g.AllOf? || g.Not? {
      forall i | 0 <= i < |g.gates|
        ensures Clean(g.gates[i], ChildPolarity(g, positive)) <==> Clean(h.gates[i], ChildPolarity(g, positive))
      {
        ShapeKeepsClean(g.gates[i], h.gates[i], ChildPolarity(g, positive));
      }
    }
  }

  /** not(all_of(not x, not c)) means "x or c", yet x is read as required: with
      the check c passing, the gate passes on a ledger without any x. */
  lemma NotAllOfNotsIsUnsound(config: Config)
    ensures var g := Not([AllOf([Not([LeafGate(DEMANDING)]), Not([LeafGate(Constant(true))])])]);
      var ctx := EmptyRun(config, YES);
      Demands(g, true, "x") && NoEntry(ctx.ledger, "x") && Eval(g, ctx)
  {
    var x, c := Not([LeafGate(DEMANDING)]), Not([LeafGate(Constant(true))]);
    var ctx := EmptyRun(config, YES);
    DemandGoesUp(x, false, 0, "x");
    DemandGoesUp(AllOf([x, c]), false, 0, "x");
    DemandGoesUp(Not([AllOf([x, c])]), true, 0, "x");
    PassedCounts([x, c], ctx);
    assert !Eval([x, c][1], ctx);
  }
}
