/** What a gate tree refers to, read off its shape (src/lint/index.rs). When that
    reading is sound for evaluation is the subject of `Polarity`. */
module GateRefs {
  import opened Wrappers
  import opened ProtocolConfig
  import opened Gates

  /** `required`: the event must exist for the gate to pass. `disjunctive`: the
      reference is one branch of an `any_of` or `k_of_n`. */
  datatype EventRef = EventRef(event: string, required: bool, disjunctive: bool)

  // ---------------------------------------------------------------------------
  // The walk
  // ---------------------------------------------------------------------------

  /** An empty event name is not a reference. */
  function Ref(event: string, required: bool, positive: bool, disjunctive: bool): seq<EventRef> {
    if event == "" then [] else [EventRef(event, required && positive, disjunctive)]
  }

  function OptionalRef(event: Option<string>, required: bool, positive: bool, disjunctive: bool): seq<EventRef> {
    Ref(OrElse(event, ""), required, positive, disjunctive)
  }

  /** The event a `since` text names, readable or not; none for the default. */
  function SinceMention(since: Since): string {
    if !since.WrittenSince? || since.text == LAST_TRANSITION then ""
    else if LAST_EVENT_OF_TYPE <= since.text then since.text[|LAST_EVENT_OF_TYPE|..]
    else since.text
  }

  function Mentioned(events: seq<string>, positive: bool, disjunctive: bool): seq<EventRef> {
    if events == [] then []
    else
      var n := |events| - 1;
      Mentioned(events[..n], positive, disjunctive) + Ref(events[n], false, positive, disjunctive)
  }

  function LeafRefs(leaf: Leaf, positive: bool, disjunctive: bool): seq<EventRef> {
    match leaf
    case HasEvent(event, min, _, _) => OptionalRef(event, OrElse(min, 1) >= 1, positive, disjunctive)
    case HasEventSince(event, since, _, _, _) =>
      OptionalRef(event, true, positive, disjunctive) + Ref(SinceMention(since), false, positive, disjunctive)
    case LacksEvent(event, _) => OptionalRef(event, false, positive, disjunctive)
    case MinElapsed(event, _) => OptionalRef(event, false, positive, disjunctive)
    case SetCovered(_, event, _) => Ref(OrElse(event, SET_MEMBER_COMPLETE), true, positive, disjunctive)
    case NoViolations =>
      Ref(PROTOCOL_VIOLATION, false, positive, disjunctive) + Ref(VIOLATION_RESOLVED, false, positive, disjunctive)
    case Foreign(_, mentions) => Mentioned(mentions, positive, disjunctive)
    case FieldNotEmpty(_) => []
    case UnknownType(_) => []
  }

  function Refs(g: Gate, positive: bool, disjunctive: bool): seq<EventRef> {
    match g
    case LeafGate(leaf) => LeafRefs(leaf, positive, disjunctive)
    case AnyOf(gates) => AllRefs(gates, positive, true)
    case KOfN(_, gates) => AllRefs(gates, positive, true)
    case AllOf(gates) => AllRefs(gates, positive, disjunctive)
    case Not(gates) => AllRefs(gates, !positive, disjunctive)
  }

  function AllRefs(gates: seq<Gate>, positive: bool, disjunctive: bool): seq<EventRef> {
    if gates == [] then [] else Refs(gates[0], positive, disjunctive) + AllRefs(gates[1..], positive, disjunctive)
  }

  method GateEventRefs(g: Gate) returns (refs: seq<EventRef>)
    ensures refs == Refs(g, true, false)
  {
    refs := CollectRefs(g, true, false, []);
  }

  method CollectRefs(g: Gate, positive: bool, disjunctive: bool, before: seq<EventRef>) returns (out: seq<EventRef>)
    ensures out == before + Refs(g, positive, disjunctive)
    decreases g
  {
    match g
    case LeafGate(leaf) => out := before + LeafRefs(leaf, positive, disjunctive);
    case AnyOf(gates) => out := CollectAll(gates, positive, true, before);
    case KOfN(_, gates) => out := CollectAll(gates, positive, true, before);
    case AllOf(gates) => out := CollectAll(gates, positive, disjunctive, before);
    case Not(gates) => out := CollectAll(gates, !positive, disjunctive, before);
  }

  method CollectAll(gates: seq<Gate>, positive: bool, disjunctive: bool, before: seq<EventRef>)
    returns (out: seq<EventRef>)
    ensures out == before + AllRefs(gates, positive, disjunctive)
    decreases gates
  {
    out := before;
    for i := 0 to |gates|
      invariant before + AllRefs(gates, positive, disjunctive) == out + AllRefs(gates[i..], positive, disjunctive)
    {
      assert gates[i..][0] == gates[i] && gates[i..][1..] == gates[i + 1..];
      out := CollectRefs(gates[i], positive, disjunctive, out);
    }
    assert gates[|gates|..] == [];
  }

  lemma {:induction false} AllRefsAreExact(gates: seq<Gate>, positive: bool, disjunctive: bool, r: EventRef)
    ensures r in AllRefs(gates, positive, disjunctive) <==>
      exists i :: 0 <= i < |gates| && r in Refs(gates[i], positive, disjunctive)
  {
    if gates != [] {
      AllRefsAreExact(gates[1..], positive, disjunctive, r);
      if r in AllRefs(gates[1..], positive, disjunctive) {
        var i :| 0 <= i < |gates[1..]| && r in Refs(gates[1..][i], positive, disjunctive);
        assert gates[1..][i] == gates[i + 1];
      }
      if i :| 0 <= i < |gates| && r in Refs(gates[i], positive, disjunctive) {
        assert i > 0 ==> gates[i] == gates[1..][i - 1];
      }
    }
  }
}
