/** The parts of a protocol's configuration that gates, lint and the state
    machine read (src/config). Numbers are TOML integers; a parameter of the
    wrong type reads as an absent one, as it does in the source. */
module ProtocolConfig {
  import opened Wrappers

  const TWO_TO_THE_32: int := 0x1_0000_0000
  const TWO_TO_THE_63: int := 0x8000_0000_0000_0000
  const TWO_TO_THE_64: int := 0x1_0000_0000_0000_0000

  type i64 = x: int | -TWO_TO_THE_63 <= x < TWO_TO_THE_63

  /** Rust's `n as u32` and `n as usize` keep the low bits. */
  function AsU32(n: i64): nat {
    n % TWO_TO_THE_32
  }

  function AsUsize(n: i64): nat {
    n % TWO_TO_THE_64
  }

  // ---------------------------------------------------------------------------
  // Events
  // ---------------------------------------------------------------------------

  const GENESIS := "genesis"
  const STATE_TRANSITION := "state_transition"
  const GATE_ATTESTATION := "gate_attestation"
  const SET_MEMBER_COMPLETE := "set_member_complete"
  const CHECKPOINT := "_checkpoint"
  const CONFIG_RESEAL := "config_reseal"

  const ENGINE_EVENTS: seq<string> :=
    [GENESIS, STATE_TRANSITION, GATE_ATTESTATION, SET_MEMBER_COMPLETE, CHECKPOINT, CONFIG_RESEAL]

  predicate IsEngineEvent(event: string) {
    event in ENGINE_EVENTS
  }

  // ---------------------------------------------------------------------------
  // Gates
  // ---------------------------------------------------------------------------

  /** A filter table as written: key to template. */
  type FilterSpec = seq<(string, string)>

  /** The `since` parameter as written. */
  datatype Since = AbsentSince | NonStringSince | WrittenSince(text: string)

  datatype Leaf =
    | HasEvent(event: Option<string>, minCount: Option<i64>, maxCount: Option<i64>, filter: FilterSpec)
    | HasEventSince(event: Option<string>, since: Since, minCount: Option<i64>, filter: FilterSpec, sinceFilter: FilterSpec)
    | LacksEvent(event: Option<string>, filter: FilterSpec)
    | MinElapsed(event: Option<string>, seconds: Option<i64>)
    | SetCovered(setName: Option<string>, event: Option<string>, field: Option<string>)
    | NoViolations
    | FieldNotEmpty(field: Option<string>)
    // A command, file, snapshot or SQL check; `mentions` are the declared events its SQL quotes.
    | Foreign(id: string, mentions: seq<string>)
    | UnknownType(name: string)

  datatype Gate =
    | LeafGate(leaf: Leaf)
    | AnyOf(gates: seq<Gate>)
    | AllOf(gates: seq<Gate>)
    | Not(gates: seq<Gate>)
    | KOfN(k: Option<i64>, gates: seq<Gate>)

  // ---------------------------------------------------------------------------
  // The protocol
  // ---------------------------------------------------------------------------

  datatype StateConfig = StateConfig(initial: bool, terminal: bool)

  datatype ProducerDecl = ProducerDecl(id: string, availableInStates: Option<seq<string>>)

  /** `required` names the fields an event must carry when a caller records it. */
  datatype EventConfig = EventConfig(restricted: bool, producers: seq<ProducerDecl>, required: seq<string>)

  datatype Transition = Transition(
    from: string,
    to: string,
    command: string,
    gates: seq<Gate>,
    boundary: Option<string>,
    emits: seq<string>)

  datatype Hook = Hook(
    states: Option<seq<string>>,
    statesNot: Option<seq<string>>,
    autoRecord: Option<string>,
    gate: Option<Gate>)

  datatype Boundary = Boundary(name: string, from: string, to: string)

  datatype Config = Config(
    states: map<string, StateConfig>,
    transitions: seq<Transition>,
    events: map<string, EventConfig>,
    hooks: seq<Hook>,
    boundaries: seq<Boundary>,
    sets: map<string, seq<string>>,
    requireProducers: bool)
  {
    /** Transition endpoints are declared states, as `validate` demands. */
    predicate EndpointsDeclared() {
      forall t :: t in transitions ==> t.from in states && t.to in states
    }
  }
}
