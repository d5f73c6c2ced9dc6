# Verified model of the enforcement engine

This project models the parts of the engine whose correctness does not show in any one function, and proves what they
guarantee together.

- **Static analysis against runs.** Lint reads a protocol at rest and calls some transitions unsatisfiable and some
  states dead ends. `GateRefs`, `Producers`, `Graphs` and `Lint` are that reading, and `DemandedEvents` says of trees,
  findings and marks what is found; `GateFilters`, `SinceWindow` and `Gates` are how gates are really evaluated, and
  `GateMeaning` what each decides of the ledger; `Polarity` relates the two; `ProtocolRuns` is the state machine, with
  any number of processes that prepare transitions from copies of the ledger that may be stale, and with callers,
  signers, daemon clients, hooks and the engine recording events in between; `EventCommands` are the commands that let
  them. `LintSoundness` proves what L1, L2 and L4 claim over those runs and exactly when it holds: a marked transition
  never fires and a reported dead end is never left. L3 is silent exactly when no path of the graph routes around;
  `BoundaryRuns` carries that to the runs.
- **Two readings of the state.** `RunState` holds the machine's and the hooks' derivation of the current state, `Hooks`
  the exact conditions under which they agree, on one ledger and over all runs.
- **The hash-chained ledger.** `JsonText` and `LedgerEntries` print, hash and parse entries and refuse edited ones;
  `JsonGrammar` says which texts are read as a value and `LedgerReading` which files as a ledger; `LedgerChain` is the
  file and the ledger object; `LedgerProtocol` interleaves any number of processes at the points where the file lock is
  taken and dropped. The file always verifies, only grows, and every in-memory copy is a prefix of it.
- **The manifest seals.** `Manifests` is the seal table and what `verify` checks; `ManifestProtocol` interleaves writers
  and readers around the readers/writer lock, including writers that stop between the append and the save.
- **The enforcement blob.** `MergePatch` is JSON Merge Patch (section 2 of RFC 7386) in place; `Enforcement` is reading,
  compare-and-set and per-actor merging over every interleaving of requests.
- **Algorithms with a specification of their own.** `Similarity` (two-row Levenshtein), `Template` and `TemplateOrder`
  (key-by-key replacement against simultaneous substitution), `ShellWords` (shell quoting against a shell that reads it
  back), `Glob` (the matcher against its documentation), and `Mermaid` (the depth-first diagram against breadth-first
  reachability).

Code that works step by step is modelled step by step: loops are methods with loops, objects whose fields change are
classes. Hash-map iteration order is either an explicit sequence or an arbitrary choice of the next key, so results hold
for every order. Sorted maps are sequences with strictly increasing keys.

## Findings

In six places the code does something else than its comments or documentation suggest. The model follows the code; for
each a lemma gives an input or a run, and another says exactly when the expectation holds.

- Reference polarity is unsound for an `all_of` of several children under a `not`: `not(all_of(not x, not c))` means "x
  or c", but x is recorded as required (`Polarity.NotAllOfNotsIsUnsound`). `Polarity.CleanShapesAreTheSoundOnes` gives
  the exact shapes, and `Polarity.LeafOkIsExact` the exact leaves: a `min_count` that wraps to zero in the cast to
  `u32`, or an empty set, passes with no events.
- Template resolution can depend on hash-map order (`Template.BracedValueShowsTheOrder`). A lone brace such as `x{y` is
  harmless. `TemplateOrder.OrderShowsIffOpens`: the order of a map, or of one with further harmless values, shows in
  some template if and only if, in the values as they are pasted, after quoting, a `{{` stands inside one or across two
  side by side, followed by brace-free text and then by the end of the value, or by `}}` or a final `}` when that text
  is none of the keys pasted there and not a key that is replaced with its own placeholder.
  `TemplateOrder.UnresolvedIffClosed` gives the exact condition for `find_unresolved_vars`.
- A `**` in a glob that is neither followed by a slash nor final does not match any depth, although the documentation
  says `**` does: its first star stands for itself and the second for a slash-free run (`Glob.InnerDoubleStar`).
  `Glob.DocumentedIffNoInnerStars`: the matcher does what is documented, on every text, if and only if the pattern holds
  no such `**`.
- Hooks and the state machine derive different states after a `state_transition` without a `to` field
  (`Hooks.BareMoveParts`), which `sahjhan event` records unless the event is restricted or its declaration requires
  `to`. `RunState.HookStateIsExact` says on which ledgers they agree, `Hooks.HooksAgreeIffMovesNeedTargets` that, with
  `state_transition` neither emitted nor auto-recorded, they agree in every run if and only if callers cannot do that,
  and `Hooks.CommitAgreesIff` and `Hooks.HookMoveDisagrees` what emitting and auto-recording it do.
- What L2 marks, or L1 under `require_producers`, need not be "unsatisfiable in every actual run". An event that is not
  restricted can be recorded by hand, and the marked transition then fires (`MarksByHand.UnrestrictedMarkFires`). For L2
  a restricted event does not help where `state_transition` is not restricted, which is the default: by hand to a state
  in which its producer runs, and by hand back (`MarksByHand.RestrictedMarkFires`).
  `LintSoundness.AbsenceIffUnforgeable`, where no hook auto-records `state_transition`: the event is absent whenever a
  run is in the transition's source if and only if the event is restricted and either `state_transition` is restricted
  too or no producer of the event can run in any state. For L1 the second half always holds.
  `LintSoundness.MarkIsSoundIffUnforgeable`: for a transition that asks for that event alone, this is also exactly when
  it never fires.
- `sahjhan event state_transition` also leaves a dead end and routes around a boundary (`LintSoundness.MovedByHand`,
  `BoundaryRuns.AroundByHand`). Where no hook auto-records it, all continuations of a run stay in a state whose exits
  are marked on restricted events (`LintSoundness.DeadEndIffMovesRestricted`), and cross a boundary on which L3 is
  silent (`BoundaryRuns.CrossedIffMovesRestricted`), if and only if `state_transition` is restricted.

## Assumptions

SHA-256 is a function parameter; a lemma that needs it injective says so (`LedgerEntries.Injective`,
`Enforcement.Codec.Faithful`, `ManifestProtocol.Collisionless`). Base64 and `serde_json` enter the enforcement model as
functions that round-trip. Timestamps, random nonces and shell, SQL and file checks are arbitrary inputs.

Anyone may record an event that is not restricted, declared or not, and hooks decide on a copy of the ledger that may be
stale when the record is appended. What the engine cannot check is one named hypothesis,
`LintSoundness.SignersKeepWindows`: whoever holds a proof or is trusted by the daemon is a declared producer of what it
records, keeps to that producer's window, and writes no `state_transition`. Without `require_producers`, L1 needs
nothing more (`LintSoundness.L1NeverFires`). A mark of L2 on a restricted event is sound where `state_transition` is
restricted and not auto-recorded (`LintSoundness.MovesAreGuarded`), or where no producer of the event ever runs
(`LintSoundness.RestrictedMarkNeverFires`); the exact results assume that no hook auto-records `state_transition`
(`LintSoundness.NoHookMoves`). For marks on other events, `LintSoundness.ClosedFor` is the producer closure that
`require_producers` asserts. That marks are sound asks for clean gate shapes and usable leaves
(`LintSoundness.WellShaped`).

## Model

| member | source | states |
|---|---|---|
| Similarity.Levenshtein | src/lint/similarity.rs:78-99 | The two swapped rows compute the recurrence whose meaning the next two rows give |
| Similarity.DistanceIsLowerBound | src/lint/similarity.rs:78-99 | No script of insertions, deletions and substitutions that turns one token sequence into the other costs less than the distance |
| Similarity.DistanceIsAttained | src/lint/similarity.rs:78-99 | Some such script costs exactly the distance |
| Similarity.DistanceIsSymmetric | src/lint/similarity.rs:78-99 | The distance is the same in both directions |
| Similarity.TriangleInequality | src/lint/similarity.rs:78-99 | Going through a third sequence is never shorter |
| Similarity.DistanceIsBoundedByLengths | src/lint/similarity.rs:78-99 | The distance lies between the difference of the lengths and the longer length |
| Similarity.DistanceSeparates | src/lint/similarity.rs:78-99 | The distance is zero exactly for equal sequences |
| Similarity.SimilarityOf | src/lint/similarity.rs:61-75 | The score times the longer length is that length less the distance, and 1 when both are empty; it lies in 0..1 and is 1 exactly for equal token sequences |
| Graphs.Graph.BuildFiltered | src/lint/graph.rs:54-78 | The edges are the kept transitions with their declaration indices, and both adjacency maps list exactly the edges leaving and entering each state |
| Graphs.KeptEdgesAreExact | src/lint/graph.rs:54-78 | An edge is in the filtered graph exactly when it is that of a kept transition |
| Graphs.PositionsAreExact | src/lint/graph.rs:67-75 | An adjacency list holds exactly the positions of the edges at a state, in ascending order |
| Graphs.Graph.ReachableFrom | src/lint/graph.rs:93-95 | The result is exactly the states some path of one or more edges leads to, the start only on a cycle |
| Graphs.Graph.AncestorsOf | src/lint/graph.rs:102-104 | The result is exactly the states some path of one or more edges leads from |
| Graphs.Graph.Closure | src/lint/graph.rs:107-142 | The queue-driven search returns the least set closed under steps from the start, in either direction |
| Graphs.Graph.PathBetween | src/lint/graph.rs:150-185 | There is a result exactly when the target is reachable, and it is a connected path of least length, a cycle when the ends coincide |
| Producers.ProducerIndex.Build | src/lint/index.rs:64-112 | For every event the index holds its declared, emitting, hook and engine producers, in that order |
| Producers.ProducersAreExact | src/lint/index.rs:64-112 | A producer is indexed for an event exactly when it comes from one of the four sources |
| Producers.EmitterCanRun | src/lint/index.rs:78-87 | A transition that emits an event is one of its producers in the transition's source state |
| GateRefs.CollectRefs | src/lint/index.rs:151-246 | The walk appends to what was collected the references of the tree, child by child, with polarity and disjunction passed down |
| GateRefs.GateEventRefs | src/lint/index.rs:145-149 | The walk starts positive and non-disjunctive |
| GateRefs.AllRefsAreExact | src/lint/index.rs:170-186 | A reference is collected from a list of gates exactly when it is collected from one of them |
| DemandedEvents.LeafRefsAreExact | src/lint/index.rs:187-246 | A leaf's references are the event it demands, required where it stands positively, and the events it only mentions, not required |
| DemandedEvents.RequiredAreAsked | src/lint/index.rs:145-246 | A tree requires an event without an alternative if and only if a leaf that demands it stands at positive polarity under `all_of` and `not` alone, and with one if and only if such a leaf stands under an `any_of` or `k_of_n` |
| GateFilters.CandidateRefs | src/gates/types.rs:456-468 | The nested loops collect the `event.` placeholders of a filter |
| GateFilters.CandidateRefsAreExact | src/gates/types.rs:456-468 | The correlated fields are exactly the non-empty `event.` placeholders of the values, each once |
| GateFilters.CandidateVars | src/gates/types.rs:473-482 | The loop binds each field of the candidate over the gate's variables |
| GateFilters.CandidateLookup | src/gates/types.rs:473-482 | A prefixed name looks up the candidate's field, and every other name the gate's own variable |
| GateFilters.EventsOfTypeKeepOrder | src/ledger/chain.rs:375-380 | Selecting by type keeps every entry of that type, each once and in order |
| GateMeaning.MatchingIsListing | src/gates/types.rs:486-494 | An entry matches a filter exactly when its fields list every pair of it |
| GateMeaning.FilterValueResolves | src/gates/types.rs:438-449 | A filter value that is a bound placeholder resolves to exactly the bound value, unquoted, and brace-free text to itself |
| GateMeaning.HasEventDecides | src/gates/ledger.rs:24-121 | `ledger_has_event` passes if and only if at least `min_count`, one by default, and fewer than `max_count`, both cast to `u32`, positions of the ledger hold an entry of the type that lists the resolved filter |
| GateMeaning.LacksEventDecides | src/gates/ledger.rs:277-311 | `ledger_lacks_event` passes if and only if no position holds such an entry |
| GateMeaning.BaselineIsExact | src/gates/ledger.rs:124-175 | A baseline is readable if and only if it is the last transition, said or by default, or a named event that is declared or the engine's |
| GateMeaning.HasEventSinceDecides | src/gates/ledger.rs:124-262 | `ledger_has_event_since` passes if and only if its baseline is readable and the window holds at least `min_count` positions, and one in any case |
| GateMeaning.MinElapsedDecides | src/gates/ledger.rs:402-469 | `min_elapsed` passes if and only if the last event of the type, if there is one with a readable time, is that long ago |
| GateMeaning.SetCoveredDecides | src/gates/ledger.rs:314-399 | `set_covered` passes if and only if the set is declared and each of its members is completed by an entry of the event |
| GateMeaning.NoViolationsDecides | src/gates/ledger.rs:472-494 | `no_violations` passes if and only if the ledger holds no more violations than resolutions |
| GateMeaning.FieldNotEmptyDecides | src/gates/ledger.rs:497-525 | `field_not_empty` passes if and only if the event at hand carries the field with some text |
| GateMeaning.OthersDecide | src/gates/types.rs:42-57 | A check of files, commands or databases decides as it comes out, and an unknown gate type never passes |
| GateMeaning.CompositesDecide | src/gates/types.rs:60-175 | `any_of` passes if and only if some child does, `all_of` if and only if all do, `not` if and only if its one child fails |
| GateMeaning.KOfNDecides | src/gates/types.rs:125-160 | `k_of_n` passes if and only if the number of children that pass is at least `k` after its cast: none needed without `k`, never with a negative one |
| SinceWindow.CountSince | src/gates/ledger.rs:176-222 | The global scan and the early-stopping per-candidate scan compute the window's count, and how many candidates could not be scoped |
| SinceWindow.UnscopeableIsExact | src/gates/ledger.rs:204-213 | The candidates that could not be scoped are those that lack a field the filter is correlated on |
| SinceWindow.CountIsExact | src/gates/ledger.rs:176-222 | On every verified ledger the count is the number of candidates in the window, whatever types are counted and compared against |
| SinceWindow.CountIsAfterOwnBaseline | src/gates/ledger.rs:159-222 | When the counted event is neither the baseline type nor the type of entry 0, the count is of the scopeable candidates after their own last matching baseline |
| SinceWindow.BaselineConsumes | src/gates/ledger.rs:192-221 | Appending a baseline removes exactly the counted candidates whose resolved anchor it matches |
| Gates.PassedCounts | src/gates/types.rs:60-175 | The pass count is the total exactly when all children pass, and zero exactly when none does; `GateMeaning.KOfNDecides` says what it is in between |
| Gates.MissingMembers | src/gates/ledger.rs:350-380 | The result lists, in declaration order, exactly the members no entry of the set completes; it is empty exactly when the gate passes |
| Gates.UncoveredKeepOrder | src/gates/ledger.rs:350-380 | The missing members stand at ascending positions of the set's declaration, all the uncovered ones and each once |
| Polarity.LeafOkIsExact | src/gates/ledger.rs:24-399 | A leaf that demands an event is blocked on every ledger without it if and only if its minimum survives the cast or its ceiling is zero, and its set has members |
| Polarity.PolarityIsSound | src/lint/index.rs:145-246 | On a clean tree with usable leaves, without the event a required non-disjunctive reference names, the gate fails where it stands positively and passes where it stands negatively |
| Polarity.PlainIsClean | src/lint/index.rs:170-186 | A tree with no `all_of` at negative polarity and one child per `not` is clean |
| Polarity.CleanShapesAreTheSoundOnes | src/lint/index.rs:145-246 | Among validated trees, a shape is clean if and only if every tree of that shape with usable leaves is blocked by each of its demands |
| Polarity.NotAllOfNotsIsUnsound | src/lint/index.rs:175-184 | A concrete tree whose required, non-disjunctive reference does not block it |
| Lint.Analysis.constructor | src/lint/mod.rs:153-161 | The analysis holds the whole graph, the producer index and no verdicts |
| Lint.Analysis.L1UnsatisfiableGates | src/lint/checks.rs:50-93 | The findings are one per faulty reference in order, hooks last; the blocked transitions are added, each with its first error, and earlier reasons are kept |
| Lint.Analysis.L2TemporallyUnsatisfiable | src/lint/checks.rs:216-308 | The same for events whose producers cannot run in any state that precedes the gate |
| Lint.BlockedMeansFaulted | src/lint/checks.rs:110-174 | A check blocks a transition exactly when one of its gates requires, without an alternative, an event that cannot be recorded, or not in time |
| Lint.ErrorIffBlocked | src/lint/checks.rs:50-308 | A check reports an error at a transition exactly when it blocks it |
| DemandedEvents.TransitionFindingsAreExact | src/lint/checks.rs:50-308 | A finding is reported at a transition if and only if its gates ask for an event that is undeclared, never produced or, for L2, produced too late; an error exactly when that is fatal and there is no alternative |
| DemandedEvents.HookFindingsAreExact | src/lint/checks.rs:70-93 | The same for L1's findings at hooks and the gate of the hook |
| DemandedEvents.ReportKeepsOrder | src/lint/checks.rs:50-308 | There is one finding for each faulty reference, in the order of the references |
| DemandedEvents.MarkedIffAsked | src/lint/checks.rs:50-308 | A check marks a transition if and only if a leaf of its gates, under `all_of` and `not` alone, demands an event that cannot be recorded, or not in time |
| Lint.Analysis.CheckBoundary | src/lint/checks.rs:329-403 | Unknown states, an untagged boundary, a bypass or nothing are reported as the boundary's verdict demands |
| Lint.Analysis.L3BoundaryRouteAround | src/lint/checks.rs:324-406 | Every boundary gets its verdict, in declaration order |
| Lint.UntaggedRuns | src/lint/checks.rs:378-382 | Paths of the pruned graph are exactly the paths that cross no tagged transition |
| Lint.BoundaryVerdictIsExact | src/lint/checks.rs:378-402 | On declared states and a tagged boundary, L3 is silent if and only if no path of one or more transitions routes around, and otherwise shows a shortest one |
| BoundaryRuns.SilentBoundaryIsCrossed | src/lint/checks.rs:378-402 | Where L3 is silent, a run that moves only by committed transitions gets from the boundary's start to its target only by committing a tagged one, even among transitions with the same ends and command |
| BoundaryRuns.CrossedIffMovesRestricted | src/cli/transition.rs:622-632 | Where L3 is silent and no hook auto-records `state_transition`, every continuation of a run at the boundary's start crosses it on the way to its target if and only if `state_transition` is restricted |
| Lint.Analysis.L4DeadEndStates | src/lint/checks.rs:419-486 | Exactly the non-terminal states with no exit, or with every exit marked, are reported, each once, in the order of their names |
| Lint.RunChecks | src/lint/mod.rs:182-205 | Run in order, L4 judges by exactly what L1 and L2 marked |
| ProtocolRuns.EveryRunIsJustified | src/state/machine.rs:236-377 | In every interleaving, each prepared transition passed its gates in its source on some earlier ledger of the run |
| ProtocolRuns.CommitMovesOrRefuses | src/state/machine.rs:389-469 | A commit extends the ledger by exactly what it records and moves to the prepared target, or to where the last emitted `state_transition` leads; if the state has moved since, nothing is appended |
| EventCommands.ValidateEventFields | src/cli/transition.rs:546-593 | Accepts if and only if every required field is given and the values are allowed; otherwise the first required field that is missing is reported, before any value |
| EventCommands.CmdEvent | src/cli/transition.rs:598-668 | Refuses restricted events, accepts undeclared ones as they are, and otherwise accepts exactly what a caller may record in the modelled runs |
| EventCommands.CmdAuthedEvent | src/cli/authed_event.rs:22-109 | Accepts only events declared restricted, with a proof, and exactly what a signer may record in the modelled runs |
| EventCommands.HandleRecordEvent | src/daemon/mod.rs:840-910 | Accepts only declared events, and exactly what a daemon client may record in the modelled runs |
| EventCommands.HookMatches | src/hooks/eval.rs:233-270 | The loops decide whether the state is among those the hook wants and none of those it excludes |
| EventCommands.EvaluateHooks | src/hooks/eval.rs:119-204 | The events to auto-record are those of exactly the hooks that apply and admit the derived state, in declaration order, and each is a possible step of the modelled runs |
| EventCommands.CommitRecordsInOrder | src/state/machine.rs:389-469 | A commit appends the move with its ends and command, then the attestations, then the emits in declaration order |
| LintSoundness.ClosedRunIsWitnessed | src/lint/index.rs:44-63 | In a run in which only its indexed producers record an event, looking at a state of their window, each such entry was recorded after a state the run had been in and the producer can run in |
| LintSoundness.StraightRunIsConnected | src/state/machine.rs:389-469 | In a run that moves only by committed transitions, each state the run was in leads to every later one |
| LintSoundness.MarkedIsNeverPrepared | src/lint/checks.rs:216-308 | No process, however stale its copy, finds all gates of a marked transition passing |
| LintSoundness.MarkedNeverFires | src/lint/checks.rs:50-308 | A transition L1 or L2 marks fires in no run closed for the event it is marked on, given clean shapes and usable leaves |
| LintSoundness.RestrictedMarkNeverFires | src/cli/transition.rs:622-632 | A mark on a restricted event is sound over every run in which signers keep their windows, whatever callers record by hand and hooks from stale copies; for L2, where `state_transition` is restricted and not auto-recorded, or no producer of the event ever runs |
| LintSoundness.L1NeverFires | docs/lint.md:124 | Without `require_producers` a transition L1 marks fires in no run in which signers keep their windows, given clean shapes and usable leaves |
| LintSoundness.AbsenceIffUnforgeable | docs/lint.md:31 | Where no hook auto-records `state_transition` (for L1, always), what a mark claims, that its event is absent whenever the run is in the transition's source, holds over all runs in which signers keep their windows if and only if the event is restricted, and `state_transition` too unless no producer of the event ever runs |
| LintSoundness.MarkIsSoundIffUnforgeable | docs/lint.md:31 | For a transition that asks for the marked event alone, the same condition is exactly when it fires in no such run |
| MarksByHand.UnrestrictedMarkFires | src/cli/transition.rs:622-632 | A concrete protocol and run in which the transition L2 marks fires, the event being unrestricted |
| MarksByHand.RestrictedMarkFires | src/cli/transition.rs:622-632 | A concrete protocol with a run in which the transition L2 marks fires, the event being restricted and `state_transition` undeclared |
| LintSoundness.DeadEndIsNeverLeft | src/lint/checks.rs:419-486 | L4 follows: a closed run that moves only by committed transitions, once in a reported state, stays there however it continues |
| LintSoundness.DeadEndIffMovesRestricted | src/lint/checks.rs:419-486 | With every exit marked on a restricted event and no hook writing transitions, a run that reaches the state stays there in every continuation if and only if `state_transition` is restricted |
| TransitionChoice.PrepareTransition | src/state/machine.rs:236-377 | The answer is the first passing candidate in declaration order, ready or failed at its first refused emit; all candidates when none passes; or that there is none. A ready one is a possible step of the modelled machine |
| TransitionChoice.GateCheck | src/cli/transition.rs:301-407 | The dry run, which evaluates every candidate, announces the first that passes |
| TransitionChoice.DryRunThenTake | src/cli/transition.rs:301-407 | What the dry run announces is what the command then takes, exactly when no emit of that candidate is refused; otherwise the command fails on it |
| JsonText.JsonString | src/ledger/entry.rs:386-407 | The character loop writes the quoted, escaped string |
| JsonText.EscapesAreCanonical | src/ledger/entry.rs:386-407 | Every character has its one escaped form: the short escapes, four lowercase hex digits for the other controls, itself otherwise |
| JsonText.StringRoundTrip | src/ledger/entry.rs:386-407 | A JSON string parser undoes the escaping for every string |
| JsonText.DocumentRoundTrip | src/ledger/entry.rs:291-348 | Parsing the printed text of any value gives the value back |
| JsonText.PrintIsInjective | src/ledger/entry.rs:253-288 | Different values print differently |
| JsonGrammar.DocumentIsExact | src/ledger/entry.rs:312-320 | A text is read as a value if and only if the JSON grammar, limited to strings, unsigned integers and objects, derives it from that value, with blanks around any token |
| LedgerEntries.CanonicalJsonObject | src/ledger/entry.rs:410-424 | The loop over a sorted map prints the object of its fields |
| LedgerEntries.TextOfHashTree | src/ledger/entry.rs:253-288 | The hash input is the text of a JSON object with alphabetical keys, `recorded_by` omitted when empty |
| LedgerEntries.KeysAreAlphabetical | src/ledger/entry.rs:253-288 | The keys of the hashed object, and of the fields within it, ascend character by character |
| LedgerEntries.HashInputInjective | src/ledger/entry.rs:253-288 | Entries with the same hash input agree in everything but the stored hash, the omitted `recorded_by` included |
| LedgerEntries.DigestDeterminesEntry | src/ledger/entry.rs:253-288 | With a collision-free hash, the digest determines the entry |
| LedgerEntries.EntryRoundTrip | src/ledger/entry.rs:291-348 | Reading back a written entry gives exactly that entry |
| LedgerEntries.ReadIsSealed | src/ledger/entry.rs:320-338 | Whatever is read is of a known schema and carries the hash of its own contents |
| LedgerEntries.UnsealedIsRefused | src/ledger/entry.rs:320-338 | A written entry of a newer schema is refused as unsupported, and one whose hash is not that of its contents as a mismatch that names both |
| LedgerEntries.EditIsRefused | src/ledger/entry.rs:320-338 | With a collision-free hash, changing anything in a sealed entry but keeping its hash makes it unreadable |
| LedgerReading.DeserializeIsExact | src/ledger/entry.rs:312-320 | A line is read as an entry if and only if it is a JSON object with every key of the entry once and of its type, in any order, `recorded_by` optional, unknown keys ignored and later fields over earlier ones |
| LedgerEntries.EntryIsOneLine | src/ledger/entry.rs:291-307 | The written form holds no line break and no surrounding space |
| LedgerEntries.NewEntry | src/ledger/entry.rs:200-245 | A new entry carries what it was given and is one that `from_jsonl` admits |
| LedgerChain.ParseFile | src/ledger/chain.rs:543-562 | The loop returns the entries of the non-blank lines in order, or the first error |
| LedgerChain.FileRoundTrip | src/ledger/chain.rs:543-562 | Splitting the written file into lines and parsing each returns exactly the entries written |
| LedgerReading.LinesAreExact | src/ledger/chain.rs:543-562 | A text is cut at exactly its line breaks, a return before a break is dropped and an empty remainder is no line |
| LedgerReading.ParsedLineByLine | src/ledger/chain.rs:543-562 | A file parses to an entry for each line that is not blank, in order, or fails with exactly the error of its first line that does not parse |
| LedgerChain.ParsedIsSealed | src/ledger/chain.rs:543-562 | Every entry of a file that parses is sealed |
| LedgerChain.UnsealedFileIsRefused | src/ledger/chain.rs:543-562 | A file with one unsealed entry is refused with that entry's error, whatever follows |
| LedgerChain.Verify | src/ledger/chain.rs:276-300 | The check passes exactly on a chained ledger, and otherwise reports the first entry that does not link and why |
| LedgerChain.LastHashDeterminesLedger | src/ledger/chain.rs:276-300 | With a collision-free hash, two files that open and share their last hash hold the same ledger entry for entry |
| LedgerChain.AppendExtendsFile | src/ledger/chain.rs:157-199 | Appending the next line to a well-formed file gives the file of the extended, still well-formed ledger |
| LedgerChain.Ledger.Init | src/ledger/chain.rs:56-107 | A new file holds exactly a well-formed genesis entry; an existing file is left alone |
| LedgerReading.GenesisLooksUp | src/ledger/chain.rs:494-519 | The genesis entry holds every seal under its key, and the protocol's name and version under theirs unless a seal goes by that key |
| LedgerChain.Ledger.Open | src/ledger/chain.rs:111-138 | Opening succeeds exactly on a file that parses, is not empty and verifies, and then every entry is sealed; otherwise it says which failed |
| LedgerChain.Ledger.Append | src/ledger/chain.rs:157-243 | The new entry follows the tail on disk, not the stale copy; a refused append changes nothing |
| LedgerChain.NextEntryFollows | src/ledger/chain.rs:157-199 | What is appended is the one sealed entry of the current schema that carries the event, the writer, the time and the ledger's origin, with the number and hash that follow the tail |
| LedgerChain.Ledger.Reload | src/ledger/chain.rs:250-264 | The copy becomes what is on disk, or nothing changes |
| LedgerProtocol.StepKeeps | src/ledger/chain.rs:157-264 | Every step of every process keeps the file well formed, extended only, and every copy a prefix of it |
| LedgerProtocol.EveryRunIsSound | src/ledger/chain.rs:157-264 | Every interleaving is before its genesis entry or over such a file |
| LedgerProtocol.FileAlwaysVerifies | src/ledger/chain.rs:276-300 | After every run the file parses, verifies and has one origin, and every process's copy is a prefix of it |
| LedgerProtocol.FileOnlyGrows | src/ledger/chain.rs:157-243 | Continuing a run only extends the ledger on disk |
| LedgerProtocol.AppendRunResult | src/ledger/chain.rs:157-199 | The five interleavable steps of one append, undisturbed, do what `Ledger.Append` does |
| LedgerProtocol.OpenStepIsOpen | src/ledger/chain.rs:111-138 | Opening in an interleaving succeeds exactly where `Ledger.Open` does, with the same copy and origin |
| LedgerProtocol.ReloadStepIsReload | src/ledger/chain.rs:250-264 | Reloading in an interleaving replaces what `Ledger.Reload` does: the copy, and the origin unless the file holds no entry |
| LedgerProtocol.CreationIsInit | src/ledger/chain.rs:56-107 | The two steps of creating a ledger, undisturbed, write what `Ledger.Init` writes |
| Template.ResolveTemplateWith | src/gates/template.rs:44-58 | The loop replaces one key after another in the map's order |
| Template.ResolveIsSimultaneous | src/gates/template.rs:44-58 | For a map whose pasted texts open nothing this equals filling every hole at once, under both escaping strategies |
| Template.OrderIsIrrelevant | src/gates/template.rs:44-58 | Two orders of such a map give the same text |
| TemplateOrder.OrderShowsIffOpens | src/gates/template.rs:44-58 | The iteration order of a map with brace-free keys and any values, or of one that adds values that open nothing, shows in some written template if and only if some of its pasted texts opens a placeholder |
| Template.BracedValueShowsTheOrder | src/gates/template.rs:44-58 | With a value that opens a placeholder, two orders give different texts |
| Template.FindUnresolvedVars | src/gates/template.rs:81-94 | The scan returns the names between successive double braces |
| Template.NextVarIsExact | src/gates/template.rs:81-94 | In any text the next name is what stands between the first `{{` and the first `}}` behind it, and the scan goes on behind that |
| Template.UnresolvedAfterResolve | src/gates/template.rs:44-94 | After resolution with closed values the scan returns exactly the unbound names, in order and as often as they occur |
| ShellWords.QuotingReadsBack | src/gates/template.rs:35-37 | A shell reads any quoted value as exactly that value and goes on with whatever follows |
| ShellWords.FilledHoleReadsBack | src/gates/template.rs:44-58 | In a resolved command template, the shell reads each filled hole as its value, whatever the value holds |
| TemplateOrder.UnresolvedIffClosed | src/gates/template.rs:44-94 | For one binding, the scan returns exactly the unbound names in every written template if and only if the value is pasted as closed text |
| MergePatch.JsonObject.MergePatch | src/daemon/enforcement.rs:38-64 | Patching in place, key by key in any order, gives MergePatch of section 2 of RFC 7386 |
| MergePatch.JsonObject.MergeKey | src/daemon/enforcement.rs:40-61 | One key is deleted, merged or replaced and every other is left alone |
| MergePatch.UnreachedIsUnchanged | src/daemon/enforcement.rs:38-64 | A path that leaves the patch has the value it had |
| MergePatch.LeafIsStored | src/daemon/enforcement.rs:38-64 | At a leaf of the patch stands the leaf, or nothing if it is null |
| MergePatch.AddsNoNull | src/daemon/enforcement.rs:38-64 | A null member of the result was there before |
| MergePatch.MergeIsIdempotent | src/daemon/enforcement.rs:38-64 | Applying a patch twice is applying it once |
| MergePatch.CommuteIffCompatible | src/daemon/enforcement.rs:38-64 | Two patches commute on every target if and only if they agree wherever both speak |
| Enforcement.Vault.Write | src/daemon/mod.rs:739-764 | It takes effect exactly on a payload that decodes to an object under a token that still fits, else the vault is unchanged and the refusal is the decoding error or the conflict with the current version; then the stored text parses to the payload's members with the refresh time, and the answer is its version |
| Enforcement.Vault.Serve | src/daemon/mod.rs:614-628 | A read serves the stored blob under the ledger's state with the version of the stored bytes, or reports that there is none |
| Enforcement.ReadServesWhatIsStored | src/daemon/mod.rs:921-932 | A read changes nothing and shows every stored member but `state`, which is the ledger's; the very bytes when there is nothing to overlay |
| Enforcement.Vault.Patch | src/daemon/mod.rs:773-817 | The same over a stored object, with each refusal in the source's order; then the stored text parses to the patched members with the refresh time, and is handed back with its version |
| Enforcement.EffectIsTheRequest | src/daemon/mod.rs:739-817 | Any request that takes effect stores, member by member, what it asks for over what was there, and the refresh time |
| Enforcement.ConditionalMutationIsExact | src/daemon/mod.rs:711-817 | In every run a mutation carrying a token takes effect only on exactly the bytes the token was issued for, all of which the caller was shown if a blob came with it; otherwise nothing changes |
| Enforcement.ReadThenMutate | src/daemon/mod.rs:614-817 | A mutation under a token obtained by reading takes effect only if, whatever came in between, the stored bytes are those that were read |
| Enforcement.ConflictIsExact | src/daemon/mod.rs:711-817 | In every run over stored objects, a well-formed conditional mutation of any kind is refused exactly when the blob is no longer the one its token was issued for, and then as a conflict |
| Enforcement.ActorsAreIsolated | src/daemon/mod.rs:773-817 | When actors only name their own keys, each one's entry ends as if it had acted alone, in every interleaving |
| Enforcement.StoredIsAmended | src/daemon/mod.rs:773-817 | The bytes stored after a run of unconditional merges are the text of the amended blob |
| Manifests.Manifest.Track | src/manifest/tracker.rs:129-158 | A managed, readable file is sealed by its hash and ledger position and no other seal changes; anything else is refused without effect |
| Manifests.Manifest.Save | src/manifest/tracker.rs:100-114 | What is stored is the table with its own hash recomputed |
| Manifests.Verify | src/manifest/verify.rs:84-131 | Clean exactly when every managed seal is the hash of its file; the lists are exact and sorted by path |
| ManifestProtocol.EveryRunHolds | src/manifest/lock.rs:104-132 | Every interleaving keeps the lock exclusive, each seal that of its file or of a shorter one, and the holder's copy the stored table |
| ManifestProtocol.SealsAreCurrent | src/cli/transition.rs:448-536 | Whenever no writer holds the lock, a seal has the hash and entry number of its file exactly unless some writer left that ledger unsealed |
| ManifestProtocol.NothingFailsNothingUnsealed | src/cli/transition.rs:448-536 | Without a failed step no ledger is left unsealed |
| ManifestProtocol.ReadersVerifyExactly | src/cli/manifest_cmd.rs:41-61 | Under the shared lock the check is clean exactly when no sealed ledger was left unsealed |
| ManifestProtocol.SealsOnlyAdvance | src/cli/commands.rs:206-253 | No step drops a seal, replaces it by an older one or shortens a file |
| ManifestProtocol.DataDir.RecordAndRender | src/cli/transition.rs:448-536 | One writer's pass does to the directory what the protocol's six steps do; a failed append changes nothing |
| Mermaid.Walk | src/mermaid.rs:143-224 | The walk terminates, adds exactly states reachable from its own, prints each edge out of them once and descends into each once, with fallback notes right; the lines nest, those of a target right under the edge that leads there, edges in order |
| Mermaid.WalkIsReachability | src/mermaid.rs:143-224 | From the initial state the depth-first walk visits what the breadth-first closure reaches |
| Mermaid.GenerateAscii | src/mermaid.rs:231-266 | The diagram is a header and, nested, one line for every transition a run can take, and none else |
| Glob.GlobMatchRecursive | src/hooks/eval.rs:321-368 | The recursive matcher, with its star loop, terminates and computes the matching relation |
| Glob.MatchesIffReadable | src/hooks/eval.rs:321-368 | Text matches exactly when it can be cut into parts that fit the pattern's tokens one by one |
| Glob.InnerDoubleStar | src/hooks/eval.rs:300-358 | A concrete `**` that does not match any depth |
| Glob.DocumentedIffNoInnerStars | src/hooks/eval.rs:300-358 | The matcher does on every text what the documentation says of `**` and `*` if and only if the pattern holds no `**` that is neither followed by a slash nor final |
| RunState.DeriveCurrentState | src/hooks/eval.rs:214-226 | The backward scan returns the target of the last transition that names one |
| RunState.HookStateIsExact | src/hooks/eval.rs:214-226 | Hooks and machine read the same state if and only if the last transition names its target, or the last one that names any names the initial state, or none does |
| Hooks.BareMoveParts | src/cli/transition.rs:622-632 | A concrete ledger on which hooks and machine read different states |
| Hooks.AppendAgreesIff | src/state/machine.rs:543-551 | One entry ends agreement exactly when it is a transition without a target and the run is away from its initial state |
| Hooks.CommitAgreesIff | src/state/machine.rs:389-469 | After a commit, whatever came before, agreement depends only on the committed and the emitted transitions, by that same condition |
| Hooks.HooksAgreeIffMovesNeedTargets | src/cli/transition.rs:622-632 | With `state_transition` neither emitted nor auto-recorded, the two agree in every run if and only if it is restricted or its declaration requires `to` |
| Hooks.HookMoveDisagrees | src/cli/hooks_cmd.rs:191-215 | A hook that auto-records a transition without a target away from the initial state ends agreement, restricted or not |
| Hooks.CountEventsSinceLastTransition | src/hooks/eval.rs:454-472 | The count is the number of admitted entries, genesis apart, that no transition follows |

## Left out

- LedgerChain.Ledger.Append: the source panics on a file without entries and overflows `u64` at the last sequence number; the model returns errors there. `append` and `append_with_ts` are one method with the timestamp as a parameter.
- Gates.MissingMembers: the text of the failure reason is not modelled.
- GateRefs.CollectRefs: the gate type kept with each reference is not modelled, and the scan of SQL for event names enters as the names a foreign check mentions.
- GateRefs.GateEventRefs: the same.
- Lint.Analysis.constructor: the set of consumed events, which only L5 reads, is not modelled.
- Lint.Analysis.L1UnsatisfiableGates: messages and hints are modelled by the facts they report.
- Lint.Analysis.L4DeadEndStates: messages and hints are modelled by the facts they report.
- Lint.RunChecks: the selection of checks and the final sort of all findings are not modelled.
- Manifests.Verify: file times and the operation recorded in a mismatch are not modelled.
- Mermaid.GenerateAscii: indentation, annotations and gate labels are not modelled.
- Glob.GlobMatchRecursive: over ASCII only; the wrapper that rewrites backslashes and shortcuts `*.ext` is not modelled.
- SinceWindow.CountSince: a candidate's variables are bound in one fixed order of the hash map; `Template.OrderIsIrrelevant` covers the others for safe bindings.
- Similarity.SimilarityOf: the score is an exact real; floating-point rounding is not modelled, nor is the splitting of text into tokens.
- JsonText.DocumentRoundTrip: the parser covers strings, unsigned numbers and objects, which is all a ledger line holds; its depth limit is not modelled.
- Enforcement.Vault.Patch: a poisoned mutex is not modelled.
- Enforcement.ReadServesWhatIsStored: the ledger's state, and whether it could be derived, is an input of the request.
- ManifestProtocol.DataDir.RecordAndRender: renders and their second save, reading failures, lock timeouts and crashes halfway through a write are not modelled.
- ProtocolRuns.CommitMovesOrRefuses: a commit's appends are one step, as the manifest lock makes them; the fields of emitted and auto-recorded events are arbitrary.
- EventCommands.ValidateEventFields: whether the given values meet the declared patterns and lists is an input.
- EventCommands.CmdAuthedEvent: whether the proof is valid is an input.
- EventCommands.EvaluateHooks: whether a hook's event, tool and path filters fit the tool use is an input; messages and monitors are not modelled.
- TransitionChoice.PrepareTransition: whether an emit's fields resolve is an input; the reload in between, which feeds only that, and the arguments behind the template variables are not modelled.
- LintSoundness.AbsenceIffUnforgeable: of an event's field rules only the required names are modelled; an event whose patterns or value lists no text satisfies could not be recorded by hand.
- LintSoundness.MarkIsSoundIffUnforgeable: the same.
- BoundaryRuns.CrossedIffMovesRestricted: the same.
- Hooks.HooksAgreeIffMovesNeedTargets: the same; importing a ledger is not a step of a run.
- Seconds in `min_elapsed` are multiplied without overflow.
- Checks L5 to L8, SQL normalization and the scan of SQL for event names; a foreign check is an arbitrary outcome with the events it mentions.
- Shell commands, SQL queries, snapshots, regular expressions, sockets, peer authentication, the sandbox, path spelling, aliases, the registry and configuration loading.
