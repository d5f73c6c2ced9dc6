/** The windowed count of `ledger_has_event_since` (src/gates/ledger.rs). */
module SinceWindow {
  import opened ProtocolConfig
  import opened LedgerEntries
  import opened LedgerChain
  import opened Template
  import opened GateFilters

  /** One gate's window: what is counted (`event`, `filter` already resolved),
      the baseline type, and the `since_filter` table as written. */
  datatype Window = Window(event: string, filter: FilterSpec, baseline: string, spec: FilterSpec, vars: Bindings)
  {
    function Candidates(ledger: seq<LedgerEntry>): seq<LedgerEntry> {
      Matching(EventsOfType(ledger, event), filter)
    }

    function Baselines(ledger: seq<LedgerEntry>): seq<LedgerEntry> {
      EventsOfType(ledger, baseline)
    }

    predicate PerCandidate() {
      RefsOfSpec(spec) != []
    }

    /** The candidate carries every field its window is keyed on. */
    predicate Scopeable(c: LedgerEntry) {
      HasFields(c, RefsOfSpec(spec))
    }

    /** The filter a baseline must match to close `c`'s window. */
    function Anchor(c: LedgerEntry): FilterSpec {
      ResolveFilterSpec(spec, if PerCandidate() then BindFields(vars, c.fields) else vars)
    }

    /** What the gate tests of one candidate. */
    predicate Counts(ledger: seq<LedgerEntry>, c: LedgerEntry) {
      if PerCandidate()
      then Scopeable(c) && !Consumed(Baselines(ledger), c.seqNo, Anchor(c))
      else c.seqNo > LastMatchingSeq(Baselines(ledger), Anchor(c))
    }

    /** How many of `cs` count. */
    function Tally(ledger: seq<LedgerEntry>, cs: seq<LedgerEntry>): nat {
      if cs == [] then 0
      else
        var n := |cs| - 1;
        Tally(ledger, cs[..n]) + if Counts(ledger, cs[n]) then 1 else 0
    }

    function Count(ledger: seq<LedgerEntry>): nat {
      Tally(ledger, Candidates(ledger))
    }
  }

  predicate HasFields(c: LedgerEntry, names: seq<string>) {
    forall i :: 0 <= i < |names| ==> Get(c.fields, names[i]).Some?
  }

  /** Per candidate, the window is keyed on the `event.` placeholders of the filter, and
      the candidate must carry each of them. */
  lemma ScopeableIsExact(w: Window, c: LedgerEntry)
    ensures w.PerCandidate() <==> exists f :: f in RefsOfSpec(w.spec)
    ensures w.Scopeable(c) <==> forall f :: f in RefsOfSpec(w.spec) ==> Get(c.fields, f).Some?
  {
    if w.PerCandidate() {
      var first := RefsOfSpec(w.spec)[0];
      assert first in RefsOfSpec(w.spec);
    }
    HasFieldsIsExact(c, RefsOfSpec(w.spec));
  }

  lemma HasFieldsIsExact(c: LedgerEntry, names: seq<string>)
    ensures HasFields(c, names) <==> forall f :: f in names ==> Get(c.fields, f).Some?
  {
    if forall f :: f in names ==> Get(c.fields, f).Some? {
      forall i | 0 <= i < |names| ensures Get(c.fields, names[i]).Some? {
        assert names[i] in names;
      }
    }
  }

  /** The sequence number of the last match, or the run start. */
  function LastMatchingSeq(baselines: seq<LedgerEntry>, anchor: FilterSpec): u64 {
    if baselines == [] then 0
    else
      var n := |baselines| - 1;
      if EntryMatchesFilter(baselines[n], anchor) then baselines[n].seqNo else LastMatchingSeq(baselines[..n], anchor)
  }

  /** Walking back from the last baseline to the candidate, some baseline matches. */
  predicate Consumed(baselines: seq<LedgerEntry>, position: u64, anchor: FilterSpec) {
    baselines != [] &&
    var n := |baselines| - 1;
    baselines[n].seqNo > position && (EntryMatchesFilter(baselines[n], anchor) || Consumed(baselines[..n], position, anchor))
  }

  // ---------------------------------------------------------------------------
  // The loops
  // ---------------------------------------------------------------------------

  method FindLast(baselines: seq<LedgerEntry>, anchor: FilterSpec) returns (position: u64)
    ensures position == LastMatchingSeq(baselines, anchor)
  {
    var n := |baselines|;
    assert baselines[..n] == baselines;
    while n > 0
      invariant 0 <= n <= |baselines|
      invariant LastMatchingSeq(baselines[..n], anchor) == LastMatchingSeq(baselines, anchor)
    {
      assert baselines[..n][..n - 1] == baselines[..n - 1];
      n := n - 1;
      if EntryMatchesFilter(baselines[n], anchor) {
        return baselines[n].seqNo;
      }
    }
    position := 0;
  }

  method IsConsumed(baselines: seq<LedgerEntry>, position: u64, anchor: FilterSpec) returns (consumed: bool)
    ensures consumed == Consumed(baselines, position, anchor)
  {
    var n := |baselines|;
    assert baselines[..n] == baselines;
    while n > 0 && baselines[n - 1].seqNo > position
      invariant 0 <= n <= |baselines|
      invariant Consumed(baselines[..n], position, anchor) == Consumed(baselines, position, anchor)
    {
      assert baselines[..n][..n - 1] == baselines[..n - 1];
      n := n - 1;
      if EntryMatchesFilter(baselines[n], anchor) {
        return true;
      }
    }
    consumed := false;
  }

  /** `unscopeable` is the number of candidates the correlation cannot place. */
  method CountSince(w: Window, ledger: seq<LedgerEntry>) returns (matching: nat, unscopeable: nat)
    ensures matching == w.Count(ledger)
    ensures unscopeable == if w.PerCandidate() then Unscopeable(w, w.Candidates(ledger)) else 0
  {
    var correlated := CandidateRefs(w.spec);
    var candidates := w.Candidates(ledger);
    var baselines := w.Baselines(ledger);
    if correlated == [] {
      matching := CountGlobal(w, ledger, candidates, baselines);
      unscopeable := 0;
    } else {
      matching, unscopeable := CountEach(w, ledger, candidates, baselines, correlated);
    }
  }

  function Unscopeable(w: Window, cs: seq<LedgerEntry>): nat {
    if cs == [] then 0
    else
      var n := |cs| - 1;
      Unscopeable(w, cs[..n]) + if w.Scopeable(cs[n]) then 0 else 1
  }

  /** The candidate lacks a field its window is keyed on. */
  predicate Lacks(w: Window, c: LedgerEntry) {
    exists f :: f in RefsOfSpec(w.spec) && Get(c.fields, f).None?
  }

  function LackingPositions(w: Window, cs: seq<LedgerEntry>): set<nat> {
    set i: nat | i < |cs| && Lacks(w, cs[i])
  }

  lemma {:induction false} UnscopeableIsExact(w: Window, cs: seq<LedgerEntry>)
    ensures Unscopeable(w, cs) == |LackingPositions(w, cs)|
  {
    if cs != [] {
      var n := |cs| - 1;
      UnscopeableIsExact(w, cs[..n]);
      ScopeableIsExact(w, cs[n]);
      LackingSnoc(w, cs[..n], cs[n]);
      assert cs == cs[..n] + [cs[n]];
    }
  }

  lemma LackingSnoc(w: Window, cs: seq<LedgerEntry>, c: LedgerEntry)
    ensures LackingPositions(w, cs + [c]) == LackingPositions(w, cs) + if Lacks(w, c) then {|cs|} else {}
  {
  }

  method CountGlobal(w: Window, ledger: seq<LedgerEntry>, candidates: seq<LedgerEntry>, baselines: seq<LedgerEntry>)
    returns (matching: nat)
    requires !w.PerCandidate() && baselines == w.Baselines(ledger)
    ensures matching == w.Tally(ledger, candidates)
  {
    var anchor := ResolveFilterSpec(w.spec, w.vars);
    var threshold := FindLast(baselines, anchor);
    matching := 0;
    for i := 0 to |candidates|
      invariant matching == w.Tally(ledger, candidates[..i])
    {
      assert candidates[..i + 1][..i] == candidates[..i];
      assert w.Anchor(candidates[i]) == anchor;
      if candidates[i].seqNo > threshold {
        matching := matching + 1;
      }
    }
    assert candidates[..|candidates|] == candidates;
  }

  method CountEach(w: Window, ledger: seq<LedgerEntry>, candidates: seq<LedgerEntry>, baselines: seq<LedgerEntry>,
      correlated: seq<string>)
    returns (count: nat, unscopeable: nat)
    requires w.PerCandidate() && correlated == RefsOfSpec(w.spec) && baselines == w.Baselines(ledger)
    ensures count == w.Tally(ledger, candidates)
    ensures unscopeable == Unscopeable(w, candidates)
  {
    count, unscopeable := 0, 0;
    for i := 0 to |candidates|
      invariant count == w.Tally(ledger, candidates[..i])
      invariant unscopeable == Unscopeable(w, candidates[..i])
    {
      var c := candidates[i];
      assert candidates[..i + 1][..i] == candidates[..i];
      if !HasFields(c, correlated) {
        unscopeable := unscopeable + 1;
        continue;
      }
      var vars := CandidateVars(c, w.vars);
      var anchor := ResolveFilterSpec(w.spec, vars);
      assert anchor == w.Anchor(c);
      var consumed := IsConsumed(baselines, c.seqNo, anchor);
      if !consumed {
        count := count + 1;
      }
    }
    assert candidates[..|candidates|] == candidates;
  }

  // ---------------------------------------------------------------------------
  // What the count means on a verified ledger
  // ---------------------------------------------------------------------------

  predicate Numbered(ledger: seq<LedgerEntry>) {
    forall i :: 0 <= i < |ledger| ==> ledger[i].seqNo == i
  }

  lemma ChainedIsNumbered(ledger: seq<LedgerEntry>)
    requires Chained(ledger)
    ensures Numbered(ledger)
  {
    forall i | 0 <= i < |ledger| ensures ledger[i].seqNo == i {
      assert Linked(ledger, i);
    }
  }

  predicate IsCandidate(w: Window, e: LedgerEntry) {
    e.eventType == w.event && EntryMatchesFilter(e, w.filter)
  }

  predicate IsMatch(ledger: seq<LedgerEntry>, j: nat, eventType: string, anchor: FilterSpec) {
    j < |ledger| && ledger[j].eventType == eventType && EntryMatchesFilter(ledger[j], anchor)
  }

  /** A baseline at position `j` that closes the window of `c`. */
  predicate ClosesAt(w: Window, ledger: seq<LedgerEntry>, c: LedgerEntry, j: nat) {
    IsMatch(ledger, j, w.baseline, w.Anchor(c))
  }

  /** Entry `i` is a scopeable candidate after its own last matching baseline. */
  predicate AfterOwnBaseline(w: Window, ledger: seq<LedgerEntry>, i: nat)
    requires i < |ledger|
  {
    && IsCandidate(w, ledger[i]) && w.Scopeable(ledger[i])
    && forall j :: 0 <= j < |ledger| && ClosesAt(w, ledger, ledger[i], j) ==> j < i
  }

  /** The same with the two ends the code leaves different: a single window
      starts after entry 0 and a baseline closes it for itself; a window per
      candidate does neither. */
  predicate InWindow(w: Window, ledger: seq<LedgerEntry>, i: nat)
    requires i < |ledger|
  {
    && IsCandidate(w, ledger[i]) && w.Scopeable(ledger[i])
    && (!w.PerCandidate() ==> i > 0)
    && forall j :: 0 <= j < |ledger| && ClosesAt(w, ledger, ledger[i], j) ==> j < i || (w.PerCandidate() && j == i)
  }

  function WindowPositions(w: Window, ledger: seq<LedgerEntry>): set<nat> {
    set i: nat | i < |ledger| && InWindow(w, ledger, i)
  }

  function OwnPositions(w: Window, ledger: seq<LedgerEntry>): set<nat> {
    set i: nat | i < |ledger| && AfterOwnBaseline(w, ledger, i)
  }

  lemma EventsSnoc(ledger: seq<LedgerEntry>, eventType: string)
    requires ledger != []
    ensures var n := |ledger| - 1;
      && (ledger[n].eventType == eventType ==> EventsOfType(ledger, eventType) == EventsOfType(ledger[..n], eventType) + [ledger[n]])
      && (ledger[n].eventType != eventType ==> EventsOfType(ledger, eventType) == EventsOfType(ledger[..n], eventType))
  {
  }

  /** `last` is at or after every match, and is one itself unless it is the run start. */
  ghost predicate IsLatest(ledger: seq<LedgerEntry>, eventType: string, anchor: FilterSpec, last: nat) {
    && (forall j: nat :: IsMatch(ledger, j, eventType, anchor) ==> j <= last)
    && (last > 0 ==> IsMatch(ledger, last, eventType, anchor))
  }

  lemma MatchSnoc(ledger: seq<LedgerEntry>, eventType: string, anchor: FilterSpec)
    requires ledger != []
    ensures var n := |ledger| - 1; forall j: nat ::
      IsMatch(ledger, j, eventType, anchor) <==>
        IsMatch(ledger[..n], j, eventType, anchor) || (j == n && IsMatch(ledger, n, eventType, anchor))
  {
  }

  lemma LatestSnoc(ledger: seq<LedgerEntry>, eventType: string, anchor: FilterSpec, last: nat)
    requires ledger != [] && IsLatest(ledger[..|ledger| - 1], eventType, anchor, last)
    ensures var n := |ledger| - 1;
      IsLatest(ledger, eventType, anchor, if IsMatch(ledger, n, eventType, anchor) then n else last)
  {
    MatchSnoc(ledger, eventType, anchor);
  }

  lemma {:induction false} LastMatchIsLatest(ledger: seq<LedgerEntry>, eventType: string, anchor: FilterSpec)
    requires Numbered(ledger)
    ensures IsLatest(ledger, eventType, anchor, LastMatchingSeq(EventsOfType(ledger, eventType), anchor))
  {
    if ledger != [] {
      var n := |ledger| - 1;
      var shorter := EventsOfType(ledger[..n], eventType);
      LastMatchIsLatest(ledger[..n], eventType, anchor);
      LatestSnoc(ledger, eventType, anchor, LastMatchingSeq(shorter, anchor));
      EventsSnoc(ledger, eventType);
    }
  }

  /** A walk back over baselines that are all earlier than `position` stops at once. */
  lemma NotConsumedEarly(ledger: seq<LedgerEntry>, eventType: string, position: u64, anchor: FilterSpec)
    requires Numbered(ledger) && |ledger| <= position + 1
    ensures !Consumed(EventsOfType(ledger, eventType), position, anchor)
  {
    var baselines := EventsOfType(ledger, eventType);
    if baselines != [] {
      EventsOfTypeAreExact(ledger, eventType);
      assert baselines[|baselines| - 1] in ledger;
    }
  }

  lemma {:induction false} ConsumedIsLater(ledger: seq<LedgerEntry>, eventType: string, position: u64, anchor: FilterSpec)
    requires Numbered(ledger)
    ensures Consumed(EventsOfType(ledger, eventType), position, anchor) <==>
      exists j: nat :: position < j && IsMatch(ledger, j, eventType, anchor)
  {
    if |ledger| <= position + 1 {
      NotConsumedEarly(ledger, eventType, position, anchor);
    } else {
      var n := |ledger| - 1;
      var shorter := EventsOfType(ledger[..n], eventType);
      ConsumedIsLater(ledger[..n], eventType, position, anchor);
      EventsSnoc(ledger, eventType);
      MatchSnoc(ledger, eventType, anchor);
      assert ledger[n].seqNo > position;
      if !IsMatch(ledger, n, eventType, anchor) && Consumed(shorter, position, anchor) {
        var j: nat :| position < j && IsMatch(ledger[..n], j, eventType, anchor);
        assert IsMatch(ledger, j, eventType, anchor);
      }
    }
  }

  lemma CountsIsInWindow(w: Window, ledger: seq<LedgerEntry>, i: nat)
    requires Numbered(ledger) && i < |ledger| && IsCandidate(w, ledger[i])
    ensures w.Counts(ledger, ledger[i]) <==> InWindow(w, ledger, i)
  {
    var c := ledger[i];
    var anchor := w.Anchor(c);
    forall j: nat | j < |ledger| ensures ClosesAt(w, ledger, c, j) <==> IsMatch(ledger, j, w.baseline, anchor) {
    }
    if w.PerCandidate() {
      ConsumedIsLater(ledger, w.baseline, i, anchor);
    } else {
      LastMatchIsLatest(ledger, w.baseline, anchor);
    }
  }

  function PositionsOf(ledger: seq<LedgerEntry>, n: nat, test: LedgerEntry -> bool): set<nat>
    requires n <= |ledger|
  {
    set i: nat | i < n && test(ledger[i])
  }

  lemma PositionsSnoc(ledger: seq<LedgerEntry>, n: nat, test: LedgerEntry -> bool)
    requires n < |ledger|
    ensures |PositionsOf(ledger, n + 1, test)| == |PositionsOf(ledger, n, test)| + if test(ledger[n]) then 1 else 0
  {
    assert PositionsOf(ledger, n + 1, test) == PositionsOf(ledger, n, test) + if test(ledger[n]) then {n} else {};
  }

  function Counted(w: Window, ledger: seq<LedgerEntry>): LedgerEntry -> bool {
    e => IsCandidate(w, e) && w.Counts(ledger, e)
  }

  lemma TallyNext(w: Window, ledger: seq<LedgerEntry>, before: seq<LedgerEntry>, e: LedgerEntry)
    ensures w.Tally(ledger, w.Candidates(before + [e]))
         == w.Tally(ledger, w.Candidates(before)) + if Counted(w, ledger)(e) then 1 else 0
  {
    CandidatesSnoc(w, before, e);
  }

  lemma {:induction false} TallyCountsPositions(w: Window, ledger: seq<LedgerEntry>, n: nat)
    requires n <= |ledger|
    ensures w.Tally(ledger, w.Candidates(ledger[..n])) == |PositionsOf(ledger, n, Counted(w, ledger))|
  {
    if n == 0 {
      assert PositionsOf(ledger, 0, Counted(w, ledger)) == {};
    } else {
      TallyCountsPositions(w, ledger, n - 1);
      TallyNext(w, ledger, ledger[..n - 1], ledger[n - 1]);
      PositionsSnoc(ledger, n - 1, Counted(w, ledger));
      assert ledger[..n] == ledger[..n - 1] + [ledger[n - 1]];
    }
  }

  lemma CandidatesSnoc(w: Window, ledger: seq<LedgerEntry>, e: LedgerEntry)
    ensures IsCandidate(w, e) ==> w.Candidates(ledger + [e]) == w.Candidates(ledger) + [e]
    ensures !IsCandidate(w, e) ==> w.Candidates(ledger + [e]) == w.Candidates(ledger)
  {
    var ofType := EventsOfType(ledger, w.event);
    assert (ledger + [e])[..|ledger|] == ledger;
    EventsSnoc(ledger + [e], w.event);
    assert (ofType + [e])[..|ofType|] == ofType;
  }

  /** On every verified ledger the gate counts exactly the entries in the window. */
  lemma CountIsExact(w: Window, ledger: seq<LedgerEntry>)
    requires Chained(ledger)
    ensures w.Count(ledger) == |WindowPositions(w, ledger)|
  {
    ChainedIsNumbered(ledger);
    TallyCountsPositions(w, ledger, |ledger|);
    assert ledger[..|ledger|] == ledger;
    forall i: nat | i < |ledger|
      ensures i in PositionsOf(ledger, |ledger|, Counted(w, ledger)) <==> i in WindowPositions(w, ledger)
    {
      if IsCandidate(w, ledger[i]) {
        CountsIsInWindow(w, ledger, i);
      }
    }
    assert PositionsOf(ledger, |ledger|, Counted(w, ledger)) == WindowPositions(w, ledger);
  }

  /** The counted event is neither the baseline nor what opened the ledger. */
  predicate Separate(w: Window, ledger: seq<LedgerEntry>) {
    w.event != w.baseline && (ledger != [] ==> ledger[0].eventType != w.event)
  }

  /** With the counted event separate from both, the two readings agree: the
      count is of the candidates lying after their own last matching baseline. */
  lemma CountIsAfterOwnBaseline(w: Window, ledger: seq<LedgerEntry>)
    requires Chained(ledger) && Separate(w, ledger)
    ensures w.Count(ledger) == |OwnPositions(w, ledger)|
  {
    CountIsExact(w, ledger);
    forall i: nat | i < |ledger| ensures i in WindowPositions(w, ledger) <==> i in OwnPositions(w, ledger) {
    }
    assert WindowPositions(w, ledger) == OwnPositions(w, ledger);
  }

  /** The counted candidates whose window the entry `b` closes. */
  function ClosedBy(w: Window, ledger: seq<LedgerEntry>, b: LedgerEntry): set<nat> {
    set i: nat | i in OwnPositions(w, ledger) && EntryMatchesFilter(b, w.Anchor(ledger[i]))
  }

  /** Appending a baseline removes exactly the counted candidates it matches. */
  lemma BaselineConsumes(w: Window, ledger: seq<LedgerEntry>, b: LedgerEntry)
    requires Chained(ledger + [b]) && Separate(w, ledger) && Separate(w, ledger + [b])
    requires b.eventType == w.baseline
    ensures OwnPositions(w, ledger + [b]) == OwnPositions(w, ledger) - ClosedBy(w, ledger, b)
    ensures w.Count(ledger + [b]) == w.Count(ledger) - |ClosedBy(w, ledger, b)|
  {
    var longer := ledger + [b];
    ChainedPrefix(longer, |ledger|);
    assert longer[..|ledger|] == ledger;
    CountIsAfterOwnBaseline(w, ledger);
    CountIsAfterOwnBaseline(w, longer);
    forall i: nat
      ensures i in OwnPositions(w, longer) <==> i in OwnPositions(w, ledger) && i !in ClosedBy(w, ledger, b)
    {
      if i < |ledger| {
        AppendCloses(w, ledger, b, i);
      }
    }
    var kept := OwnPositions(w, ledger) - ClosedBy(w, ledger, b);
    assert OwnPositions(w, longer) == kept;
    assert OwnPositions(w, ledger) == kept + ClosedBy(w, ledger, b);
  }

  lemma AppendCloses(w: Window, ledger: seq<LedgerEntry>, b: LedgerEntry, i: nat)
    requires i < |ledger| && b.eventType == w.baseline
    ensures AfterOwnBaseline(w, ledger + [b], i) <==>
      AfterOwnBaseline(w, ledger, i) && !EntryMatchesFilter(b, w.Anchor(ledger[i]))
  {
    var longer := ledger + [b];
    forall j: nat | j < |ledger| ensures ClosesAt(w, longer, ledger[i], j) == ClosesAt(w, ledger, ledger[i], j) {
    }
    assert ClosesAt(w, longer, ledger[i], |ledger|) == EntryMatchesFilter(b, w.Anchor(ledger[i]));
  }
}
