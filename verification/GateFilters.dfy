/** What gates are evaluated against, and the entry filters they share
    (src/gates/types.rs). */
module GateFilters {
  import opened Wrappers
  import opened ProtocolConfig
  import opened LedgerEntries
  import opened Template

  /** What a gate is evaluated against. `vars` are the template variables in the
      order a hash map yields them; `passing` names the foreign checks that
      succeed; `millis` gives the instant each readable timestamp stands for. */
  datatype Context = Context(
    ledger: seq<LedgerEntry>,
    config: Config,
    vars: Bindings,
    eventFields: Option<Fields>,
    passing: set<string>,
    now: int,
    millis: map<string, int>)

  // ---------------------------------------------------------------------------
  // Selecting entries
  // ---------------------------------------------------------------------------

  function EventsOfType(ledger: seq<LedgerEntry>, eventType: string): seq<LedgerEntry> {
    if ledger == [] then []
    else
      var n := |ledger| - 1;
      EventsOfType(ledger[..n], eventType) + if ledger[n].eventType == eventType then [ledger[n]] else []
  }

  lemma {:induction false} EventsOfTypeAreExact(ledger: seq<LedgerEntry>, eventType: string)
    ensures forall e :: e in EventsOfType(ledger, eventType) <==> e in ledger && e.eventType == eventType
  {
    if ledger != [] {
      var n := |ledger| - 1;
      EventsOfTypeAreExact(ledger[..n], eventType);
      assert ledger == ledger[..n] + [ledger[n]];
    }
  }

  /** `at` are the positions of the selected entries, in ascending order. */
  ghost predicate SelectedAt(ledger: seq<LedgerEntry>, eventType: string, at: seq<nat>) {
    && (forall i: nat :: i in at <==> i < |ledger| && ledger[i].eventType == eventType)
    && forall j, k :: 0 <= j < k < |at| ==> at[j] < at[k]
  }

  /** Selecting by type keeps every entry of the type, each once and in order. */
  lemma {:induction false} EventsOfTypeKeepOrder(ledger: seq<LedgerEntry>, eventType: string) returns (at: seq<nat>)
    ensures SelectedAt(ledger, eventType, at) && |EventsOfType(ledger, eventType)| == |at|
    ensures forall k :: 0 <= k < |at| ==> at[k] < |ledger| && EventsOfType(ledger, eventType)[k] == ledger[at[k]]
  {
    at := [];
    if ledger != [] {
      var n := |ledger| - 1;
      at := EventsOfTypeKeepOrder(ledger[..n], eventType);
      assert forall k :: 0 <= k < |at| ==> at[k] in at;
      if ledger[n].eventType == eventType {
        at := at + [n];
      }
    }
  }

  /** The keys of a filter table are distinct, so every pair must match. */
  predicate EntryMatchesFilter(e: LedgerEntry, filter: FilterSpec) {
    forall i :: 0 <= i < |filter| ==> Get(e.fields, filter[i].0) == Some(filter[i].1)
  }

  function Matching(entries: seq<LedgerEntry>, filter: FilterSpec): seq<LedgerEntry> {
    if entries == [] then []
    else
      var n := |entries| - 1;
      Matching(entries[..n], filter) + if EntryMatchesFilter(entries[n], filter) then [entries[n]] else []
  }

  function ResolveFilterSpec(spec: FilterSpec, vars: Bindings): FilterSpec {
    seq(|spec|, i requires 0 <= i < |spec| => (spec[i].0, Resolve(spec[i].1, vars, EscapeStrategy.Plain)))
  }

  // ---------------------------------------------------------------------------
  // Correlation with the candidate event
  // ---------------------------------------------------------------------------

  const CANDIDATE_PREFIX := "event."

  /** Note the field a placeholder correlates on, unless it is already noted. */
  function NoteRef(refs: seq<string>, placeholder: string): seq<string> {
    if CANDIDATE_PREFIX < placeholder && placeholder[|CANDIDATE_PREFIX|..] !in refs
    then refs + [placeholder[|CANDIDATE_PREFIX|..]]
    else refs
  }

  function NoteRefs(refs: seq<string>, placeholders: seq<string>): seq<string> {
    if placeholders == [] then refs
    else
      var n := |placeholders| - 1;
      NoteRef(NoteRefs(refs, placeholders[..n]), placeholders[n])
  }

  function RefsOfSpec(spec: FilterSpec): seq<string> {
    if spec == [] then []
    else
      var n := |spec| - 1;
      NoteRefs(RefsOfSpec(spec[..n]), UnresolvedVars(spec[n].1))
  }

  method CandidateRefs(spec: FilterSpec) returns (refs: seq<string>)
    ensures refs == RefsOfSpec(spec)
  {
    refs := [];
    for i := 0 to |spec|
      invariant refs == RefsOfSpec(spec[..i])
    {
      assert spec[..i + 1][..i] == spec[..i];
      refs := NotePlaceholders(refs, spec[i].1);
    }
    assert spec[..|spec|] == spec;
  }

  method NotePlaceholders(before: seq<string>, value: string) returns (refs: seq<string>)
    ensures refs == NoteRefs(before, UnresolvedVars(value))
  {
    refs := before;
    var names := FindUnresolvedVars(value);
    for j := 0 to |names|
      invariant refs == NoteRefs(before, names[..j])
    {
      assert names[..j + 1][..j] == names[..j];
      refs := NoteRef(refs, names[j]);
    }
    assert names[..|names|] == names;
  }

  ghost predicate Mentions(placeholders: seq<string>, field: string) {
    field != "" && CANDIDATE_PREFIX + field in placeholders
  }

  ghost predicate MentionedAt(spec: FilterSpec, i: nat, field: string) {
    i < |spec| && Mentions(UnresolvedVars(spec[i].1), field)
  }

  /** Some value of the filter names `{{event.<field>}}`. */
  ghost predicate CorrelatesOn(spec: FilterSpec, field: string) {
    exists i: nat :: MentionedAt(spec, i, field)
  }

  predicate Distinct(names: seq<string>) {
    forall i, j :: 0 <= i < j < |names| ==> names[i] != names[j]
  }

  lemma {:induction false} NoteRefsIsExact(refs: seq<string>, placeholders: seq<string>)
    requires Distinct(refs)
    ensures Distinct(NoteRefs(refs, placeholders))
    ensures forall f :: f in NoteRefs(refs, placeholders) <==> f in refs || Mentions(placeholders, f)
  {
    if placeholders != [] {
      var n := |placeholders| - 1;
      NoteRefsIsExact(refs, placeholders[..n]);
      var last := placeholders[n];
      assert placeholders == placeholders[..n] + [last];
      forall f ensures f != "" && CANDIDATE_PREFIX + f == last <==> CANDIDATE_PREFIX < last && f == last[|CANDIDATE_PREFIX|..] {
      }
    }
  }

  /** The correlated fields are exactly the `event.` placeholders, each once. */
  lemma {:induction false} CandidateRefsAreExact(spec: FilterSpec)
    ensures Distinct(RefsOfSpec(spec))
    ensures forall f :: f in RefsOfSpec(spec) <==> CorrelatesOn(spec, f)
  {
    if spec != [] {
      var n := |spec| - 1;
      CandidateRefsAreExact(spec[..n]);
      NoteRefsIsExact(RefsOfSpec(spec[..n]), UnresolvedVars(spec[n].1));
      forall f ensures CorrelatesOn(spec, f) <==> CorrelatesOn(spec[..n], f) || MentionedAt(spec, n, f) {
        CorrelationSplits(spec, f);
      }
    }
  }

  lemma CorrelationSplits(spec: FilterSpec, f: string)
    requires spec != []
    ensures var n := |spec| - 1; CorrelatesOn(spec, f) <==> CorrelatesOn(spec[..n], f) || MentionedAt(spec, n, f)
  {
    var n := |spec| - 1;
    if i: nat :| MentionedAt(spec, i, f) && i < n {
      SliceMentions(spec, n, i, f);
    }
    if i: nat :| MentionedAt(spec[..n], i, f) {
      SliceMentions(spec, n, i, f);
    }
  }

  lemma SliceMentions(spec: FilterSpec, n: nat, i: nat, f: string)
    requires i < n <= |spec|
    ensures MentionedAt(spec[..n], i, f) <==> MentionedAt(spec, i, f)
  {
    assert spec[..n][i] == spec[i];
  }

  /** `HashMap::insert`: the map's order is not ours to choose, its lookups are. */
  function Bind(vars: Bindings, key: string, value: string): Bindings {
    if vars == [] then [(key, value)]
    else
      var n := |vars| - 1;
      if vars[n].0 == key then vars[..n] + [(key, value)] else Bind(vars[..n], key, value) + [vars[n]]
  }

  function BindFields(vars: Bindings, fields: seq<(string, string)>): Bindings {
    if fields == [] then vars
    else
      var n := |fields| - 1;
      Bind(BindFields(vars, fields[..n]), CANDIDATE_PREFIX + fields[n].0, fields[n].1)
  }

  method CandidateVars(e: LedgerEntry, base: Bindings) returns (vars: Bindings)
    ensures vars == BindFields(base, e.fields)
  {
    vars := base;
    for i := 0 to |e.fields|
      invariant vars == BindFields(base, e.fields[..i])
    {
      assert e.fields[..i + 1][..i] == e.fields[..i];
      vars := Bind(vars, CANDIDATE_PREFIX + e.fields[i].0, e.fields[i].1);
    }
    assert e.fields[..|e.fields|] == e.fields;
  }

  lemma {:induction false} BindLooksUp(vars: Bindings, key: string, value: string, name: string)
    ensures Lookup(Bind(vars, key, value), name) == if name == key then Some(value) else Lookup(vars, name)
  {
    if vars != [] {
      var n := |vars| - 1;
      if vars[n].0 == key {
        assert (vars[..n] + [(key, value)])[..n] == vars[..n];
      } else {
        BindLooksUp(vars[..n], key, value, name);
        var shorter := Bind(vars[..n], key, value);
        assert (shorter + [vars[n]])[..|shorter|] == shorter;
      }
    }
  }

  lemma {:induction false} GetAtEnd(fs: seq<(string, string)>, key: string)
    requires fs != [] && Sorted(fs)
    ensures var n := |fs| - 1; Get(fs, key) == if fs[n].0 == key then Some(fs[n].1) else Get(fs[..n], key)
  {
    if |fs| > 1 {
      LessIsTotal(fs[0].0, fs[|fs| - 1].0);
      GetAtEnd(fs[1..], key);
      assert fs[1..][..|fs| - 2] == fs[..|fs| - 1][1..];
    }
  }

  /** The bindings of a candidate: its fields under the prefix, over the gate's own. */
  lemma {:induction false} CandidateLookup(base: Bindings, fields: seq<(string, string)>, name: string)
    requires Sorted(fields)
    ensures Lookup(BindFields(base, fields), name) ==
      if CANDIDATE_PREFIX <= name && Get(fields, name[|CANDIDATE_PREFIX|..]).Some?
      then Get(fields, name[|CANDIDATE_PREFIX|..])
      else Lookup(base, name)
    decreases |fields|
  {
    if fields != [] {
      var n := |fields| - 1;
      CandidateLookup(base, fields[..n], name);
      BindLooksUp(BindFields(base, fields[..n]), CANDIDATE_PREFIX + fields[n].0, fields[n].1, name);
      if CANDIDATE_PREFIX <= name {
        GetAtEnd(fields, name[|CANDIDATE_PREFIX|..]);
      }
    }
  }
}
