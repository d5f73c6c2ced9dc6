/** What can record each event, and in which states (src/lint/index.rs). */
module Producers {
  import opened Wrappers
  import opened ProtocolConfig
  import JsonText

  /** `window` holds the states the producer can run in; `None` is unconstrained. */
  datatype Producer = Producer(id: string, window: Option<seq<string>>, declared: bool)

  const ENGINE_ID := "engine"

  // ---------------------------------------------------------------------------
  // The producers of one event, source by source
  // ---------------------------------------------------------------------------

  function FromDecl(d: ProducerDecl): Producer {
    Producer(d.id, d.availableInStates, true)
  }

  function FromTransition(t: Transition): Producer {
    Producer("transition:" + t.command, Some([t.from]), false)
  }

  /** A hook is known by its position. */
  function FromHook(h: Hook, index: nat): Producer {
    Producer("hook[" + JsonText.Decimal(index) + "]", h.states, false)
  }

  const ENGINE := Producer(ENGINE_ID, None, false)

  function Declared(decls: seq<ProducerDecl>): seq<Producer> {
    if decls == [] then []
    else
      var n := |decls| - 1;
      Declared(decls[..n]) + [FromDecl(decls[n])]
  }

  function DeclaredFor(config: Config, event: string): seq<Producer> {
    if event in config.events then Declared(config.events[event].producers) else []
  }

  function Copies(emits: seq<string>, event: string, p: Producer): seq<Producer> {
    if emits == [] then []
    else
      var n := |emits| - 1;
      Copies(emits[..n], event, p) + if emits[n] == event then [p] else []
  }

  function EmittersOf(ts: seq<Transition>, event: string): seq<Producer> {
    if ts == [] then []
    else
      var n := |ts| - 1;
      EmittersOf(ts[..n], event) + Copies(ts[n].emits, event, FromTransition(ts[n]))
  }

  function HooksOf(hooks: seq<Hook>, event: string): seq<Producer> {
    if hooks == [] then []
    else
      var n := |hooks| - 1;
      HooksOf(hooks[..n], event) + HookAt(hooks[n], n, event)
  }

  function HookAt(h: Hook, index: nat, event: string): seq<Producer> {
    if h.autoRecord == Some(event) then [FromHook(h, index)] else []
  }

  function EngineFor(events: seq<string>, event: string): seq<Producer> {
    Copies(events, event, ENGINE)
  }

  function ProducersOf(config: Config, event: string): seq<Producer> {
    DeclaredFor(config, event) + EmittersOf(config.transitions, event) + HooksOf(config.hooks, event)
    + EngineFor(ENGINE_EVENTS, event)
  }

  // ---------------------------------------------------------------------------
  // The index
  // ---------------------------------------------------------------------------

  type Table = map<string, seq<Producer>>

  function At(table: Table, event: string): seq<Producer> {
    if event in table then table[event] else []
  }

  /** `map.entry(event).or_default().push(p)`. */
  function Push(table: Table, event: string, p: Producer): Table {
    table[event := At(table, event) + [p]]
  }

  class ProducerIndex {
    const table: Table

    /** Each source pushes onto the table the sources before it left. */
    constructor Build(config: Config)
      ensures forall event :: At(table, event) == ProducersOf(config, event)
    {
      var declared := AddDeclared(config);
      var emitted := AddEmitters(config.transitions, declared);
      var hooked := AddHooks(config.hooks, emitted);
      var all := AddEach(ENGINE_EVENTS, ENGINE, hooked);
      forall event ensures At(all, event) == ProducersOf(config, event) {
        assert At(emitted, event) == DeclaredFor(config, event) + EmittersOf(config.transitions, event);
        assert At(hooked, event) == At(emitted, event) + HooksOf(config.hooks, event);
        assert At(all, event) == At(hooked, event) + EngineFor(ENGINE_EVENTS, event);
      }
      table := all;
    }

    method ProducersFor(event: string) returns (ps: seq<Producer>)
      ensures ps == At(table, event)
    {
      ps := if event in table then table[event] else [];
    }
  }

  /** The declared producers, event by event in hash-map order. */
  method AddDeclared(config: Config) returns (table: Table)
    ensures forall event :: At(table, event) == DeclaredFor(config, event)
  {
    table := map[];
    var left := config.events.Keys;
    while left != {}
      invariant left <= config.events.Keys
      invariant forall event :: At(table, event) == if event in left then [] else DeclaredFor(config, event)
      decreases left
    {
      var name :| name in left;
      table := AddDecls(name, config.events[name].producers, table);
      left := left - {name};
    }
  }

  method AddDecls(name: string, decls: seq<ProducerDecl>, before: Table) returns (table: Table)
    requires At(before, name) == []
    ensures forall event :: At(table, event) == if event == name then Declared(decls) else At(before, event)
  {
    table := before;
    for i := 0 to |decls|
      invariant forall event :: At(table, event) == if event == name then Declared(decls[..i]) else At(before, event)
    {
      DeclaredSnoc(decls, i);
      table := Push(table, name, FromDecl(decls[i]));
    }
    assert decls[..|decls|] == decls;
  }

  lemma DeclaredSnoc(decls: seq<ProducerDecl>, i: nat)
    requires i < |decls|
    ensures Declared(decls[..i + 1]) == Declared(decls[..i]) + [FromDecl(decls[i])]
  {
    assert decls[..i + 1][..i] == decls[..i];
  }

  method AddEach(events: seq<string>, p: Producer, before: Table) returns (table: Table)
    ensures forall event :: At(table, event) == At(before, event) + Copies(events, event, p)
  {
    table := before;
    for i := 0 to |events|
      invariant forall event :: At(table, event) == At(before, event) + Copies(events[..i], event, p)
    {
      PushCopy(table, before, events, i, p);
      table := Push(table, events[i], p);
    }
    assert events[..|events|] == events;
  }

  lemma PushCopy(table: Table, before: Table, events: seq<string>, i: nat, p: Producer)
    requires i < |events|
    requires forall event :: At(table, event) == At(before, event) + Copies(events[..i], event, p)
    ensures forall event ::
      At(Push(table, events[i], p), event) == At(before, event) + Copies(events[..i + 1], event, p)
  {
    assert events[..i + 1][..i] == events[..i];
    forall event ensures At(Push(table, events[i], p), event) == At(before, event) + Copies(events[..i + 1], event, p) {
      Regroup(At(before, event), Copies(events[..i], event, p), [p]);
    }
  }

  lemma Regroup<T>(a: seq<T>, b: seq<T>, c: seq<T>)
    ensures a + b + c == a + (b + c) && b + [] == b
  {
  }

  method AddEmitters(ts: seq<Transition>, before: Table) returns (table: Table)
    ensures forall event :: At(table, event) == At(before, event) + EmittersOf(ts, event)
  {
    table := before;
    for i := 0 to |ts|
      invariant forall event :: At(table, event) == At(before, event) + EmittersOf(ts[..i], event)
    {
      ghost var was := table;
      table := AddEach(ts[i].emits, FromTransition(ts[i]), table);
      assert ts[..i + 1][..i] == ts[..i];
      forall event ensures At(table, event) == At(before, event) + EmittersOf(ts[..i + 1], event) {
        assert At(table, event) == At(was, event) + Copies(ts[i].emits, event, FromTransition(ts[i]));
        Regroup(At(before, event), EmittersOf(ts[..i], event), Copies(ts[i].emits, event, FromTransition(ts[i])));
      }
    }
    assert ts[..|ts|] == ts;
  }

  method AddHooks(hooks: seq<Hook>, before: Table) returns (table: Table)
    ensures forall event :: At(table, event) == At(before, event) + HooksOf(hooks, event)
  {
    table := before;
    for i := 0 to |hooks|
      invariant forall event :: At(table, event) == At(before, event) + HooksOf(hooks[..i], event)
    {
      ghost var was := table;
      if hooks[i].autoRecord.Some? {
        table := Push(table, hooks[i].autoRecord.value, FromHook(hooks[i], i));
      }
      forall event ensures At(table, event) == At(before, event) + HooksOf(hooks[..i + 1], event) {
        HookAdded(hooks, i, was, event);
        HooksSnoc(hooks, i, event);
        Regroup(At(before, event), HooksOf(hooks[..i], event), HookAt(hooks[i], i, event));
      }
    }
    assert hooks[..|hooks|] == hooks;
  }

  lemma HooksSnoc(hooks: seq<Hook>, i: nat, event: string)
    requires i < |hooks|
    ensures HooksOf(hooks[..i + 1], event) == HooksOf(hooks[..i], event) + HookAt(hooks[i], i, event)
  {
    assert hooks[..i + 1][..i] == hooks[..i];
  }

  lemma HookAdded(hooks: seq<Hook>, i: nat, table: Table, event: string)
    requires i < |hooks|
    ensures var after := if hooks[i].autoRecord.Some? then Push(table, hooks[i].autoRecord.value, FromHook(hooks[i], i)) else table;
      At(after, event) == At(table, event) + HookAt(hooks[i], i, event)
  {
    assert At(table, event) + [] == At(table, event);
  }

  // ---------------------------------------------------------------------------
  // What the index says
  // ---------------------------------------------------------------------------

  /** Some producer of `event` can run in `state`. */
  ghost predicate CanRunIn(config: Config, event: string, state: string) {
    exists p :: p in ProducersOf(config, event) && (p.window.None? || state in p.window.value)
  }

  lemma {:induction false} CopiesAreExact(emits: seq<string>, event: string, p: Producer, q: Producer)
    ensures q in Copies(emits, event, p) <==> q == p && event in emits
  {
    if emits != [] {
      var n := |emits| - 1;
      CopiesAreExact(emits[..n], event, p, q);
      assert emits == emits[..n] + [emits[n]];
    }
  }

  ghost predicate IsEmitter(ts: seq<Transition>, i: nat, event: string, p: Producer) {
    i < |ts| && event in ts[i].emits && p == Producer("transition:" + ts[i].command, Some([ts[i].from]), false)
  }

  ghost predicate IsHook(hooks: seq<Hook>, i: nat, event: string, p: Producer) {
    && i < |hooks| && hooks[i].autoRecord == Some(event)
    && p == Producer("hook[" + JsonText.Decimal(i) + "]", hooks[i].states, false)
  }

  ghost predicate IsDeclared(decls: seq<ProducerDecl>, i: nat, p: Producer) {
    i < |decls| && p == Producer(decls[i].id, decls[i].availableInStates, true)
  }

  lemma EmitterSplits(ts: seq<Transition>, event: string, p: Producer)
    requires ts != []
    ensures var n := |ts| - 1;
      (exists i: nat :: IsEmitter(ts, i, event, p)) <==> (exists i: nat :: IsEmitter(ts[..n], i, event, p)) || IsEmitter(ts, n, event, p)
  {
    var n := |ts| - 1;
    if i: nat :| IsEmitter(ts, i, event, p) && i < n {
      assert ts[..n][i] == ts[i] && IsEmitter(ts[..n], i, event, p);
    }
    if i: nat :| IsEmitter(ts[..n], i, event, p) {
      assert ts[..n][i] == ts[i] && IsEmitter(ts, i, event, p);
    }
  }

  lemma {:induction false} EmittersAreExact(ts: seq<Transition>, event: string, p: Producer)
    ensures p in EmittersOf(ts, event) <==> exists i: nat :: IsEmitter(ts, i, event, p)
  {
    if ts != [] {
      var n := |ts| - 1;
      EmittersAreExact(ts[..n], event, p);
      CopiesAreExact(ts[n].emits, event, FromTransition(ts[n]), p);
      EmitterSplits(ts, event, p);
    }
  }

  lemma HookSplits(hooks: seq<Hook>, event: string, p: Producer)
    requires hooks != []
    ensures var n := |hooks| - 1;
      (exists i: nat :: IsHook(hooks, i, event, p)) <==> (exists i: nat :: IsHook(hooks[..n], i, event, p)) || IsHook(hooks, n, event, p)
  {
    var n := |hooks| - 1;
    if i: nat :| IsHook(hooks, i, event, p) && i < n {
      assert hooks[..n][i] == hooks[i] && IsHook(hooks[..n], i, event, p);
    }
    if i: nat :| IsHook(hooks[..n], i, event, p) {
      assert hooks[..n][i] == hooks[i] && IsHook(hooks, i, event, p);
    }
  }

  lemma {:induction false} HooksAreExact(hooks: seq<Hook>, event: string, p: Producer)
    ensures p in HooksOf(hooks, event) <==> exists i: nat :: IsHook(hooks, i, event, p)
  {
    if hooks != [] {
      HooksAreExact(hooks[..|hooks| - 1], event, p);
      HookSplits(hooks, event, p);
    }
  }

  lemma {:induction false} DeclaredAreExact(decls: seq<ProducerDecl>, p: Producer)
    ensures p in Declared(decls) <==> exists i: nat :: IsDeclared(decls, i, p)
  {
    if decls != [] {
      var n := |decls| - 1;
      DeclaredAreExact(decls[..n], p);
      if i: nat :| IsDeclared(decls, i, p) && i < n {
        assert IsDeclared(decls[..n], i, p);
      }
      if p in Declared(decls[..n]) {
        var i: nat :| IsDeclared(decls[..n], i, p);
        assert IsDeclared(decls, i, p);
      } else if p in Declared(decls) {
        assert IsDeclared(decls, n, p);
      }
    }
  }

  /** The index is closed over its four sources and holds nothing else. */
  lemma ProducersAreExact(config: Config, event: string, p: Producer)
    ensures p in ProducersOf(config, event) <==>
      || (event in config.events && exists i: nat :: IsDeclared(config.events[event].producers, i, p))
      || (exists i: nat :: IsEmitter(config.transitions, i, event, p))
      || (exists i: nat :: IsHook(config.hooks, i, event, p))
      || (IsEngineEvent(event) && p == ENGINE)
  {
    if event in config.events {
      DeclaredAreExact(config.events[event].producers, p);
    }
    EmittersAreExact(config.transitions, event, p);
    HooksAreExact(config.hooks, event, p);
    CopiesAreExact(ENGINE_EVENTS, event, ENGINE, p);
  }

  predicate WindowAdmits(window: Option<seq<string>>, state: string) {
    window.Some? ==> state in window.value
  }

  predicate SomeDeclared(decls: seq<ProducerDecl>, state: string) {
    exists i :: 0 <= i < |decls| && WindowAdmits(decls[i].availableInStates, state)
  }

  /** An event can be recorded in a state exactly when it is the engine's, a declared
      window or a hook's own states admit the state, or a transition out of it emits it. */
  lemma CanRunInIsExact(config: Config, event: string, state: string)
    ensures CanRunIn(config, event, state) <==>
      || IsEngineEvent(event)
      || (event in config.events && SomeDeclared(config.events[event].producers, state))
      || (exists i :: 0 <= i < |config.transitions| && event in config.transitions[i].emits && config.transitions[i].from == state)
      || (exists i :: 0 <= i < |config.hooks| && config.hooks[i].autoRecord == Some(event) && WindowAdmits(config.hooks[i].states, state))
  {
    if CanRunIn(config, event, state) {
      var p :| p in ProducersOf(config, event) && (p.window.None? || state in p.window.value);
      ProducersAreExact(config, event, p);
    }
    if IsEngineEvent(event) {
      ProducersAreExact(config, event, ENGINE);
      assert ENGINE in ProducersOf(config, event);
    }
    if event in config.events {
      var decls := config.events[event].producers;
      if i :| 0 <= i < |decls| && WindowAdmits(decls[i].availableInStates, state) {
        var p := Producer(decls[i].id, decls[i].availableInStates, true);
        assert IsDeclared(decls, i, p);
        ProducersAreExact(config, event, p);
      }
    }
    if i :| 0 <= i < |config.transitions| && event in config.transitions[i].emits && config.transitions[i].from == state {
      EmitterCanRun(config, i, event);
    }
    if i :| 0 <= i < |config.hooks| && config.hooks[i].autoRecord == Some(event) && WindowAdmits(config.hooks[i].states, state) {
      var p := FromHook(config.hooks[i], i);
      assert IsHook(config.hooks, i, event, p);
      ProducersAreExact(config, event, p);
    }
  }

  lemma EmitterCanRun(config: Config, i: nat, event: string)
    requires i < |config.transitions| && event in config.transitions[i].emits
    ensures CanRunIn(config, event, config.transitions[i].from)
  {
    var p := FromTransition(config.transitions[i]);
    assert IsEmitter(config.transitions, i, event, p);
    ProducersAreExact(config, event, p);
    assert p.window == Some([config.transitions[i].from]);
  }
}
