/** When the iteration order of the variable map shows in a resolved template, and
    when a pasted value shows in what is found unresolved (src/gates/template.rs). */
module TemplateOrder {
  import opened Wrappers
  import opened Template

  // ---------------------------------------------------------------------------
  // The question
  // ---------------------------------------------------------------------------

  /** `larger` binds what `vars` binds, and otherwise only values that open nothing. */
  ghost predicate Extends(vars: Bindings, larger: Bindings, strategy: EscapeStrategy) {
    IsMap(larger) && OpensNoMore(vars, larger, strategy)
  }

  /** Some written template and some further bindings give different texts in two
      iteration orders. */
  ghost predicate OrderShows(vars: Bindings, strategy: EscapeStrategy) {
    exists pieces, one, two :: ShowsIn(pieces, vars, one, two, strategy)
  }

  ghost predicate ShowsIn(pieces: seq<Piece>, vars: Bindings, one: Bindings, two: Bindings, strategy: EscapeStrategy) {
    && Written(pieces) && Extends(vars, one, strategy) && DistinctKeys(two) && SameBindings(one, two)
    && Resolve(Flatten(pieces), one, strategy) != Resolve(Flatten(pieces), two, strategy)
  }

  // ---------------------------------------------------------------------------
  // Replacing what occurs
  // ---------------------------------------------------------------------------

  ghost predicate Occurs(pattern: string, text: string) {
    exists i :: 0 <= i <= |text| && pattern <= text[i..]
  }

  lemma {:induction false} ReplaceIsNoLonger(text: string, pattern: string, substitute: string)
    requires pattern != []
    ensures |substitute| <= |pattern| ==> |Replace(text, pattern, substitute)| <= |text|
    ensures |substitute| >= |pattern| ==> |Replace(text, pattern, substitute)| >= |text|
    decreases |text|
  {
    if |text| >= |pattern| {
      ReplaceIsNoLonger(text[if pattern <= text then |pattern| else 1..], pattern, substitute);
    }
  }

  /** Replacing a pattern that occurs by something else changes the text. */
  lemma {:induction false} ReplaceChanges(text: string, pattern: string, substitute: string)
    requires pattern != [] && substitute != pattern && Occurs(pattern, text)
    ensures Replace(text, pattern, substitute) != text
    decreases |text|
  {
    var i :| 0 <= i <= |text| && pattern <= text[i..];
    if pattern <= text {
      ReplaceIsNoLonger(text[|pattern|..], pattern, substitute);
      if |substitute| == |pattern| {
        assert Replace(text, pattern, substitute)[..|pattern|] == substitute;
        assert text[..|pattern|] == pattern;
      }
    } else {
      assert text[0..] == text && text[1..][i - 1..] == text[i..];
      ReplaceChanges(text[1..], pattern, substitute);
      assert Replace(text, pattern, substitute)[1..] == Replace(text[1..], pattern, substitute);
    }
  }

  // ---------------------------------------------------------------------------
  // A template that shows the order
  // ---------------------------------------------------------------------------

  /** Two values, some text, and a third value. */
  function Probe(a: string, b: string, lit: string, last: string): seq<Piece> {
    [Hole(a), Hole(b), Lit(lit), Hole(last)]
  }

  lemma FlattenCons(p: Piece, rest: seq<Piece>)
    ensures Flatten([p] + rest) == Show(p) + Flatten(rest)
  {
    assert ([p] + rest)[1..] == rest;
  }

  lemma ProbeFlattens(a: Piece, b: Piece, c: Piece, d: Piece)
    ensures Flatten([a, b, c, d]) == Show(a) + (Show(b) + (Show(c) + Show(d)))
  {
    FlattenCons(d, []);
    FlattenCons(c, [d]);
    FlattenCons(b, [c, d]);
    FlattenCons(a, [b, c, d]);
    assert [d] + [] == [d] && [c] + [d] == [c, d] && [b] + [c, d] == [b, c, d] && [a] + [b, c, d] == [a, b, c, d];
    assert Show(d) + [] == Show(d);
  }

  /** A value without an opening brace stays without one. */
  lemma EscapingKeepsCalm(value: string, strategy: EscapeStrategy)
    requires '{' !in value
    ensures '{' !in Substitution(value, strategy) && Calm(Substitution(value, strategy))
  {
    if strategy == Shell {
      QuotingOpensNothing(value);
    }
  }

  lemma {:induction false} QuotingOpensNothing(value: string)
    requires '{' !in value
    ensures '{' !in Replace(value, "'", "'\\''")
    decreases |value|
  {
    if value != [] {
      QuotingOpensNothing(value[1..]);
    }
  }

  function Both(left: string, right: string, lit: string, closing: string): string {
    left + (right + (lit + closing))
  }

  function Step(text: string, binding: (string, string), strategy: EscapeStrategy): string {
    Replace(text, Placeholder(binding.0), Substitution(binding.1, strategy))
  }

  lemma ResolveSnoc(template: string, vars: Bindings, last: (string, string), strategy: EscapeStrategy)
    ensures Resolve(template, vars + [last], strategy) == Step(Resolve(template, vars, strategy), last, strategy)
  {
    assert (vars + [last])[..|vars|] == vars;
  }

  lemma TwoResolve(template: string, a: (string, string), b: (string, string), strategy: EscapeStrategy)
    ensures Resolve(template, [a, b], strategy) == Step(Step(template, a, strategy), b, strategy)
  {
    ResolveSnoc(template, [], a, strategy);
    ResolveSnoc(template, [a], b, strategy);
    assert [] + [a] == [a] && [a] + [b] == [a, b];
  }

  lemma SnocOfConcat(a: Bindings, init: Bindings, last: (string, string))
    ensures a + (init + [last]) == a + init + [last]
  {
  }

  lemma {:induction false} ResolveConcat(template: string, a: Bindings, b: Bindings, strategy: EscapeStrategy)
    ensures Resolve(template, a + b, strategy) == Resolve(Resolve(template, a, strategy), b, strategy)
    decreases |b|
  {
    if b == [] {
      assert a + b == a;
    } else {
      var init, last := b[..|b| - 1], b[|b| - 1];
      assert init + [last] == b;
      SnocOfConcat(a, init, last);
      calc {
        Resolve(template, a + b, strategy);
        Resolve(template, a + init + [last], strategy);
        { ResolveSnoc(template, a + init, last, strategy); }
        Step(Resolve(template, a + init, strategy), last, strategy);
        { ResolveConcat(template, a, init, strategy); }
        Step(Resolve(Resolve(template, a, strategy), init, strategy), last, strategy);
        { ResolveSnoc(Resolve(template, a, strategy), init, last, strategy); }
        Resolve(Resolve(template, a, strategy), b, strategy);
      }
    }
  }

  /** One replacement in four pieces in which it starts nowhere else. */
  lemma FourReplaced(a: Piece, b: Piece, c: Piece, d: Piece, key: string, substitute: string)
    requires AllDead([a, b, c, d], key) && BraceFree(key)
    ensures Replace(Flatten([a, b, c, d]), Placeholder(key), substitute)
         == Flatten([FilledPiece(a, key, substitute), FilledPiece(b, key, substitute),
                     FilledPiece(c, key, substitute), FilledPiece(d, key, substitute)])
  {
    ReplaceFillsOne([a, b, c, d], key, substitute);
    FourFilled(a, b, c, d, key, substitute);
  }

  /** The last value is pasted first, then the key's: the result holds both. */
  lemma OneKeyResolves(a: (string, string), lit: string, c: (string, string), strategy: EscapeStrategy)
    requires BraceFree(a.0) && BraceFree(lit) && BraceFree(c.0) && a.0 != c.0 && '{' !in c.1
    ensures Resolve(Flatten(Probe(a.0, a.0, lit, c.0)), [c, a], strategy)
         == Both(Substitution(a.1, strategy), Substitution(a.1, strategy), lit, Substitution(c.1, strategy))
  {
    var text, closing := Substitution(a.1, strategy), Substitution(c.1, strategy);
    EscapingKeepsCalm(c.1, strategy);
    ClosedAreDead([Hole(a.0), Hole(a.0), Lit(lit), Hole(c.0)], c.0);
    FourReplaced(Hole(a.0), Hole(a.0), Lit(lit), Hole(c.0), c.0, closing);
    ClosedAreDead([Hole(a.0), Hole(a.0), Lit(lit), Lit(closing)], a.0);
    FourReplaced(Hole(a.0), Hole(a.0), Lit(lit), Lit(closing), a.0, text);
    ProbeFlattens(Lit(text), Lit(text), Lit(lit), Lit(closing));
    TwoResolve(Flatten(Probe(a.0, a.0, lit, c.0)), c, a, strategy);
  }

  /** The same with two keys, if no placeholder of the first starts in the text of the second. */
  lemma TwoKeysResolve(a: (string, string), b: (string, string), lit: string, c: (string, string), strategy: EscapeStrategy)
    requires BraceFree(a.0) && BraceFree(b.0) && BraceFree(lit) && BraceFree(c.0) && '{' !in c.1
    requires a.0 != b.0 && a.0 != c.0 && b.0 != c.0
    requires Dead(Substitution(b.1, strategy), lit + Substitution(c.1, strategy), Placeholder(a.0))
    ensures Resolve(Flatten(Probe(a.0, b.0, lit, c.0)), [c, b, a], strategy)
         == Both(Substitution(a.1, strategy), Substitution(b.1, strategy), lit, Substitution(c.1, strategy))
  {
    var left, right, closing := Substitution(a.1, strategy), Substitution(b.1, strategy), Substitution(c.1, strategy);
    EscapingKeepsCalm(c.1, strategy);
    ClosedAreDead([Hole(a.0), Hole(b.0), Lit(lit), Hole(c.0)], c.0);
    FourReplaced(Hole(a.0), Hole(b.0), Lit(lit), Hole(c.0), c.0, closing);
    ClosedAreDead([Hole(a.0), Hole(b.0), Lit(lit), Lit(closing)], b.0);
    FourReplaced(Hole(a.0), Hole(b.0), Lit(lit), Lit(closing), b.0, right);
    DeadInSecond(a.0, right, lit, closing);
    FourReplaced(Hole(a.0), Lit(right), Lit(lit), Lit(closing), a.0, left);
    ProbeFlattens(Lit(left), Lit(right), Lit(lit), Lit(closing));
    ThreeSteps(Flatten(Probe(a.0, b.0, lit, c.0)), c, b, a, strategy);
  }

  lemma ThreeSteps(template: string, a: (string, string), b: (string, string), c: (string, string),
      strategy: EscapeStrategy)
    ensures Resolve(template, [a, b, c], strategy) == Step(Step(Step(template, a, strategy), b, strategy), c, strategy)
  {
    TwoResolve(template, a, b, strategy);
    ResolveSnoc(template, [a, b], c, strategy);
    assert [a, b] + [c] == [a, b, c];
  }

  lemma DeadInSecond(key: string, right: string, lit: string, closing: string)
    requires BraceFree(key) && BraceFree(lit) && Closed(closing) && Dead(right, lit + closing, Placeholder(key))
    ensures AllDead([Hole(key), Lit(right), Lit(lit), Lit(closing)], key)
  {
    var pieces := [Hole(key), Lit(right), Lit(lit), Lit(closing)];
    assert pieces[2..] == [Lit(lit), Lit(closing)] && pieces[3..] == [Lit(closing)] && pieces[4..] == [];
    FlattenCons(Lit(closing), []);
    FlattenCons(Lit(lit), [Lit(closing)]);
    assert [Lit(closing)] + [] == [Lit(closing)] && [Lit(lit)] + [Lit(closing)] == [Lit(lit), Lit(closing)];
    assert closing + [] == closing;
    ClosedIsDead(lit, closing, key);
    ClosedIsDead(closing, [], key);
  }

  function FilledPiece(p: Piece, key: string, substitute: string): Piece {
    if p == Hole(key) then Lit(substitute) else p
  }

  lemma FillCons(p: Piece, rest: seq<Piece>, key: string, substitute: string)
    ensures FillOne([p] + rest, key, substitute) == [FilledPiece(p, key, substitute)] + FillOne(rest, key, substitute)
  {
    assert ([p] + rest)[1..] == rest;
  }

  lemma FourFilled(a: Piece, b: Piece, c: Piece, d: Piece, key: string, substitute: string)
    ensures FillOne([a, b, c, d], key, substitute)
         == [FilledPiece(a, key, substitute), FilledPiece(b, key, substitute),
             FilledPiece(c, key, substitute), FilledPiece(d, key, substitute)]
  {
    FillCons(d, [], key, substitute);
    FillCons(c, [d], key, substitute);
    FillCons(b, [c, d], key, substitute);
    FillCons(a, [b, c, d], key, substitute);
    assert [d] + [] == [d] && [c] + [d] == [c, d] && [b] + [c, d] == [b, c, d] && [a] + [b, c, d] == [a, b, c, d];
  }

  /** Keys that the template does not name are replaced nowhere in it. */
  lemma {:induction false} Untouched(pieces: seq<Piece>, vars: Bindings, strategy: EscapeStrategy)
    requires Written(pieces) && forall i :: 0 <= i < |vars| ==> BraceFree(vars[i].0) && Hole(vars[i].0) !in pieces
    ensures Resolve(Flatten(pieces), vars, strategy) == Flatten(pieces)
    decreases |vars|
  {
    if vars != [] {
      var n := |vars| - 1;
      Untouched(pieces, vars[..n], strategy);
      assert forall i :: 0 <= i < |pieces| ==> pieces[i] in pieces;
      ClosedAreDead(pieces, vars[n].0);
      ReplaceFillsOne(pieces, vars[n].0, Text(vars, strategy, n));
      NothingToFill(pieces, vars[n].0, Text(vars, strategy, n));
    }
  }

  lemma {:induction false} NothingToFill(pieces: seq<Piece>, key: string, substitute: string)
    requires Hole(key) !in pieces
    ensures FillOne(pieces, key, substitute) == pieces
  {
    if pieces != [] {
      NothingToFill(pieces[1..], key, substitute);
    }
  }

  // ---------------------------------------------------------------------------
  // Two orders of a larger map
  // ---------------------------------------------------------------------------

  /** The bindings of other keys. */
  function Without(vars: Bindings, keys: set<string>): Bindings {
    if vars == [] then []
    else
      var n := |vars| - 1;
      Without(vars[..n], keys) + if vars[n].0 in keys then [] else [vars[n]]
  }

  lemma {:induction false} WithoutLooksUp(vars: Bindings, keys: set<string>, name: string)
    ensures Lookup(Without(vars, keys), name) == if name in keys then None else Lookup(vars, name)
  {
    if vars != [] {
      var n := |vars| - 1;
      WithoutLooksUp(vars[..n], keys, name);
      if vars[n].0 !in keys {
        LookupSnoc(Without(vars[..n], keys), vars[n], name);
      } else {
        assert Without(vars[..n], keys) + [] == Without(vars[..n], keys);
      }
    }
  }

  lemma {:induction false} LookupConcat(a: Bindings, b: Bindings, name: string)
    ensures Lookup(a + b, name) == if Lookup(b, name).Some? then Lookup(b, name) else Lookup(a, name)
    decreases |b|
  {
    if b == [] {
      assert a + b == a;
    } else {
      var n := |b| - 1;
      LookupConcat(a, b[..n], name);
      LookupSnoc(a + b[..n], b[n], name);
      assert a + b == a + b[..n] + [b[n]];
    }
  }

  /** A key that is looked up at its own binding is bound once. */
  lemma {:induction false} BoundIsFound(vars: Bindings, i: nat)
    requires i < |vars|
    ensures Lookup(vars, vars[i].0).Some?
  {
    var n := |vars| - 1;
    if i < n {
      BoundIsFound(vars[..n], i);
    }
  }

  lemma {:induction false} WithoutIsMap(vars: Bindings, keys: set<string>)
    requires IsMap(vars)
    ensures IsMap(Without(vars, keys))
    ensures forall i :: 0 <= i < |Without(vars, keys)| ==> Without(vars, keys)[i].0 !in keys
  {
    if vars != [] {
      var n := |vars| - 1;
      WithoutIsMap(vars[..n], keys);
      if vars[n].0 !in keys {
        LookupMisses(vars[..n], vars[n].0);
        WithoutLooksUp(vars[..n], keys, vars[n].0);
        SnocIsMap(Without(vars[..n], keys), vars[n]);
      }
    }
  }

  lemma SnocIsMap(vars: Bindings, last: (string, string))
    requires IsMap(vars) && BraceFree(last.0) && Lookup(vars, last.0) == None
    ensures IsMap(vars + [last])
  {
    forall i | 0 <= i < |vars| ensures vars[i].0 != last.0 {
      BoundIsFound(vars, i);
    }
  }

  lemma {:induction false} ConcatIsMap(a: Bindings, b: Bindings)
    requires IsMap(a) && IsMap(b) && forall i :: 0 <= i < |b| ==> Lookup(a, b[i].0) == None
    ensures IsMap(a + b)
    decreases |b|
  {
    if b == [] {
      assert a + b == a;
    } else {
      var n := |b| - 1;
      ConcatIsMap(a, b[..n]);
      LookupMisses(b[..n], b[n].0);
      LookupConcat(a, b[..n], b[n].0);
      SnocIsMap(a + b[..n], b[n]);
      assert a + b == a + b[..n] + [b[n]];
    }
  }

  lemma LookupSnoc(vars: Bindings, last: (string, string), name: string)
    ensures Lookup(vars + [last], name) == if last.0 == name then Some(last.1) else Lookup(vars, name)
  {
    assert (vars + [last])[..|vars|] == vars;
  }

  /** The keys of the probe, its closing value `c` first. */
  function Tail(a: (string, string), b: (string, string), c: (string, string)): Bindings {
    if a == b then [c, a] else [c, b, a]
  }

  /** The other keys first, then the probe's. */
  function Core(vars: Bindings, a: (string, string), b: (string, string), c: (string, string), m: (string, string)): Bindings {
    Without(vars, {a.0, b.0, m.0}) + Tail(a, b, c)
  }

  /** `a` and `b` are bindings of the map, `c` is a new one, and `m` is one of the
      map or a new one with an empty value. */
  predicate Probes(vars: Bindings, a: (string, string), b: (string, string), c: (string, string), m: (string, string)) {
    && IsMap(vars) && Lookup(vars, a.0) == Some(a.1) && Lookup(vars, b.0) == Some(b.1)
    && BraceFree(c.0) && '{' !in c.1 && Lookup(vars, c.0) == None
    && BraceFree(m.0) && m.0 !in {a.0, b.0, c.0} && m == BindingOf(vars, m.0)
  }

  function BindingOf(vars: Bindings, name: string): (string, string) {
    (name, if Lookup(vars, name).Some? then Lookup(vars, name).value else "")
  }

  lemma TailLooksUp(a: (string, string), b: (string, string), c: (string, string), name: string)
    requires a.0 != c.0 && b.0 != c.0 && (a.0 == b.0 ==> a == b)
    ensures Lookup(Tail(a, b, c), name)
         == if name == a.0 then Some(a.1) else if name == b.0 then Some(b.1) else if name == c.0 then Some(c.1) else None
  {
    LookupSnoc([], c, name);
    LookupSnoc([c], a, name);
    LookupSnoc([c], b, name);
    LookupSnoc([c, b], a, name);
    assert [] + [c] == [c] && [c] + [a] == [c, a] && [c] + [b] == [c, b] && [c, b] + [a] == [c, b, a];
  }

  lemma CoreLooksUp(vars: Bindings, a: (string, string), b: (string, string), c: (string, string), m: (string,
      string), name: string)
    requires Probes(vars, a, b, c, m)
    ensures Lookup(Core(vars, a, b, c, m), name)
         == if name == m.0 then None else if name == c.0 then Some(c.1) else Lookup(vars, name)
  {
    WithoutLooksUp(vars, {a.0, b.0, m.0}, name);
    TailLooksUp(a, b, c, name);
    LookupConcat(Without(vars, {a.0, b.0, m.0}), Tail(a, b, c), name);
  }

  lemma CoreIsMap(vars: Bindings, a: (string, string), b: (string, string), c: (string, string), m: (string, string))
    requires Probes(vars, a, b, c, m)
    ensures IsMap(Core(vars, a, b, c, m))
  {
    var others := Without(vars, {a.0, b.0, m.0});
    var i := LookupIsBound(vars, a.0);
    var j := LookupIsBound(vars, b.0);
    WithoutIsMap(vars, {a.0, b.0, m.0});
    forall k | 0 <= k < |Tail(a, b, c)| ensures Lookup(others, Tail(a, b, c)[k].0) == None {
      WithoutLooksUp(vars, {a.0, b.0, m.0}, Tail(a, b, c)[k].0);
    }
    ConcatIsMap(others, Tail(a, b, c));
  }

  lemma LateLooksUp(vars: Bindings, a: (string, string), b: (string, string), c: (string, string), m: (string,
      string), name: string)
    requires Probes(vars, a, b, c, m)
    ensures var expected := if name == m.0 then Some(m.1) else if name == c.0 then Some(c.1) else Lookup(vars, name);
      Lookup(Core(vars, a, b, c, m) + [m], name) == expected && Lookup([m] + Core(vars, a, b, c, m), name) == expected
  {
    CoreLooksUp(vars, a, b, c, m, name);
    LookupSnoc(Core(vars, a, b, c, m), m, name);
    LookupConcat([m], Core(vars, a, b, c, m), name);
    LookupSnoc([], m, name);
    assert [] + [m] == [m];
  }

  lemma OrdersAreMaps(vars: Bindings, a: (string, string), b: (string, string), c: (string, string), m: (string, string))
    requires Probes(vars, a, b, c, m)
    ensures IsMap(Core(vars, a, b, c, m) + [m]) && IsMap([m] + Core(vars, a, b, c, m))
  {
    var core := Core(vars, a, b, c, m);
    CoreIsMap(vars, a, b, c, m);
    CoreLooksUp(vars, a, b, c, m, m.0);
    SnocIsMap(core, m);
    forall i | 0 <= i < |core| ensures Lookup([m], core[i].0) == None {
      BoundIsFound(core, i);
      LookupSnoc([], m, core[i].0);
      assert [] + [m] == [m];
    }
    ConcatIsMap([m], core);
  }

  lemma OrderExtends(vars: Bindings, a: (string, string), b: (string, string), c: (string, string), m: (string, string),
      larger: Bindings, strategy: EscapeStrategy)
    requires Probes(vars, a, b, c, m) && larger == Core(vars, a, b, c, m) + [m] && IsMap(larger)
    ensures Extends(vars, larger, strategy)
  {
    forall i | 0 <= i < |vars| ensures Lookup(larger, vars[i].0) == Some(vars[i].1) {
      LookupFinds(vars, i);
      LateLooksUp(vars, a, b, c, m, vars[i].0);
    }
    forall i | 0 <= i < |larger|
      ensures if Lookup(vars, larger[i].0).Some? then Lookup(vars, larger[i].0) == Some(larger[i].1)
              else Calm(Text(larger, strategy, i))
    {
      LookupFinds(larger, i);
      LateLooksUp(vars, a, b, c, m, larger[i].0);
      EscapingKeepsCalm("", strategy);
      EscapingKeepsCalm(c.1, strategy);
    }
  }

  lemma ProbeIsWritten(a: string, b: string, lit: string, last: string)
    requires BraceFree(a) && BraceFree(b) && BraceFree(lit) && BraceFree(last)
    ensures Written(Probe(a, b, lit, last))
  {
  }

  /** The template names none of the other keys. */
  lemma OthersAreUntouched(vars: Bindings, a: (string, string), b: (string, string), c: (string, string), m: (string,
      string),
      lit: string, strategy: EscapeStrategy)
    requires Probes(vars, a, b, c, m) && Written(Probe(a.0, b.0, lit, c.0))
    ensures var template := Flatten(Probe(a.0, b.0, lit, c.0));
      && Resolve(template, Without(vars, {a.0, b.0, m.0}), strategy) == template
      && Resolve(template, [m], strategy) == template
  {
    var pieces := Probe(a.0, b.0, lit, c.0);
    var others := Without(vars, {a.0, b.0, m.0});
    WithoutIsMap(vars, {a.0, b.0, m.0});
    forall i | 0 <= i < |others| ensures Hole(others[i].0) !in pieces {
      BoundIsFound(others, i);
      WithoutLooksUp(vars, {a.0, b.0, m.0}, others[i].0);
    }
    Untouched(pieces, others, strategy);
    Untouched(pieces, [m], strategy);
  }

  /** Replaced first, `m` changes nothing; replaced last, it changes the result. */
  lemma OrdersResolve(vars: Bindings, strategy: EscapeStrategy, a: (string, string), b: (string, string), c: (string,
      string),
      m: (string, string), lit: string, result: string)
    requires Probes(vars, a, b, c, m) && Written(Probe(a.0, b.0, lit, c.0))
    requires Resolve(Flatten(Probe(a.0, b.0, lit, c.0)), Tail(a, b, c), strategy) == result
    ensures Resolve(Flatten(Probe(a.0, b.0, lit, c.0)), [m] + Core(vars, a, b, c, m), strategy) == result
    ensures Resolve(Flatten(Probe(a.0, b.0, lit, c.0)), Core(vars, a, b, c, m) + [m], strategy) == Step(result, m, strategy)
  {
    var template := Flatten(Probe(a.0, b.0, lit, c.0));
    OthersAreUntouched(vars, a, b, c, m, lit, strategy);
    ResolveConcat(template, Without(vars, {a.0, b.0, m.0}), Tail(a, b, c), strategy);
    ResolveConcat(template, [m], Core(vars, a, b, c, m), strategy);
    ResolveSnoc(template, Core(vars, a, b, c, m), m, strategy);
  }

  lemma OrdersAreOne(vars: Bindings, a: (string, string), b: (string, string), c: (string, string), m: (string, string),
      strategy: EscapeStrategy)
    requires Probes(vars, a, b, c, m)
    ensures Extends(vars, Core(vars, a, b, c, m) + [m], strategy) && DistinctKeys([m] + Core(vars, a, b, c, m))
    ensures SameBindings(Core(vars, a, b, c, m) + [m], [m] + Core(vars, a, b, c, m))
  {
    OrdersAreMaps(vars, a, b, c, m);
    OrderExtends(vars, a, b, c, m, Core(vars, a, b, c, m) + [m], strategy);
    forall name ensures Lookup(Core(vars, a, b, c, m) + [m], name) == Lookup([m] + Core(vars, a, b, c, m), name) {
      LateLooksUp(vars, a, b, c, m, name);
    }
  }

  /** If a placeholder of `m` occurs in what the probe resolves to, the order in
      which `m` is replaced shows. */
  lemma ProbeShows(vars: Bindings, strategy: EscapeStrategy, a: (string, string), b: (string, string), c: (string, string),
      m: (string, string), lit: string, result: string)
    requires Probes(vars, a, b, c, m) && Written(Probe(a.0, b.0, lit, c.0))
    requires Resolve(Flatten(Probe(a.0, b.0, lit, c.0)), Tail(a, b, c), strategy) == result
    requires Occurs(Placeholder(m.0), result) && Substitution(m.1, strategy) != Placeholder(m.0)
    ensures OrderShows(vars, strategy)
  {
    OrdersResolve(vars, strategy, a, b, c, m, lit, result);
    OrdersAreOne(vars, a, b, c, m, strategy);
    ReplaceChanges(result, Placeholder(m.0), Substitution(m.1, strategy));
    assert ShowsIn(Probe(a.0, b.0, lit, c.0), vars, Core(vars, a, b, c, m) + [m], [m] + Core(vars, a, b, c, m), strategy);
  }

  // ---------------------------------------------------------------------------
  // Every opening text shows the order
  // ---------------------------------------------------------------------------

  /** A placeholder of `other` once `closing` follows the text behind the braces. */
  lemma OccursBehind(left: string, right: string, lit: string, closing: string, before: string, after: string,
      other: string)
    requires left + right == before + "{{" + after
    requires other + "}}" <= after + lit + closing
    ensures Occurs(Placeholder(other), Both(left, right, lit, closing))
  {
    var whole := Both(left, right, lit, closing);
    assert whole == (left + right) + lit + closing;
    assert whole == before + ("{{" + (after + lit + closing));
    assert whole[|before|..] == "{{" + (after + lit + closing);
    CommonPrefix("{{", other + "}}", after + lit + closing);
    assert Placeholder(other) == "{{" + (other + "}}");
  }

  /** The last character of shell-quoted text is a quote. */
  lemma QuotedEnd(value: string, after: string, strategy: EscapeStrategy)
    requires after != [] && after[|after| - 1] == '}' && |after| <= |Substitution(value, strategy)|
    requires Substitution(value, strategy)[|Substitution(value, strategy)| - 1] == after[|after| - 1]
    ensures strategy == Plain
  {
  }

  /** All keys in a row: anything longer is unbound. */
  function AllKeys(vars: Bindings): string {
    if vars == [] then [] else AllKeys(vars[..|vars| - 1]) + vars[|vars| - 1].0
  }

  lemma {:induction false} LongerIsUnbound(vars: Bindings, name: string)
    requires |name| > |AllKeys(vars)|
    ensures Lookup(vars, name) == None
  {
    if vars != [] {
      LongerIsUnbound(vars[..|vars| - 1], name);
    }
  }

  lemma {:induction false} AllKeysAreBraceFree(vars: Bindings)
    requires forall i :: 0 <= i < |vars| ==> BraceFree(vars[i].0)
    ensures BraceFree(AllKeys(vars))
  {
    if vars != [] {
      AllKeysAreBraceFree(vars[..|vars| - 1]);
    }
  }

  /** A name that is not bound, and longer than another. */
  lemma FreshName(vars: Bindings, other: string) returns (name: string)
    requires IsMap(vars) && BraceFree(other)
    ensures BraceFree(name) && Lookup(vars, name) == None && |name| > |other| && |name| > |AllKeys(vars)|
  {
    name := AllKeys(vars) + other + "x";
    AllKeysAreBraceFree(vars);
    LongerIsUnbound(vars, name);
  }

  /** A replacement that changes texts can be shown to. */
  lemma ChangesShows(vars: Bindings, strategy: EscapeStrategy, name: string)
    requires Changes(vars, strategy, name)
    ensures Substitution(BindingOf(vars, name).1, strategy) != Placeholder(name)
  {
    if Lookup(vars, name).None? {
      assert |Substitution("", strategy)| < |Placeholder(name)|;
    }
  }

  /** The two texts can be pasted side by side: one key twice, or a first text that ends
      in a brace and a second that opens nothing inside. */
  predicate PasteSideBySide(vars: Bindings, strategy: EscapeStrategy, k: nat, l: nat)
    requires k < |vars| && l < |vars|
  {
    k == l || (Ends(Text(vars, strategy, k)) && !OpensInside(vars, strategy, l))
  }

  lemma TailResolves(vars: Bindings, strategy: EscapeStrategy, k: nat, l: nat, lit: string, c: (string, string))
    requires IsMap(vars) && k < |vars| && l < |vars| && PasteSideBySide(vars, strategy, k, l)
    requires BraceFree(lit) && BraceFree(c.0) && Lookup(vars, c.0) == None && '{' !in c.1
    ensures Resolve(Flatten(Probe(vars[k].0, vars[l].0, lit, c.0)), Tail(vars[k], vars[l], c), strategy)
         == Both(Text(vars, strategy, k), Text(vars, strategy, l), lit, Substitution(c.1, strategy))
  {
    LookupFinds(vars, k);
    LookupFinds(vars, l);
    if k == l {
      OneKeyResolves(vars[k], lit, c, strategy);
    } else {
      EscapingKeepsCalm(c.1, strategy);
      var behind := lit + Substitution(c.1, strategy);
      NoBraceBehind(behind, vars[k].0);
      var own := Placeholder(vars[k].0);
      assert own[|own| - 1] == '}';
      TextIsDead(vars, strategy, l, behind, vars[k].0);
      TwoKeysResolve(vars[k], vars[l], lit, c, strategy);
    }
  }

  lemma NoBraceBehind(behind: string, key: string)
    requires '{' !in behind
    ensures !(Placeholder(key) <= "{" + behind)
  {
    if behind != [] {
      StartsWithBraces("{" + behind, key);
    }
  }

  lemma ClosableShows(vars: Bindings, strategy: EscapeStrategy, k: nat, l: nat, before: string, after: string)
    requires IsMap(vars) && k < |vars| && l < |vars| && PasteSideBySide(vars, strategy, k, l)
    requires Closable(vars, strategy, vars[k].0, vars[l].0, after) && |after| <= |Text(vars, strategy, l)|
    requires Text(vars, strategy, k) + Text(vars, strategy, l) == before + "{{" + after
    ensures OrderShows(vars, strategy)
  {
    var name := Name(after);
    var rest := after[|name|..];
    assert after == name + rest;
    if rest == [] {
      EndShows(vars, strategy, k, l, before, after);
    } else if "}}" <= rest {
      CommonPrefix(name, "}}", rest + Substitution("", strategy));
      assert after + "" + Substitution("", strategy) == name + (rest + Substitution("", strategy));
      NameShows(vars, strategy, k, l, before, after, name, "");
    } else {
      HalfClosedIsPlain(vars, strategy, k, l, before, after);
      assert after + "" + Substitution("}", strategy) == name + "}}";
      NameShows(vars, strategy, k, l, before, after, name, "}");
    }
  }

  lemma HalfClosedIsPlain(vars: Bindings, strategy: EscapeStrategy, k: nat, l: nat, before: string, after: string)
    requires k < |vars| && l < |vars| && after != [] && after[|after| - 1] == '}' && |after| <= |Text(vars, strategy, l)|
    requires Text(vars, strategy, k) + Text(vars, strategy, l) == before + "{{" + after
    ensures strategy == Plain
  {
    var whole := Text(vars, strategy, k) + Text(vars, strategy, l);
    assert whole[|whole| - 1] == Text(vars, strategy, l)[|Text(vars, strategy, l)| - 1];
    assert (before + "{{" + after)[|whole| - 1] == after[|after| - 1];
    QuotedEnd(vars[l].1, after, strategy);
  }

  lemma NameShows(vars: Bindings, strategy: EscapeStrategy, k: nat, l: nat, before: string, after: string, name: string,
      closer: string)
    requires IsMap(vars) && k < |vars| && l < |vars| && PasteSideBySide(vars, strategy, k, l)
    requires Text(vars, strategy, k) + Text(vars, strategy, l) == before + "{{" + after
    requires BraceFree(name) && name != vars[k].0 && name != vars[l].0 && Changes(vars, strategy, name)
    requires '{' !in closer && name + "}}" <= after + "" + Substitution(closer, strategy)
    ensures OrderShows(vars, strategy)
  {
    var last := FreshName(vars, name);
    SideBySideShows(vars, strategy, k, l, before, after, name, "", (last, closer));
  }

  /** Open to its end, the text takes any name and then closing braces. */
  lemma EndShows(vars: Bindings, strategy: EscapeStrategy, k: nat, l: nat, before: string, after: string)
    requires IsMap(vars) && k < |vars| && l < |vars| && PasteSideBySide(vars, strategy, k, l) && BraceFree(after)
    requires Text(vars, strategy, k) + Text(vars, strategy, l) == before + "{{" + after
    ensures OrderShows(vars, strategy)
  {
    var quote := if strategy == Shell then "'" else "";
    var closing := Substitution("}}", strategy);
    QuotedBraces();
    assert closing == quote + "}}" + quote;
    var lit := FreshName(vars, "");
    var name := after + lit + quote;
    LongerIsUnbound(vars, name);
    var last := FreshName(vars, name);
    assert after + lit + closing == name + "}}" + quote;
    LookupFinds(vars, k);
    LookupFinds(vars, l);
    SideBySideShows(vars, strategy, k, l, before, after, name, lit, (last, "}}"));
  }

  lemma SideBySideShows(vars: Bindings, strategy: EscapeStrategy, k: nat, l: nat, before: string, after: string,
      name: string,
      lit: string, c: (string, string))
    requires IsMap(vars) && k < |vars| && l < |vars| && PasteSideBySide(vars, strategy, k, l)
    requires Text(vars, strategy, k) + Text(vars, strategy, l) == before + "{{" + after
    requires BraceFree(name) && name != vars[k].0 && name != vars[l].0 && Changes(vars, strategy, name)
    requires BraceFree(lit) && BraceFree(c.0) && Lookup(vars, c.0) == None && c.0 != name && '{' !in c.1
    requires name + "}}" <= after + lit + Substitution(c.1, strategy)
    ensures OrderShows(vars, strategy)
  {
    LookupFinds(vars, k);
    LookupFinds(vars, l);
    OccursBehind(Text(vars, strategy, k), Text(vars, strategy, l), lit, Substitution(c.1, strategy), before, after, name);
    TailResolves(vars, strategy, k, l, lit, c);
    ChangesShows(vars, strategy, name);
    ProbeIsWritten(vars[k].0, vars[l].0, lit, c.0);
    ProbeShows(vars, strategy, vars[k], vars[l], c, BindingOf(vars, name), lit,
      Both(Text(vars, strategy, k), Text(vars, strategy, l), lit, Substitution(c.1, strategy)));
  }

  lemma QuotedBraces()
    ensures Substitution("}}", Shell) == "'" + "}}" + "'"
  {
    assert "}}"[1..] == "}" && "}"[1..] == "";
    var quoted := "'\\''";
    assert Replace("", "'", quoted) == "";
    assert "'"[0] != "}"[0] && "'"[0] != "}}"[0];
    assert Replace("}", "'", quoted) == "}" + "";
    assert Replace("}}", "'", quoted) == "}" + "}";
  }

  lemma OpensInsideShows(vars: Bindings, strategy: EscapeStrategy, k: nat, i: nat)
    requires IsMap(vars) && k < |vars| && OpensAt(vars, strategy, k, i)
    ensures OrderShows(vars, strategy)
  {
    var text := Text(vars, strategy, k);
    assert text == text[..i] + "{{" + text[i + 2..];
    assert text + text == (text + text[..i]) + "{{" + text[i + 2..];
    ClosableShows(vars, strategy, k, k, text + text[..i], text[i + 2..]);
  }

  lemma OpensAcrossShows(vars: Bindings, strategy: EscapeStrategy, k: nat, l: nat)
    requires IsMap(vars) && k < |vars| && l < |vars| && OpensAcross(vars, strategy, k, l) && !OpensInside(vars, strategy, l)
    ensures OrderShows(vars, strategy)
  {
    var left, right := Text(vars, strategy, k), Text(vars, strategy, l);
    var before, after := left[..|left| - 1], right[1..];
    assert left == before + "{" && right == "{" + after;
    assert before + "{" + ("{" + after) == before + "{{" + after;
    ClosableShows(vars, strategy, k, l, before, after);
  }

  lemma OpensShows(vars: Bindings, strategy: EscapeStrategy)
    requires IsMap(vars) && Opens(vars, strategy)
    ensures OrderShows(vars, strategy)
  {
    if k :| 0 <= k < |vars| && OpensInside(vars, strategy, k) {
      var i :| 0 <= i < |Text(vars, strategy, k)| && OpensAt(vars, strategy, k, i);
      OpensInsideShows(vars, strategy, k, i);
    } else {
      var k, l :| 0 <= k < |vars| && 0 <= l < |vars| && OpensAcross(vars, strategy, k, l);
      OpensAcrossShows(vars, strategy, k, l);
    }
  }

  /** The iteration order of a map, or of one that binds further keys to values that
      open nothing, shows in some written template if and only if some text it pastes
      opens a placeholder. */
  lemma OrderShowsIffOpens(vars: Bindings, strategy: EscapeStrategy)
    requires IsMap(vars)
    ensures OrderShows(vars, strategy) <==> Opens(vars, strategy)
  {
    if Opens(vars, strategy) {
      OpensShows(vars, strategy);
    } else if OrderShows(vars, strategy) {
      var pieces, one, two :| ShowsIn(pieces, vars, one, two, strategy);
      StaysSafe(vars, one, strategy);
      OrderIsIrrelevant(pieces, one, two, strategy);
    }
  }

  // ---------------------------------------------------------------------------
  // What a pasted value adds to the unresolved names
  // ---------------------------------------------------------------------------

  lemma {:induction false} FindIsFirst(text: string, needle: string, j: nat)
    requires j <= |text| && needle <= text[j..]
    ensures Find(text, needle).Some? && Find(text, needle).value <= j
    ensures var i := Find(text, needle).value; i + |needle| <= |text| && needle <= text[i..]
    decreases |text|
  {
    if needle <= text {
      assert text[0..] == text;
    } else {
      assert text[0..] == text && text[1..][j - 1..] == text[j..];
      FindIsFirst(text[1..], needle, j - 1);
      assert text[1..][Find(text[1..], needle).value..] == text[Find(text[1..], needle).value + 1..];
    }
  }

  /** A hole at the end of the text is always found. */
  lemma HoleIsFound(before: string, name: string)
    ensures NextVar(before + Placeholder(name)).Some?
  {
    var whole := before + Placeholder(name);
    assert whole[|before|..] == "{{" + (name + "}}");
    FindIsFirst(whole, "{{", |before|);
    var start := Find(whole, "{{").value;
    var after := whole[start + 2..];
    assert after[|after| - 2..] == "}}" by {
      assert after[|after| - 2..] == whole[|whole| - 2..];
    }
    FindIsFirst(after, "}}", |after| - 2);
  }

  /** A name found before the hole leaves the hole to be found. */
  lemma HoleIsLeft(text: string, name: string, start: nat, end: nat)
    requires start + end + 4 <= |text|
    ensures var after := (text + Placeholder(name))[start + 2..];
      end + 2 <= |after| && |UnresolvedVars(after[end + 2..])| > 0
  {
    var after := (text + Placeholder(name))[start + 2..];
    var g := start + 2 + end;
    assert after[end + 2..] == text[g + 2..] + Placeholder(name);
    HoleIsFound(text[g + 2..], name);
  }

  /** The scan's first name either ends before the hole, or runs into it. */
  lemma NameEndsBeforeHole(text: string, name: string, start: nat, end: nat)
    requires BraceFree(name) && start < |text| && start + 4 + end <= |text + Placeholder(name)|
    requires "}}" <= (text + Placeholder(name))[start + 2..][end..]
    ensures start + end + 4 <= |text| || end > |name|
  {
    var whole := text + Placeholder(name);
    var g := start + 2 + end;
    assert whole[start + 2..][end..] == whole[g..];
    assert whole[g] == whole[g..][0] && whole[g + 1] == whole[g..][1];
    assert whole[|text|] == '{';
    if g >= |text| {
      NoBraceBefore(text, name, g);
    }
  }

  /** Text that is not closed opens a placeholder with the hole behind it. */
  lemma OpenBehind(text: string, name: string) returns (j: nat)
    requires !Closed(text)
    ensures j < |text| && "{{" <= (text + Placeholder(name))[j..]
  {
    j :| 0 <= j < |text| && text[j] == '{' && (j + 1 < |text| ==> text[j + 1] == '{');
    var whole := text + Placeholder(name);
    assert whole[j] == '{' && whole[j + 1] == '{';
  }

  /** Then the scan's first name starts in the text. */
  lemma FirstName(text: string, name: string) returns (start: nat, end: nat)
    requires !Closed(text)
    ensures start < |text| && start + 4 + end <= |text + Placeholder(name)|
    ensures var after := (text + Placeholder(name))[start + 2..];
      "}}" <= after[end..] && NextVar(text + Placeholder(name)) == Some((after[..end], after[end + 2..]))
  {
    var whole := text + Placeholder(name);
    var j := OpenBehind(text, name);
    FindIsFirst(whole, "{{", j);
    HoleIsFound(text, name);
    start := Find(whole, "{{").value;
    end := Find(whole[start + 2..], "}}").value;
    FoundAt(whole[start + 2..], "}}");
  }

  lemma MoreThanName(first: string, rest: seq<string>, name: string)
    requires |first| != |name| || |rest| > 0
    ensures [first] + rest != [name]
  {
    assert |[first] + rest| == 1 + |rest| && ([first] + rest)[0] == first;
  }

  /** Text that is not closed, with a hole behind it, yields more than that hole's name. */
  lemma OpenTextAddsNames(text: string, name: string)
    requires !Closed(text) && BraceFree(name)
    ensures UnresolvedVars(text + Placeholder(name)) != [name]
  {
    var start, end := FirstName(text, name);
    var after := (text + Placeholder(name))[start + 2..];
    NameEndsBeforeHole(text, name, start, end);
    if start + end + 4 <= |text| {
      HoleIsLeft(text, name, start, end);
    }
    MoreThanName(after[..end], UnresolvedVars(after[end + 2..]), name);
  }

  lemma FoundAt(text: string, needle: string)
    requires Find(text, needle).Some?
    ensures needle <= text[Find(text, needle).value..]
  {
    if needle <= text {
      assert text[0..] == text;
    } else {
      FoundAt(text[1..], needle);
      assert text[1..][Find(text[1..], needle).value..] == text[Find(text[1..], needle).value + 1..];
    }
  }

  lemma NoBraceInName(text: string, name: string, k: nat)
    requires BraceFree(name) && k < 2 + |name|
    ensures (text + Placeholder(name))[|text| + k] != '}'
  {
    var opening := "{{" + name;
    assert (text + Placeholder(name))[|text| + k] == Placeholder(name)[k] == opening[k];
  }

  /** The only closing braces of a hole are at its end. */
  lemma NoBraceBefore(text: string, name: string, g: nat)
    requires BraceFree(name) && |text| <= g < |text + Placeholder(name)| && (text + Placeholder(name))[g] == '}'
    ensures g >= |text| + 2 + |name|
  {
    if g < |text| + 2 + |name| {
      NoBraceInName(text, name, g - |text|);
    }
  }

  /** For one binding: what is found unresolved is exactly what is unbound, in every
      written template, if and only if the value is replaced with closed text. */
  lemma UnresolvedIffClosed(key: string, value: string, strategy: EscapeStrategy)
    requires BraceFree(key)
    ensures Closed(Substitution(value, strategy)) <==>
      forall pieces :: Written(pieces) ==>
        UnresolvedVars(Resolve(Flatten(pieces), [(key, value)], strategy)) == UnboundNames(pieces, [(key, value)])
  {
    var vars := [(key, value)];
    var text := Substitution(value, strategy);
    if Closed(text) {
      forall pieces | Written(pieces)
        ensures UnresolvedVars(Resolve(Flatten(pieces), vars, strategy)) == UnboundNames(pieces, vars)
      {
        UnresolvedAfterResolve(pieces, vars, strategy);
      }
    } else {
      var last := key + "x";
      assert |last| != |key|;
      OneThenHole(key, value, strategy, last);
      OpenTextAddsNames(text, last);
    }
  }

  lemma OneThenHole(key: string, value: string, strategy: EscapeStrategy, last: string)
    requires BraceFree(key) && BraceFree(last) && key != last
    ensures var pieces := [Hole(key), Hole(last)];
      && Written(pieces) && UnboundNames(pieces, [(key, value)]) == [last]
      && Resolve(Flatten(pieces), [(key, value)], strategy) == Substitution(value, strategy) + Placeholder(last)
  {
    var pieces := [Hole(key), Hole(last)];
    var text := Substitution(value, strategy);
    ResolveSnoc(Flatten(pieces), [], (key, value), strategy);
    assert [] + [(key, value)] == [(key, value)];
    FlattenCons(Hole(last), []);
    FlattenCons(Hole(key), [Hole(last)]);
    assert [Hole(last)] + [] == [Hole(last)] && [Hole(key)] + [Hole(last)] == pieces;
    ReplaceHole(key, Placeholder(last), key, text);
    ReplaceHole(last, "", key, text);
    assert Placeholder(last) + "" == Placeholder(last);
    UnboundLast(key, value, last);
  }

  lemma UnboundLast(key: string, value: string, last: string)
    requires key != last
    ensures UnboundNames([Hole(key), Hole(last)], [(key, value)]) == [last]
  {
    LookupSnoc([], (key, value), key);
    LookupSnoc([], (key, value), last);
    assert [] + [(key, value)] == [(key, value)];
    assert [Hole(key), Hole(last)][1..] == [Hole(last)];
    assert UnboundNames([Hole(last)], [(key, value)]) == [last];
  }
}
