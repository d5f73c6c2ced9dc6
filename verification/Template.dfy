/** Template resolution (src/gates/template.rs): `{{key}}` placeholders are
    replaced key by key, in whatever order a hash map yields its entries. */
module Template {
  import opened Wrappers

  datatype EscapeStrategy = Shell | Plain

  /** The bindings of a hash map in one iteration order. */
  type Bindings = seq<(string, string)>

  // ---------------------------------------------------------------------------
  // Text operations
  // ---------------------------------------------------------------------------

  /** Rust's `str::replace`: leftmost matches first, never overlapping. */
  function Replace(text: string, pattern: string, substitute: string): string
    requires pattern != []
    decreases |text|
  {
    if |text| < |pattern| then text
    else if pattern <= text then substitute + Replace(text[|pattern|..], pattern, substitute)
    else [text[0]] + Replace(text[1..], pattern, substitute)
  }

  /** POSIX single-quoting: an interior quote closes, escapes and reopens. */
  function ShellEscape(s: string): string {
    "'" + Replace(s, "'", "'\\''") + "'"
  }

  function Substitution(value: string, strategy: EscapeStrategy): string {
    match strategy
    case Shell => ShellEscape(value)
    case Plain => value
  }

  function Placeholder(key: string): string {
    "{{" + key + "}}"
  }

  /** The position of the first `needle`, if there is one. */
  function Find(text: string, needle: string): Option<nat>
    ensures Find(text, needle).Some? ==> Find(text, needle).value + |needle| <= |text|
    decreases |text|
  {
    if needle <= text then Some(0)
    else if text == [] then None
    else
      match Find(text[1..], needle)
      case None => None
      case Some(i) => Some(i + 1)
  }

  /** `needle` stands at `i`, and nowhere before. */
  ghost predicate FirstAt(text: string, needle: string, i: nat) {
    i <= |text| && needle <= text[i..] && forall k :: 0 <= k < i ==> !(needle <= text[k..])
  }

  lemma {:induction false} FindIsExact(text: string, needle: string, i: nat)
    ensures Find(text, needle) == Some(i) <==> FirstAt(text, needle, i)
    ensures Find(text, needle).None? ==> !(needle <= text)
  {
    assert text[0..] == text;
    if !(needle <= text) && text != [] {
      if i > 0 {
        FindIsExact(text[1..], needle, i - 1);
        FirstLater(text, needle, i);
      } else {
        FindIsExact(text[1..], needle, 0);
      }
    }
  }

  lemma FirstLater(text: string, needle: string, i: nat)
    requires text != [] && i > 0 && !(needle <= text)
    ensures FirstAt(text, needle, i) <==> FirstAt(text[1..], needle, i - 1)
  {
    assert text[0..] == text;
    assert forall k :: 0 <= k < |text| ==> text[1..][k..] == text[k + 1..];
    if FirstAt(text, needle, i) {
      forall k | 0 <= k < i - 1 ensures !(needle <= text[1..][k..]) {
        assert !(needle <= text[k + 1..]);
      }
    }
    if FirstAt(text[1..], needle, i - 1) {
      forall k | 0 <= k < i ensures !(needle <= text[k..]) {
        assert k > 0 ==> text[k..] == text[1..][k - 1..];
      }
    }
  }

  // ---------------------------------------------------------------------------
  // The two operations
  // ---------------------------------------------------------------------------

  function Resolve(template: string, vars: Bindings, strategy: EscapeStrategy): string
    decreases |vars|
  {
    if vars == [] then template
    else
      var n := |vars| - 1;
      Replace(Resolve(template, vars[..n], strategy), Placeholder(vars[n].0), Substitution(vars[n].1, strategy))
  }

  method ResolveTemplateWith(template: string, vars: Bindings, strategy: EscapeStrategy) returns (result: string)
    ensures result == Resolve(template, vars, strategy)
  {
    result := template;
    for i := 0 to |vars|
      invariant result == Resolve(template, vars[..i], strategy)
    {
      assert vars[..i + 1][..i] == vars[..i];
      result := Replace(result, Placeholder(vars[i].0), Substitution(vars[i].1, strategy));
    }
    assert vars[..|vars|] == vars;
  }

  /** The first name between a `{{` and the `}}` that follows it, and the text after. */
  function NextVar(text: string): Option<(string, string)>
    ensures NextVar(text).Some? ==> |NextVar(text).value.1| < |text|
  {
    match Find(text, "{{")
    case None => None
    case Some(start) =>
      var after := text[start + 2..];
      match Find(after, "}}")
      case None => None
      case Some(end) => Some((after[..end], after[end + 2..]))
  }

  /** The next name stands between the first `{{` and the first `}}` behind it. */
  lemma NextVarIsExact(text: string, name: string, rest: string)
    ensures NextVar(text) == Some((name, rest)) <==> exists i: nat, j: nat :: NameAt(text, i, j, name, rest)
  {
    if i: nat, j: nat :| NameAt(text, i, j, name, rest) {
      NameIsNext(text, i, j, name, rest);
    }
    if NextVar(text) == Some((name, rest)) {
      NextIsNamed(text);
    }
  }

  lemma NameIsNext(text: string, i: nat, j: nat, name: string, rest: string)
    requires NameAt(text, i, j, name, rest)
    ensures NextVar(text) == Some((name, rest))
  {
    FindIsExact(text, "{{", i);
    FindIsExact(text[i + 2..], "}}", j);
  }

  lemma NextIsNamed(text: string)
    requires NextVar(text).Some?
    ensures exists i: nat, j: nat :: NameAt(text, i, j, NextVar(text).value.0, NextVar(text).value.1)
  {
    var i := Find(text, "{{").value;
    var j := Find(text[i + 2..], "}}").value;
    FindIsExact(text, "{{", i);
    FindIsExact(text[i + 2..], "}}", j);
    assert NameAt(text, i, j, NextVar(text).value.0, NextVar(text).value.1);
  }

  ghost predicate NameAt(text: string, i: nat, j: nat, name: string, rest: string) {
    && i + 2 <= |text| && FirstAt(text, "{{", i)
    && var after := text[i + 2..];
    && j + 2 <= |after| && FirstAt(after, "}}", j) && name == after[..j] && rest == after[j + 2..]
  }

  function UnresolvedVars(text: string): seq<string>
    decreases |text|
  {
    match NextVar(text)
    case None => []
    case Some((name, rest)) => [name] + UnresolvedVars(rest)
  }

  method FindUnresolvedVars(resolved: string) returns (names: seq<string>)
    ensures names == UnresolvedVars(resolved)
  {
    names := [];
    var rest := resolved;
    while true
      invariant UnresolvedVars(resolved) == names + UnresolvedVars(rest)
      decreases |rest|
    {
      var next := NextVar(rest);
      if next.None? {
        assert names + [] == names;
        return;
      }
      var (name, remaining) := next.value;
      assert names + ([name] + UnresolvedVars(remaining)) == (names + [name]) + UnresolvedVars(remaining);
      names := names + [name];
      rest := remaining;
    }
  }

  // ---------------------------------------------------------------------------
  // Templates as they are meant: literal text and holes
  // ---------------------------------------------------------------------------

  datatype Piece = Lit(text: string) | Hole(name: string)

  predicate BraceFree(s: string) {
    '{' !in s && '}' !in s
  }

  /** A written template: neither its literals nor its placeholder names hold a brace. */
  predicate Written(pieces: seq<Piece>) {
    forall p :: p in pieces ==> BraceFree(if p.Lit? then p.text else p.name)
  }

  function Show(p: Piece): string {
    match p
    case Lit(text) => text
    case Hole(name) => Placeholder(name)
  }

  function Flatten(pieces: seq<Piece>): string {
    if pieces == [] then [] else Show(pieces[0]) + Flatten(pieces[1..])
  }

  /** The value bound to `key`. Keys of a hash map are distinct. */
  function Lookup(vars: Bindings, key: string): Option<string> {
    if vars == [] then None
    else
      var n := |vars| - 1;
      if vars[n].0 == key then Some(vars[n].1) else Lookup(vars[..n], key)
  }

  predicate DistinctKeys(vars: Bindings) {
    forall i, j :: 0 <= i < j < |vars| ==> vars[i].0 != vars[j].0
  }

  // ---------------------------------------------------------------------------
  // What a pasted text can do
  // ---------------------------------------------------------------------------

  /** Each `c` in the text is followed, within the text, by something else. */
  predicate Apart(text: string, c: char) {
    forall i :: 0 <= i < |text| && text[i] == c ==> i + 1 < |text| && text[i + 1] != c
  }

  /** No `{{` and no `{` at the end: nothing that starts here is a placeholder. */
  predicate Closed(text: string) {
    Apart(text, '{')
  }

  predicate Begins(text: string) {
    text != [] && text[0] == '{'
  }

  predicate Ends(text: string) {
    text != [] && text[|text| - 1] == '{'
  }

  /** The text up to its first brace. */
  function Name(text: string): (name: string)
    ensures name <= text && BraceFree(name)
    ensures |name| < |text| ==> text[|name|] == '{' || text[|name|] == '}'
  {
    if text == [] || text[0] == '{' || text[0] == '}' then [] else [text[0]] + Name(text[1..])
  }

  /** Text that opens nothing where it stands, whatever stands before it. */
  predicate Calm(text: string) {
    Closed(text) && !Begins(text)
  }

  /** What the `k`-th key is replaced with. */
  function Text(vars: Bindings, strategy: EscapeStrategy, k: nat): string
    requires k < |vars|
  {
    Substitution(vars[k].1, strategy)
  }

  /** Replacing the name, bound here or not, can change a text: it is not replaced
      with its own placeholder. */
  predicate Changes(vars: Bindings, strategy: EscapeStrategy, name: string) {
    match Lookup(vars, name)
    case None => true
    case Some(value) => Substitution(value, strategy) != Placeholder(name)
  }

  /** What follows a `{{` can make it the placeholder of a third key, given the right
      text behind it. */
  predicate Closable(vars: Bindings, strategy: EscapeStrategy, a: string, b: string, after: string) {
    var name := Name(after);
    var rest := after[|name|..];
    rest == [] || ((rest == "}" || "}}" <= rest) && name != a && name != b && Changes(vars, strategy, name))
  }

  /** A `{{` inside the `k`-th text can become a placeholder of another key. */
  predicate OpensInside(vars: Bindings, strategy: EscapeStrategy, k: nat)
    requires k < |vars|
  {
    exists i :: 0 <= i < |Text(vars, strategy, k)| && OpensAt(vars, strategy, k, i)
  }

  predicate OpensAt(vars: Bindings, strategy: EscapeStrategy, k: nat, i: nat)
    requires k < |vars|
  {
    var text := Text(vars, strategy, k);
    && i + 2 <= |text| && text[i] == '{' && text[i + 1] == '{'
    && Closable(vars, strategy, vars[k].0, vars[k].0, text[i + 2..])
  }

  /** So can one across the end of the `k`-th text and the beginning of the `l`-th. */
  predicate OpensAcross(vars: Bindings, strategy: EscapeStrategy, k: nat, l: nat)
    requires k < |vars| && l < |vars|
  {
    && Ends(Text(vars, strategy, k)) && Begins(Text(vars, strategy, l))
    && Closable(vars, strategy, vars[k].0, vars[l].0, Text(vars, strategy, l)[1..])
  }

  /** Some pasted text can become part of a placeholder of another key. */
  predicate Opens(vars: Bindings, strategy: EscapeStrategy) {
    || (exists k :: 0 <= k < |vars| && OpensInside(vars, strategy, k))
    || (exists k, l :: 0 <= k < |vars| && 0 <= l < |vars| && OpensAcross(vars, strategy, k, l))
  }

  /** The bindings of a map with brace-free keys. */
  predicate IsMap(vars: Bindings) {
    DistinctKeys(vars) && forall i :: 0 <= i < |vars| ==> BraceFree(vars[i].0)
  }

  predicate SafeBindings(vars: Bindings, strategy: EscapeStrategy) {
    IsMap(vars) && !Opens(vars, strategy)
  }

  /** Simultaneous substitution: each hole is looked up once, in the whole map. */
  function Fill(pieces: seq<Piece>, vars: Bindings, strategy: EscapeStrategy): seq<Piece> {
    if pieces == [] then []
    else [FillPiece(pieces[0], vars, strategy)] + Fill(pieces[1..], vars, strategy)
  }

  function FillPiece(p: Piece, vars: Bindings, strategy: EscapeStrategy): Piece {
    match p
    case Lit(_) => p
    case Hole(name) =>
      match Lookup(vars, name)
      case None => p
      case Some(value) => Lit(Substitution(value, strategy))
  }

  function UnboundNames(pieces: seq<Piece>, vars: Bindings): seq<string> {
    if pieces == [] then []
    else
      (if pieces[0].Hole? && Lookup(vars, pieces[0].name).None? then [pieces[0].name] else [])
      + UnboundNames(pieces[1..], vars)
  }

  // ---------------------------------------------------------------------------
  // One replacement fills one key's holes
  // ---------------------------------------------------------------------------

  /** No match of the pattern starts within the text. */
  predicate Dead(text: string, rest: string, pattern: string) {
    forall j :: 0 <= j < |text| ==> !(pattern <= text[j..] + rest)
  }

  lemma DeadTail(text: string, rest: string, pattern: string)
    requires text != [] && Dead(text, rest, pattern)
    ensures !(pattern <= text + rest) && Dead(text[1..], rest, pattern)
  {
    assert text[0..] == text;
    forall j | 0 <= j < |text[1..]| ensures text[1..][j..] == text[j + 1..] {
    }
  }

  /** Text in which no match starts is copied. */
  lemma {:induction false} ReplaceSkips(text: string, rest: string, pattern: string, substitute: string)
    requires pattern != [] && Dead(text, rest, pattern)
    ensures Replace(text + rest, pattern, substitute) == text + Replace(rest, pattern, substitute)
    decreases |text|
  {
    if text == [] {
      assert text + rest == rest;
    } else {
      var whole := text + rest;
      assert whole[1..] == text[1..] + rest;
      DeadTail(text, rest, pattern);
      if |whole| >= |pattern| {
        ReplaceSkips(text[1..], rest, pattern, substitute);
        assert [text[0]] + (text[1..] + Replace(rest, pattern, substitute)) == text + Replace(rest, pattern, substitute);
      }
    }
  }

  lemma ClosedIsDead(text: string, rest: string, key: string)
    requires Closed(text)
    ensures Dead(text, rest, Placeholder(key))
  {
    var pattern := Placeholder(key);
    assert pattern[0] == '{' && pattern[1] == '{';
    forall j | 0 <= j < |text| ensures !(pattern <= text[j..] + rest) {
      var whole := text[j..] + rest;
      assert whole[0] == text[j];
      assert text[j] == '{' ==> whole[1] == text[j + 1];
    }
  }

  /** Two brace-free names before a `}}` can only agree by being equal. */
  lemma PlaceholderPrefix(key: string, name: string, rest: string)
    requires BraceFree(key) && BraceFree(name)
    ensures Placeholder(key) <= Placeholder(name) + rest <==> key == name
  {
    var whole := Placeholder(name) + rest;
    var pattern := Placeholder(key);
    if key == name {
      assert whole[..|pattern|] == pattern;
    } else if |key| < |name| {
      assert name[|key|] in name;
      assert pattern[|key| + 2] == '}' && whole[|key| + 2] == name[|key|];
    } else if |name| < |key| {
      assert key[|name|] in key;
      assert pattern[|name| + 2] == key[|name|] && whole[|name| + 2] == '}';
    } else {
      var i :| 0 <= i < |key| && key[i] != name[i];
      assert pattern[i + 2] == key[i] && whole[i + 2] == name[i];
    }
  }

  /** No other key's placeholder starts within a hole: neither `{{name` nor
      `{name` starts one, and the rest of it holds no opening brace. */
  lemma HoleIsDead(name: string, rest: string, key: string)
    requires BraceFree(key) && BraceFree(name) && name != key
    ensures Dead(Placeholder(name), rest, Placeholder(key))
  {
    var hole, pattern := Placeholder(name), Placeholder(key);
    PlaceholderPrefix(key, name, rest);
    assert pattern[0] == '{' && pattern[1] == '{';
    assert forall j :: 0 <= j < |name| ==> hole[j + 2] == name[j];
    forall j | 0 <= j < |hole| ensures !(pattern <= hole[j..] + rest) {
      var whole := hole[j..] + rest;
      assert whole[0] == hole[j];
      if j == 0 {
        assert whole == hole + rest;
      } else if j == 1 {
        assert whole[1] == hole[2];
      }
    }
  }

  lemma ReplaceHole(name: string, rest: string, key: string, substitute: string)
    requires BraceFree(key) && BraceFree(name)
    ensures Replace(Placeholder(name) + rest, Placeholder(key), substitute)
         == (if name == key then substitute else Placeholder(name)) + Replace(rest, Placeholder(key), substitute)
  {
    if name == key {
      assert (Placeholder(name) + rest)[|Placeholder(key)|..] == rest;
    } else {
      HoleIsDead(name, rest, key);
      ReplaceSkips(Placeholder(name), rest, Placeholder(key), substitute);
    }
  }

  function FillOne(pieces: seq<Piece>, key: string, substitute: string): seq<Piece> {
    if pieces == [] then []
    else [if pieces[0] == Hole(key) then Lit(substitute) else pieces[0]] + FillOne(pieces[1..], key, substitute)
  }

  /** Names are brace-free, and no placeholder of `key` starts in a literal. */
  predicate AllDead(pieces: seq<Piece>, key: string) {
    forall i :: 0 <= i < |pieces| ==>
      if pieces[i].Lit? then Dead(pieces[i].text, Flatten(pieces[i + 1..]), Placeholder(key)) else BraceFree(pieces[i].name)
  }

  lemma {:induction false} ReplaceFillsOne(pieces: seq<Piece>, key: string, substitute: string)
    requires AllDead(pieces, key) && BraceFree(key)
    ensures Replace(Flatten(pieces), Placeholder(key), substitute) == Flatten(FillOne(pieces, key, substitute))
  {
    if pieces != [] {
      var rest := Flatten(pieces[1..]);
      forall i | 0 <= i < |pieces[1..]| ensures pieces[1..][i] == pieces[i + 1] && pieces[1..][i + 1..] == pieces[i + 2..] {
      }
      ReplaceFillsOne(pieces[1..], key, substitute);
      match pieces[0]
      case Lit(text) => ReplaceSkips(text, rest, Placeholder(key), substitute);
      case Hole(name) => ReplaceHole(name, rest, key, substitute);
    }
  }

  // ---------------------------------------------------------------------------
  // Templates part way through resolution
  // ---------------------------------------------------------------------------

  predicate AllClosed(pieces: seq<Piece>) {
    forall i :: 0 <= i < |pieces| ==> if pieces[i].Lit? then Closed(pieces[i].text) else BraceFree(pieces[i].name)
  }

  lemma ClosedAreDead(pieces: seq<Piece>, key: string)
    requires AllClosed(pieces)
    ensures AllDead(pieces, key)
  {
    forall i | 0 <= i < |pieces| && pieces[i].Lit? ensures Dead(pieces[i].text, Flatten(pieces[i + 1..]), Placeholder(key)) {
      ClosedIsDead(pieces[i].text, Flatten(pieces[i + 1..]), key);
    }
  }

  /** One of the first `n` texts. */
  predicate IsText(vars: Bindings, strategy: EscapeStrategy, n: nat, text: string)
    requires n <= |vars|
  {
    exists k :: 0 <= k < n && text == Text(vars, strategy, k)
  }

  /** The literals are calm or texts of the first `n` keys. */
  predicate Pasted(pieces: seq<Piece>, vars: Bindings, strategy: EscapeStrategy, n: nat)
    requires n <= |vars|
  {
    forall i :: 0 <= i < |pieces| ==>
      if pieces[i].Lit? then Calm(pieces[i].text) || IsText(vars, strategy, n, pieces[i].text) else BraceFree(pieces[i].name)
  }

  lemma {:induction false} NameThenBrace(name: string, rest: string)
    requires BraceFree(name) && rest != [] && !BraceFree([rest[0]])
    ensures Name(name + rest) == name
  {
    if name == [] {
      assert name + rest == rest;
    } else {
      assert (name + rest)[1..] == name[1..] + rest;
      NameThenBrace(name[1..], rest);
    }
  }

  lemma CommonPrefix(prefix: string, a: string, b: string)
    ensures prefix + a <= prefix + b <==> a <= b
  {
    assert (prefix + b)[|prefix|..] == b && (prefix + a)[|prefix|..] == a;
    if prefix + a <= prefix + b {
      assert prefix + b == prefix + a + (prefix + b)[|prefix + a|..];
    }
  }

  /** Only its own name, up to the next brace, can stand at the head of a text. */
  lemma HeadIsName(key: string, after: string)
    requires BraceFree(key)
    ensures key + "}}" <= after <==> key == Name(after) && "}}" <= after[|Name(after)|..]
  {
    var name := Name(after);
    assert after == name + after[|name|..];
    CommonPrefix(name, "}}", after[|name|..]);
    if key + "}}" <= after {
      var rest := after[|key|..];
      assert after == key + rest && rest[0] == '}';
      NameThenBrace(key, rest);
    }
  }

  /** A placeholder is `{{`, the text up to the next brace, and `}}`. */
  lemma PlaceholderIsName(key: string, after: string)
    requires BraceFree(key)
    ensures Placeholder(key) <= "{{" + after <==> key == Name(after) && "}}" <= after[|Name(after)|..]
  {
    HeadIsName(key, after);
    CommonPrefix("{{", key + "}}", after);
    assert Placeholder(key) == "{{" + (key + "}}");
  }

  /** Behind a `{{`, text that cannot be closed never becomes a third key's placeholder. */
  lemma NeverCloses(vars: Bindings, strategy: EscapeStrategy, a: string, b: string, after: string, rest: string,
      other: string)
    requires !Closable(vars, strategy, a, b, after) && other != a && other != b
    requires BraceFree(other) && Changes(vars, strategy, other)
    ensures !(Placeholder(other) <= "{{" + (after + rest))
  {
    var name := Name(after);
    var behind := after[|name|..];
    assert after == name + behind && after + rest == name + (behind + rest);
    NameThenBrace(name, behind + rest);
    PlaceholderIsName(other, after + rest);
    assert (after + rest)[|name|..] == behind + rest;
    assert behind != "}" && |behind| > 1 ==> (behind + rest)[..2] == behind[..2];
  }

  /** Two texts side by side make no third key's placeholder. */
  lemma NothingBetween(vars: Bindings, strategy: EscapeStrategy, k: nat, l: nat, rest: string, other: string)
    requires k < |vars| && l < |vars| && Ends(Text(vars, strategy, k)) && Begins(Text(vars, strategy, l))
    requires !OpensAcross(vars, strategy, k, l) && other != vars[k].0 && other != vars[l].0
    requires BraceFree(other) && Changes(vars, strategy, other)
    ensures !(Placeholder(other) <= "{" + (Text(vars, strategy, l) + rest))
  {
    var text := Text(vars, strategy, l);
    NeverCloses(vars, strategy, vars[k].0, vars[l].0, text[1..], rest, other);
    assert "{" + (text + rest) == "{{" + (text[1..] + rest);
  }

  /** Another key than the first `n`, which changes what it replaces. */
  predicate IsLater(vars: Bindings, strategy: EscapeStrategy, n: nat, other: string)
    requires n <= |vars|
  {
    BraceFree(other) && Changes(vars, strategy, other) && forall i :: 0 <= i < n ==> vars[i].0 != other
  }

  /** No later key's placeholder starts in the last brace of a text. */
  lemma {:induction false} NothingAcross(pieces: seq<Piece>, vars: Bindings, strategy: EscapeStrategy, n: nat,
      k: nat, other: string)
    requires k < n <= |vars| && Pasted(pieces, vars, strategy, n) && Ends(Text(vars, strategy, k))
    requires !Opens(vars, strategy) && IsLater(vars, strategy, n, other)
    ensures !(Placeholder(other) <= "{" + Flatten(pieces))
  {
    if pieces != [] {
      var rest := Flatten(pieces[1..]);
      match pieces[0]
      case Hole(name) => HoleAcross(name, rest, other);
      case Lit(lit) =>
        if lit == [] {
          assert [] + rest == rest;
          assert forall i :: 0 <= i < |pieces[1..]| ==> pieces[1..][i] == pieces[i + 1];
          NothingAcross(pieces[1..], vars, strategy, n, k, other);
        } else if lit[0] == '{' {
          var l :| 0 <= l < n && lit == Text(vars, strategy, l);
          NothingBetween(vars, strategy, k, l, rest, other);
        } else {
          StartsWithBraces("{" + (lit + rest), other);
        }
    }
  }

  lemma HoleAcross(name: string, rest: string, other: string)
    requires BraceFree(other)
    ensures !(Placeholder(other) <= "{" + (Placeholder(name) + rest))
  {
    var whole := "{" + (Placeholder(name) + rest);
    assert whole[2] == '{';
    assert Placeholder(other)[2] == if other == [] then '}' else other[0];
  }

  /** A placeholder starts with two braces. */
  lemma StartsWithBraces(whole: string, other: string)
    requires |whole| > 0 && (whole[0] != '{' || (|whole| > 1 && whole[1] != '{'))
    ensures !(Placeholder(other) <= whole)
  {
    assert Placeholder(other)[0] == '{' && Placeholder(other)[1] == '{';
  }

  lemma NothingInside(vars: Bindings, strategy: EscapeStrategy, k: nat, rest: string, other: string, j: nat)
    requires k < |vars| && j + 2 <= |Text(vars, strategy, k)| && !OpensAt(vars, strategy, k, j)
    requires Text(vars, strategy, k)[j] == '{' && Text(vars, strategy, k)[j + 1] == '{'
    requires other != vars[k].0 && BraceFree(other) && Changes(vars, strategy, other)
    ensures !(Placeholder(other) <= Text(vars, strategy, k)[j..] + rest)
  {
    var text := Text(vars, strategy, k);
    NeverCloses(vars, strategy, vars[k].0, vars[k].0, text[j + 2..], rest, other);
    assert text[j..] + rest == "{{" + (text[j + 2..] + rest);
  }

  /** No other key's placeholder starts in a text that opens none inside, unless at
      its very end. */
  lemma TextIsDead(vars: Bindings, strategy: EscapeStrategy, k: nat, rest: string, other: string)
    requires k < |vars| && !OpensInside(vars, strategy, k)
    requires other != vars[k].0 && BraceFree(other) && Changes(vars, strategy, other)
    requires Ends(Text(vars, strategy, k)) ==> !(Placeholder(other) <= "{" + rest)
    ensures Dead(Text(vars, strategy, k), rest, Placeholder(other))
  {
    var text := Text(vars, strategy, k);
    forall j | 0 <= j < |text| ensures !(Placeholder(other) <= text[j..] + rest) {
      if text[j] == '{' && j + 1 == |text| {
        assert text[j..] == "{";
      } else if text[j] == '{' && text[j + 1] == '{' {
        NothingInside(vars, strategy, k, rest, other, j);
      } else {
        StartsWithBraces(text[j..] + rest, other);
      }
    }
  }

  lemma PastedIsDead(pieces: seq<Piece>, vars: Bindings, strategy: EscapeStrategy, n: nat, other: string)
    requires n <= |vars| && Pasted(pieces, vars, strategy, n)
    requires !Opens(vars, strategy) && IsLater(vars, strategy, n, other)
    ensures AllDead(pieces, other)
  {
    forall i | 0 <= i < |pieces| && pieces[i].Lit? ensures Dead(pieces[i].text, Flatten(pieces[i + 1..]), Placeholder(other)) {
      var rest := Flatten(pieces[i + 1..]);
      if Calm(pieces[i].text) {
        ClosedIsDead(pieces[i].text, rest, other);
      } else {
        var k :| 0 <= k < n && pieces[i].text == Text(vars, strategy, k);
        if Ends(pieces[i].text) {
          NothingAcross(pieces[i + 1..], vars, strategy, n, k, other);
        }
        TextIsDead(vars, strategy, k, rest, other);
      }
    }
  }

  /** A key replaced with its own placeholder changes nothing. */
  lemma {:induction false} ReplaceBySame(text: string, pattern: string)
    requires pattern != []
    ensures Replace(text, pattern, pattern) == text
    decreases |text|
  {
    if |text| >= |pattern| {
      if pattern <= text {
        ReplaceBySame(text[|pattern|..], pattern);
      } else {
        ReplaceBySame(text[1..], pattern);
      }
    }
  }

  lemma {:induction false} FillBySame(pieces: seq<Piece>, key: string)
    ensures Flatten(FillOne(pieces, key, Placeholder(key))) == Flatten(pieces)
  {
    if pieces != [] {
      FillBySame(pieces[1..], key);
    }
  }

  // ---------------------------------------------------------------------------
  // Key by key equals simultaneous substitution, in every order
  // ---------------------------------------------------------------------------

  lemma {:induction false} FillSnoc(pieces: seq<Piece>, vars: Bindings, strategy: EscapeStrategy)
    requires vars != [] && DistinctKeys(vars)
    ensures var n := |vars| - 1;
      FillOne(Fill(pieces, vars[..n], strategy), vars[n].0, Substitution(vars[n].1, strategy)) == Fill(pieces, vars, strategy)
  {
    if pieces != [] {
      FillSnoc(pieces[1..], vars, strategy);
      var n := |vars| - 1;
      if pieces[0] == Hole(vars[n].0) {
        LookupMisses(vars[..n], vars[n].0);
      }
      var init := Fill(pieces, vars[..n], strategy);
      assert init[1..] == Fill(pieces[1..], vars[..n], strategy);
    }
  }

  lemma {:induction false} LookupMisses(vars: Bindings, key: string)
    requires forall i :: 0 <= i < |vars| ==> vars[i].0 != key
    ensures Lookup(vars, key) == None
  {
    if vars != [] {
      LookupMisses(vars[..|vars| - 1], key);
    }
  }

  lemma {:induction false} FillAt(pieces: seq<Piece>, vars: Bindings, strategy: EscapeStrategy)
    ensures |Fill(pieces, vars, strategy)| == |pieces|
    ensures forall i :: 0 <= i < |pieces| ==> Fill(pieces, vars, strategy)[i] == FillPiece(pieces[i], vars, strategy)
  {
    if pieces != [] {
      FillAt(pieces[1..], vars, strategy);
    }
  }

  lemma {:induction false} LookupIsBound(vars: Bindings, key: string) returns (i: nat)
    ensures Lookup(vars, key).Some? ==> i < |vars| && vars[i] == (key, Lookup(vars, key).value)
  {
    i := 0;
    if vars != [] {
      var n := |vars| - 1;
      if vars[n].0 == key {
        i := n;
      } else {
        i := LookupIsBound(vars[..n], key);
      }
    }
  }

  /** Filling from the first `n` bindings pastes only their texts. */
  lemma FillIsPasted(pieces: seq<Piece>, vars: Bindings, strategy: EscapeStrategy, n: nat)
    requires Written(pieces) && n <= |vars|
    ensures Pasted(Fill(pieces, vars[..n], strategy), vars, strategy, n)
  {
    var filled := Fill(pieces, vars[..n], strategy);
    FillAt(pieces, vars[..n], strategy);
    forall i | 0 <= i < |filled|
      ensures if filled[i].Lit? then Calm(filled[i].text) || IsText(vars, strategy, n, filled[i].text) else BraceFree(filled[i].name)
    {
      assert pieces[i] in pieces && filled[i] == FillPiece(pieces[i], vars[..n], strategy);
      if pieces[i].Hole? {
        var k := LookupIsBound(vars[..n], pieces[i].name);
        assert filled[i].Lit? ==> filled[i].text == Text(vars, strategy, k);
      }
    }
  }

  /** One more key: its holes are filled, and nothing else changes. */
  lemma NextIsFilled(filled: seq<Piece>, vars: Bindings, strategy: EscapeStrategy, n: nat)
    requires n < |vars| && SafeBindings(vars, strategy) && Pasted(filled, vars, strategy, n)
    ensures Replace(Flatten(filled), Placeholder(vars[n].0), Text(vars, strategy, n))
         == Flatten(FillOne(filled, vars[n].0, Text(vars, strategy, n)))
  {
    if Text(vars, strategy, n) == Placeholder(vars[n].0) {
      ReplaceBySame(Flatten(filled), Placeholder(vars[n].0));
      FillBySame(filled, vars[n].0);
    } else {
      LookupFinds(vars, n);
      PastedIsDead(filled, vars, strategy, n, vars[n].0);
      ReplaceFillsOne(filled, vars[n].0, Text(vars, strategy, n));
    }
  }

  lemma {:induction false} PrefixIsSimultaneous(pieces: seq<Piece>, vars: Bindings, strategy: EscapeStrategy, n: nat)
    requires Written(pieces) && SafeBindings(vars, strategy) && n <= |vars|
    ensures Resolve(Flatten(pieces), vars[..n], strategy) == Flatten(Fill(pieces, vars[..n], strategy))
  {
    if n == 0 {
      FillNothing(pieces, strategy);
    } else {
      assert vars[..n][..n - 1] == vars[..n - 1];
      PrefixIsSimultaneous(pieces, vars, strategy, n - 1);
      FillIsPasted(pieces, vars, strategy, n - 1);
      NextIsFilled(Fill(pieces, vars[..n - 1], strategy), vars, strategy, n - 1);
      FillSnoc(pieces, vars[..n], strategy);
    }
  }

  /** Key by key, safe bindings fill every hole at once. */
  lemma ResolveIsSimultaneous(pieces: seq<Piece>, vars: Bindings, strategy: EscapeStrategy)
    requires Written(pieces) && SafeBindings(vars, strategy)
    ensures Resolve(Flatten(pieces), vars, strategy) == Flatten(Fill(pieces, vars, strategy))
  {
    assert vars[..|vars|] == vars;
    PrefixIsSimultaneous(pieces, vars, strategy, |vars|);
  }

  lemma {:induction false} FillNothing(pieces: seq<Piece>, strategy: EscapeStrategy)
    ensures Fill(pieces, [], strategy) == pieces
  {
    if pieces != [] {
      FillNothing(pieces[1..], strategy);
    }
  }

  /** Two iteration orders of one hash map. */
  ghost predicate SameBindings(vars: Bindings, other: Bindings) {
    forall key :: Lookup(vars, key) == Lookup(other, key)
  }

  lemma {:induction false} FillDependsOnLookups(pieces: seq<Piece>, vars: Bindings, other: Bindings,
      strategy: EscapeStrategy)
    requires SameBindings(vars, other)
    ensures Fill(pieces, vars, strategy) == Fill(pieces, other, strategy)
  {
    if pieces != [] {
      FillDependsOnLookups(pieces[1..], vars, other, strategy);
      if pieces[0].Hole? {
        assert Lookup(vars, pieces[0].name) == Lookup(other, pieces[0].name);
      }
    }
  }

  lemma {:induction false} LookupFinds(vars: Bindings, i: nat)
    requires DistinctKeys(vars) && i < |vars|
    ensures Lookup(vars, vars[i].0) == Some(vars[i].1)
  {
    if i < |vars| - 1 {
      assert vars[i].0 != vars[|vars| - 1].0;
      LookupFinds(vars[..|vars| - 1], i);
    }
  }

  /** Every text of `other` is that of the same key in `vars`, or opens nothing. */
  ghost predicate OpensNoMore(vars: Bindings, other: Bindings, strategy: EscapeStrategy) {
    && (forall i :: 0 <= i < |vars| ==> Lookup(other, vars[i].0) == Some(vars[i].1))
    && forall i :: 0 <= i < |other| ==> if Lookup(vars, other[i].0).Some? then Lookup(vars, other[i].0) == Some(other[i].1)
                                        else Calm(Text(other, strategy, i))
  }

  lemma ClosableNoMore(vars: Bindings, other: Bindings, strategy: EscapeStrategy, a: string, b: string, after: string)
    requires OpensNoMore(vars, other, strategy) && Closable(other, strategy, a, b, after)
    ensures Closable(vars, strategy, a, b, after)
  {
    var k := LookupIsBound(vars, Name(after));
  }

  lemma InsideComesFrom(vars: Bindings, other: Bindings, strategy: EscapeStrategy, k: nat)
    requires OpensNoMore(vars, other, strategy) && k < |other| && OpensInside(other, strategy, k)
    ensures Opens(vars, strategy)
  {
    var i :| 0 <= i < |Text(other, strategy, k)| && OpensAt(other, strategy, k, i);
    var j := LookupIsBound(vars, other[k].0);
    ClosableNoMore(vars, other, strategy, other[k].0, other[k].0, Text(other, strategy, k)[i + 2..]);
    assert OpensAt(vars, strategy, j, i);
    assert OpensInside(vars, strategy, j);
  }

  lemma AcrossComesFrom(vars: Bindings, other: Bindings, strategy: EscapeStrategy, k: nat, l: nat)
    requires OpensNoMore(vars, other, strategy) && k < |other| && l < |other| && OpensAcross(other, strategy, k, l)
    ensures Opens(vars, strategy)
  {
    var i := LookupIsBound(vars, other[k].0);
    var j := LookupIsBound(vars, other[l].0);
    ClosableNoMore(vars, other, strategy, other[k].0, other[l].0, Text(other, strategy, l)[1..]);
    assert OpensAcross(vars, strategy, i, j);
  }

  /** Adding calm values, in any order, opens nothing. */
  lemma StaysSafe(vars: Bindings, other: Bindings, strategy: EscapeStrategy)
    requires OpensNoMore(vars, other, strategy) && !Opens(vars, strategy)
    ensures !Opens(other, strategy)
  {
    if k :| 0 <= k < |other| && OpensInside(other, strategy, k) {
      InsideComesFrom(vars, other, strategy, k);
    }
    if k, l :| 0 <= k < |other| && 0 <= l < |other| && OpensAcross(other, strategy, k, l) {
      AcrossComesFrom(vars, other, strategy, k, l);
    }
  }

  lemma SameMap(vars: Bindings, other: Bindings, strategy: EscapeStrategy)
    requires IsMap(vars) && DistinctKeys(other) && SameBindings(vars, other)
    ensures IsMap(other) && OpensNoMore(vars, other, strategy)
  {
    forall i | 0 <= i < |vars| ensures Lookup(other, vars[i].0) == Some(vars[i].1) {
      LookupFinds(vars, i);
    }
    forall i | 0 <= i < |other| ensures BraceFree(other[i].0) && Lookup(vars, other[i].0) == Some(other[i].1) {
      LookupFinds(other, i);
      var k := LookupIsBound(vars, other[i].0);
    }
  }

  /** The iteration order of the hash map cannot be observed. */
  lemma OrderIsIrrelevant(pieces: seq<Piece>, vars: Bindings, other: Bindings, strategy: EscapeStrategy)
    requires Written(pieces) && SafeBindings(vars, strategy) && DistinctKeys(other) && SameBindings(vars, other)
    ensures Resolve(Flatten(pieces), vars, strategy) == Resolve(Flatten(pieces), other, strategy)
  {
    SameMap(vars, other, strategy);
    StaysSafe(vars, other, strategy);
    ResolveIsSimultaneous(pieces, vars, strategy);
    ResolveIsSimultaneous(pieces, other, strategy);
    FillDependsOnLookups(pieces, vars, other, strategy);
  }

  /** A value that opens a placeholder is substituted into, and then the order shows. */
  lemma BracedValueShowsTheOrder()
    ensures var ab := [("a", "{{b}}"), ("b", "x")]; var ba := [("b", "x"), ("a", "{{b}}")];
      Resolve("{{a}}", ab, Plain) == "x" && Resolve("{{a}}", ba, Plain) == "{{b}}"
  {
    var ab := [("a", "{{b}}"), ("b", "x")];
    var ba := [("b", "x"), ("a", "{{b}}")];
    ReplaceHole("a", "", "a", "{{b}}");
    ReplaceHole("b", "", "b", "x");
    ReplaceHole("a", "", "b", "x");
    assert Placeholder("a") + "" == "{{a}}" && Placeholder("b") + "" == "{{b}}";
    assert Resolve("{{a}}", ab[..1], Plain) == "{{b}}" by {
      assert ab[..1][..0] == [];
    }
    assert Resolve("{{a}}", ba[..1], Plain) == "{{a}}" by {
      assert ba[..1][..0] == [];
    }
  }

  // ---------------------------------------------------------------------------
  // What is left over is exactly what was unbound
  // ---------------------------------------------------------------------------

  lemma {:induction false} FindSkips(text: string, rest: string, c: char)
    requires Apart(text, c)
    ensures Find(text + rest, [c, c]) == match Find(rest, [c, c]) case None => None case Some(i) => Some(|text| + i)
    decreases |text|
  {
    if text == [] {
      assert text + rest == rest;
    } else {
      var whole := text + rest;
      assert whole[1..] == text[1..] + rest;
      forall i | 0 <= i < |text[1..]| && text[1..][i] == c ensures i + 1 < |text[1..]| && text[1..][i + 1] != c {
        assert text[i + 1] == c;
      }
      FindSkips(text[1..], rest, c);
      assert whole[0] == text[0] && (text[0] == c ==> whole[1] == text[1] != c);
      assert !([c, c] <= whole);
    }
  }

  lemma NextVarSkips(text: string, rest: string)
    requires Closed(text)
    ensures NextVar(text + rest) == NextVar(rest)
  {
    FindSkips(text, rest, '{');
    assert "{{" == ['{', '{'];
    var found := Find(rest, "{{");
    if found.Some? {
      assert (text + rest)[|text| + found.value + 2..] == rest[found.value + 2..];
    }
  }

  lemma UnresolvedSkipsText(text: string, rest: string)
    requires Closed(text)
    ensures UnresolvedVars(text + rest) == UnresolvedVars(rest)
  {
    NextVarSkips(text, rest);
  }

  lemma NextVarSeesHole(name: string, rest: string)
    requires BraceFree(name)
    ensures NextVar(Placeholder(name) + rest) == Some((name, rest))
  {
    var whole := Placeholder(name) + rest;
    var closing := "}}" + rest;
    assert whole == "{{" + (name + closing);
    assert Find(whole, "{{") == Some(0);
    var after := whole[2..];
    assert after == name + closing;
    assert "}}" == ['}', '}'];
    FindSkips(name, closing, '}');
    assert "}}" <= closing && Find(closing, "}}") == Some(0);
    assert after[..|name|] == name && after[|name| + 2..] == rest;
  }

  lemma UnresolvedSeesHole(name: string, rest: string)
    requires BraceFree(name)
    ensures UnresolvedVars(Placeholder(name) + rest) == [name] + UnresolvedVars(rest)
  {
    NextVarSeesHole(name, rest);
  }

  lemma {:induction false} UnresolvedAreHoles(pieces: seq<Piece>, vars: Bindings, strategy: EscapeStrategy)
    requires AllClosed(Fill(pieces, vars, strategy))
    ensures UnresolvedVars(Flatten(Fill(pieces, vars, strategy))) == UnboundNames(pieces, vars)
  {
    if pieces == [] {
      assert Find([], "{{") == None;
    } else {
      var filled := Fill(pieces, vars, strategy);
      assert filled[1..] == Fill(pieces[1..], vars, strategy);
      assert forall i :: 0 <= i < |filled[1..]| ==> filled[1..][i] == filled[i + 1];
      UnresolvedAreHoles(pieces[1..], vars, strategy);
      match filled[0]
      case Lit(text) => UnresolvedSkipsText(text, Flatten(filled[1..]));
      case Hole(name) => UnresolvedSeesHole(name, Flatten(filled[1..]));
    }
  }

  /** Every key is replaced with a closed text. */
  predicate ClosedBindings(vars: Bindings, strategy: EscapeStrategy) {
    IsMap(vars) && forall i :: 0 <= i < |vars| ==> Closed(Text(vars, strategy, i))
  }

  lemma ClosedIsSafe(vars: Bindings, strategy: EscapeStrategy)
    requires ClosedBindings(vars, strategy)
    ensures SafeBindings(vars, strategy)
  {
    forall k | 0 <= k < |vars| ensures !OpensInside(vars, strategy, k) {
      assert Closed(Text(vars, strategy, k));
    }
    forall k, l | 0 <= k < |vars| && 0 <= l < |vars| ensures !OpensAcross(vars, strategy, k, l) {
      assert Closed(Text(vars, strategy, k));
    }
  }

  lemma FilledIsClosed(pieces: seq<Piece>, vars: Bindings, strategy: EscapeStrategy)
    requires Written(pieces) && ClosedBindings(vars, strategy)
    ensures AllClosed(Fill(pieces, vars, strategy))
  {
    FillIsPasted(pieces, vars, strategy, |vars|);
    assert vars[..|vars|] == vars;
  }

  /** After resolution `find_unresolved_vars` returns the unbound names, in
      template order and as often as they occur. */
  lemma UnresolvedAfterResolve(pieces: seq<Piece>, vars: Bindings, strategy: EscapeStrategy)
    requires Written(pieces) && ClosedBindings(vars, strategy)
    ensures UnresolvedVars(Resolve(Flatten(pieces), vars, strategy)) == UnboundNames(pieces, vars)
  {
    ClosedIsSafe(vars, strategy);
    ResolveIsSimultaneous(pieces, vars, strategy);
    FilledIsClosed(pieces, vars, strategy);
    UnresolvedAreHoles(pieces, vars, strategy);
  }
}
