/** What shell quoting is for (src/gates/template.rs): a value pasted into a command
    line is read by the shell as that value, and as nothing else. */
module ShellWords {
  import opened Wrappers
  import opened Template

  // ---------------------------------------------------------------------------
  // How the shell reads a word (section 2.2 of the POSIX shell command language)
  // ---------------------------------------------------------------------------

  /** The length of the text before the first single quote. */
  function QuoteAt(s: string): (n: nat)
    ensures n <= |s| && '\'' !in s[..n] && (n < |s| ==> s[n] == '\'')
  {
    if s == [] || s[0] == '\'' then 0
    else
      assert s[..1 + QuoteAt(s[1..])] == [s[0]] + s[1..][..QuoteAt(s[1..])];
      1 + QuoteAt(s[1..])
  }

  /** Characters that stand for themselves outside quotes; any other would be
      expanded, or end the command. */
  predicate IsOrdinary(c: char) {
    'a' <= c <= 'z' || 'A' <= c <= 'Z' || '0' <= c <= '9' || c in "_-./:,@%+"
  }

  /** The first word of a command line and what follows it: between single quotes
      everything is literal, a backslash outside them takes the next character, and
      an unquoted space or the end stops. `None` if the shell would do anything else. */
  function ReadWord(s: string): Option<(string, string)>
    decreases |s|
  {
    if s == [] || s[0] == ' ' then Some(([], s))
    else if s[0] == '\'' then
      var n := QuoteAt(s[1..]);
      if n == |s[1..]| then None else Glued(s[1..][..n], ReadWord(s[1..][n + 1..]))
    else if s[0] == '\\' then
      if |s| < 2 || s[1] == '\n' then None else Glued([s[1]], ReadWord(s[2..]))
    else if IsOrdinary(s[0]) then Glued([s[0]], ReadWord(s[1..]))
    else None
  }

  function Glued(front: string, read: Option<(string, string)>): Option<(string, string)> {
    match read
    case None => None
    case Some((word, rest)) => Some((front + word, rest))
  }

  // ---------------------------------------------------------------------------
  // Quoting undone by reading
  // ---------------------------------------------------------------------------

  const QUOTE := "'"
  const REOPENED := "'\\''"

  lemma NoQuoteIsDead(text: string, rest: string)
    requires '\'' !in text
    ensures Dead(text, rest, QUOTE)
  {
    forall j | 0 <= j < |text| ensures !(QUOTE <= text[j..] + rest) {
      assert (text[j..] + rest)[0] == text[j] && QUOTE[0] == '\'';
    }
  }

  /** The first quote is replaced, and then the rest. */
  lemma FirstQuoteReplaced(front: string, behind: string)
    requires '\'' !in front
    ensures Replace(front + (QUOTE + behind), QUOTE, REOPENED) == front + (REOPENED + Replace(behind, QUOTE, REOPENED))
  {
    NoQuoteIsDead(front, QUOTE + behind);
    ReplaceSkips(front, QUOTE + behind, QUOTE, REOPENED);
    assert (QUOTE + behind)[1..] == behind;
  }

  lemma NoQuoteReplaced(text: string)
    requires '\'' !in text
    ensures Replace(text, QUOTE, REOPENED) == text
  {
    NoQuoteIsDead(text, []);
    ReplaceSkips(text, [], QUOTE, REOPENED);
    assert text + [] == text;
  }

  /** Quoting goes quote by quote: what precedes the first, the quote escaped outside,
      and the rest quoted again. */
  lemma EscapeSplits(front: string, behind: string)
    requires '\'' !in front
    ensures ShellEscape(front) == QUOTE + front + QUOTE
    ensures ShellEscape(front + (QUOTE + behind)) == QUOTE + front + QUOTE + ("\\'" + ShellEscape(behind))
  {
    NoQuoteReplaced(front);
    FirstQuoteReplaced(front, behind);
    Requoted(front, Replace(behind, QUOTE, REOPENED));
  }

  lemma Requoted(front: string, inner: string)
    ensures QUOTE + (front + (REOPENED + inner)) + QUOTE == QUOTE + front + QUOTE + ("\\'" + (QUOTE + inner + QUOTE))
  {
    assert REOPENED == QUOTE + "\\'" + QUOTE;
  }

  /** A quoted stretch is read as it stands. */
  lemma QuotedReads(front: string, rest: string)
    requires '\'' !in front
    ensures ReadWord(QUOTE + front + QUOTE + rest) == Glued(front, ReadWord(rest))
  {
    var s := QUOTE + front + QUOTE + rest;
    assert s[1..] == front + ([QUOTE[0]] + rest);
    QuoteFound(front, rest);
    assert s[1..][..|front|] == front && s[1..][|front| + 1..] == rest;
  }

  lemma {:induction false} QuoteFound(front: string, rest: string)
    requires '\'' !in front
    ensures QuoteAt(front + (['\''] + rest)) == |front|
  {
    if front == [] {
      assert front + (['\''] + rest) == ['\''] + rest;
    } else {
      QuoteFound(front[1..], rest);
      assert (front + (['\''] + rest))[1..] == front[1..] + (['\''] + rest);
    }
  }

  lemma EscapedQuoteReads(rest: string)
    ensures ReadWord("\\'" + rest) == Glued("'", ReadWord(rest))
  {
    assert ("\\'" + rest)[2..] == rest;
  }

  /** The shell reads a quoted value as that value, and goes on with what follows. */
  lemma {:induction false} QuotingReadsBack(value: string, rest: string)
    ensures ReadWord(ShellEscape(value) + rest) == Glued(value, ReadWord(rest))
    decreases |value|
  {
    var n := QuoteAt(value);
    if n == |value| {
      assert value[..n] == value;
      EscapeSplits(value, []);
      QuotedReads(value, rest);
    } else {
      var front, inner := value[..n], value[n + 1..];
      assert value == front + (QUOTE + inner);
      EscapeSplits(front, inner);
      QuotingReadsBack(inner, rest);
      EscapedQuoteReads(ShellEscape(inner) + rest);
      QuotedReads(front, "\\'" + (ShellEscape(inner) + rest));
      Regrouped(front, ShellEscape(inner), rest);
      GluedTwice(front, inner, ReadWord(rest));
    }
  }

  lemma Regrouped(front: string, inner: string, rest: string)
    ensures QUOTE + front + QUOTE + ("\\'" + inner) + rest == QUOTE + front + QUOTE + ("\\'" + (inner + rest))
  {
  }

  lemma GluedTwice(front: string, inner: string, read: Option<(string, string)>)
    ensures Glued(front, Glued("'", Glued(inner, read))) == Glued(front + ("'" + inner), read)
  {
    if read.Some? {
      assert front + ("'" + (inner + read.value.0)) == front + ("'" + inner) + read.value.0;
    }
  }

  /** Before a space or the end, it is one whole word. */
  lemma QuotedValueIsOneWord(value: string, rest: string)
    requires rest == [] || rest[0] == ' '
    ensures ReadWord(ShellEscape(value) + rest) == Some((value, rest))
  {
    QuotingReadsBack(value, rest);
    assert value + [] == value;
  }

  // ---------------------------------------------------------------------------
  // In a template
  // ---------------------------------------------------------------------------

  lemma {:induction false} FlattenSplits(pieces: seq<Piece>, i: nat)
    requires i <= |pieces|
    ensures Flatten(pieces) == Flatten(pieces[..i]) + Flatten(pieces[i..])
  {
    if i == 0 {
      assert pieces[i..] == pieces;
    } else {
      FlattenSplits(pieces[1..], i - 1);
      assert pieces[..i][1..] == pieces[1..][..i - 1];
      assert pieces[1..][i - 1..] == pieces[i..];
      assert pieces[..i][0] == pieces[0];
    }
  }

  /** Where a command template has a bound hole, the shell reads its value, whatever it
      is, and goes on with the rest of the resolved template. */
  lemma FilledHoleReadsBack(pieces: seq<Piece>, vars: Bindings, i: nat)
    requires Written(pieces) && SafeBindings(vars, Shell) && i < |pieces| && pieces[i].Hole?
    requires Lookup(vars, pieces[i].name).Some?
    ensures |Fill(pieces, vars, Shell)| == |pieces|
    ensures var filled := Fill(pieces, vars, Shell);
      var before, after := Flatten(filled[..i]), Flatten(filled[i + 1..]);
      var resolved := Resolve(Flatten(pieces), vars, Shell);
      && before <= resolved
      && ReadWord(resolved[|before|..]) == Glued(Lookup(vars, pieces[i].name).value, ReadWord(after))
  {
    var filled := Fill(pieces, vars, Shell);
    FillAt(pieces, vars, Shell);
    ResolveIsSimultaneous(pieces, vars, Shell);
    FlattenSplits(filled, i);
    assert filled[i..][1..] == filled[i + 1..];
    var value := Lookup(vars, pieces[i].name).value;
    assert filled[i] == Lit(ShellEscape(value));
    assert Flatten(filled[i..]) == ShellEscape(value) + Flatten(filled[i + 1..]);
    assert (Flatten(filled[..i]) + Flatten(filled[i..]))[|Flatten(filled[..i])|..] == Flatten(filled[i..]);
    QuotingReadsBack(value, Flatten(filled[i + 1..]));
  }

  // ---------------------------------------------------------------------------
  // Without quoting
  // ---------------------------------------------------------------------------

  /** A template that is one bound placeholder resolves to exactly the value. */
  lemma PlaceholderResolves(name: string, vars: Bindings, strategy: EscapeStrategy)
    requires BraceFree(name) && SafeBindings(vars, strategy) && Lookup(vars, name).Some?
    ensures Resolve("{{" + name + "}}", vars, strategy) == Substitution(Lookup(vars, name).value, strategy)
  {
    var pieces := [Hole(name)];
    var value := Substitution(Lookup(vars, name).value, strategy);
    ResolveIsSimultaneous(pieces, vars, strategy);
    assert pieces[1..] == [] && Placeholder(name) + [] == Placeholder(name);
    assert Fill(pieces, vars, strategy) == [Lit(value)] && [Lit(value)][1..] == [] && value + [] == value;
  }

  /** Brace-free text resolves to itself. */
  lemma PlainTextResolves(text: string, vars: Bindings, strategy: EscapeStrategy)
    requires BraceFree(text) && IsMap(vars)
    ensures Resolve(text, vars, strategy) == text
    decreases |vars|
  {
    if vars != [] {
      var n := |vars| - 1;
      PlainTextResolves(text, vars[..n], strategy);
      ClosedIsDead(text, [], vars[n].0);
      ReplaceSkips(text, [], Placeholder(vars[n].0), Substitution(vars[n].1, strategy));
      assert text + [] == text;
    }
  }
}
