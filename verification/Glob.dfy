/** Glob matching of hook paths (src/hooks/eval.rs), over ASCII text. */
module Glob {
  import opened Wrappers

  const ANY_DEPTH := "**/"
  const ANY := "**"

  // ---------------------------------------------------------------------------
  // The matcher
  // ---------------------------------------------------------------------------

  function FirstSlash(text: string): (r: Option<nat>)
    ensures r.Some? ==> r.value < |text| && text[r.value] == '/' && '/' !in text[..r.value]
    ensures r.None? ==> '/' !in text
  {
    if text == [] then None
    else if text[0] == '/' then Some(0)
    else
      match FirstSlash(text[1..])
      case None => None
      case Some(i) =>
        assert text[..i + 1] == [text[0]] + text[1..][..i];
        Some(i + 1)
  }

  predicate IsStar(pattern: string) {
    pattern != [] && pattern[0] == '*' && !(ANY <= pattern)
  }

  predicate GlobMatches(pattern: string, text: string)
    decreases |pattern|, |text|
  {
    if pattern == [] then text == []
    else if ANY_DEPTH <= pattern then
      GlobMatches(pattern[3..], text)
      || (FirstSlash(text).Some? && GlobMatches(pattern, text[FirstSlash(text).value + 1..]))
    else if pattern == ANY then true
    else if IsStar(pattern) then
      exists i :: 0 <= i <= |text| && '/' !in text[..i] && GlobMatches(pattern[1..], text[i..])
    else
      text != [] && text[0] == pattern[0] && GlobMatches(pattern[1..], text[1..])
  }

  method GlobMatchRecursive(pattern: string, text: string) returns (matched: bool)
    ensures matched == GlobMatches(pattern, text)
    decreases |pattern|, |text|
  {
    if pattern == [] {
      return text == [];
    }
    if ANY_DEPTH <= pattern {
      matched := GlobMatchRecursive(pattern[3..], text);
      if !matched {
        var slash := FirstSlash(text);
        if slash.Some? {
          matched := GlobMatchRecursive(pattern, text[slash.value + 1..]);
        }
      }
      return;
    }
    if pattern == ANY {
      return true;
    }
    if IsStar(pattern) {
      matched := MatchRun(pattern[1..], text);
      return;
    }
    if text != [] && pattern[0] == text[0] {
      matched := GlobMatchRecursive(pattern[1..], text[1..]);
      return;
    }
    matched := false;
  }

  /** Try the rest of the pattern against ever shorter text, within a segment. */
  method MatchRun(rest: string, text: string) returns (matched: bool)
    ensures matched <==> exists i :: 0 <= i <= |text| && '/' !in text[..i] && GlobMatches(rest, text[i..])
    decreases |rest|, |text| + 1
  {
    for i := 0 to |text| + 1
      invariant i <= |text| ==> i == 0 || '/' !in text[..i - 1]
      invariant i == |text| + 1 ==> '/' !in text
      invariant forall k :: 0 <= k < i ==> !('/' !in text[..k] && GlobMatches(rest, text[k..]))
    {
      if i > 0 && text[i - 1] == '/' {
        assert forall k :: i <= k <= |text| ==> text[..k][i - 1] == '/';
        return false;
      }
      assert i > 0 ==> text[..i] == text[..i - 1] + [text[i - 1]];
      var here := GlobMatchRecursive(rest, text[i..]);
      if here {
        return true;
      }
      assert text[..|text|] == text;
    }
    matched := false;
  }

  // ---------------------------------------------------------------------------
  // What a pattern means
  // ---------------------------------------------------------------------------

  /** `Segments`: zero or more leading path segments. `Run`: text without a
      slash. `Anything`: all that is left. `Lit`: one character. */
  datatype Token = Segments | Run | Anything | Lit(c: char)

  function Tokens(pattern: string): seq<Token>
    decreases |pattern|
  {
    if pattern == [] then []
    else if ANY_DEPTH <= pattern then [Segments] + Tokens(pattern[3..])
    else if pattern == ANY then [Anything]
    else if IsStar(pattern) then [Run] + Tokens(pattern[1..])
    else [Lit(pattern[0])] + Tokens(pattern[1..])
  }

  predicate Fits(token: Token, part: string) {
    match token
    case Segments => part == [] || part[|part| - 1] == '/'
    case Run => '/' !in part
    case Anything => true
    case Lit(c) => part == [c]
  }

  function Join(parts: seq<string>): string {
    if parts == [] then [] else parts[0] + Join(parts[1..])
  }

  /** `parts` cut `text` into one part per token, each of the token's kind. */
  ghost predicate IsReading(tokens: seq<Token>, text: string, parts: seq<string>) {
    && |parts| == |tokens| && Join(parts) == text
    && forall i :: 0 <= i < |tokens| ==> Fits(tokens[i], parts[i])
  }

  /** The text can be cut so that every token fits its part. */
  ghost predicate Readable(tokens: seq<Token>, text: string) {
    exists parts :: IsReading(tokens, text, parts)
  }

  /** Cutting off the first token's part. */
  lemma ReadableStep(token: Token, rest: seq<Token>, text: string)
    ensures Readable([token] + rest, text) <==> exists i :: 0 <= i <= |text| && Fits(token, text[..i]) && Readable(rest, text[i..])
  {
    var tokens := [token] + rest;
    if parts :| IsReading(tokens, text, parts) {
      var i := |parts[0]|;
      assert text == parts[0] + Join(parts[1..]);
      assert text[..i] == parts[0] && text[i..] == Join(parts[1..]);
      forall k | 0 <= k < |rest| ensures Fits(rest[k], parts[1..][k]) {
        assert Fits(tokens[k + 1], parts[k + 1]);
      }
      assert IsReading(rest, text[i..], parts[1..]);
      assert Fits(tokens[0], parts[0]);
    }
    if i :| 0 <= i <= |text| && Fits(token, text[..i]) && Readable(rest, text[i..]) {
      var parts :| IsReading(rest, text[i..], parts);
      var all := [text[..i]] + parts;
      assert all[1..] == parts && text == text[..i] + text[i..];
      forall k | 0 <= k < |tokens| ensures Fits(tokens[k], all[k]) {
        assert k > 0 ==> Fits(rest[k - 1], parts[k - 1]);
      }
      assert IsReading(tokens, text, all);
    }
  }

  lemma ReadableNothing(text: string)
    ensures Readable([], text) <==> text == []
  {
    if text == [] {
      assert IsReading([], text, []);
    }
  }

  /** The rest can be read after `i` characters of leading segments. */
  ghost predicate SegmentsThen(rest: seq<Token>, text: string, i: nat) {
    i <= |text| && Fits(Segments, text[..i]) && Readable(rest, text[i..])
  }

  lemma SegmentsThenIsReadable(rest: seq<Token>, text: string)
    ensures Readable([Segments] + rest, text) <==> exists i: nat :: SegmentsThen(rest, text, i)
  {
    ReadableStep(Segments, rest, text);
    if i :| 0 <= i <= |text| && Fits(Segments, text[..i]) && Readable(rest, text[i..]) {
      assert SegmentsThen(rest, text, i);
    }
    if i: nat :| SegmentsThen(rest, text, i) {
      assert Fits(Segments, text[..i]) && Readable(rest, text[i..]);
    }
  }

  lemma NoSegments(rest: seq<Token>, text: string)
    ensures SegmentsThen(rest, text, 0) <==> Readable(rest, text)
  {
    assert text[0..] == text && text[..0] == [];
  }

  lemma SegmentsOnce(rest: seq<Token>, text: string, s: nat)
    requires s < |text| && text[s] == '/' && '/' !in text[..s]
    ensures Readable([Segments] + rest, text) <==> Readable(rest, text) || Readable([Segments] + rest, text[s + 1..])
  {
    SegmentsThenIsReadable(rest, text);
    var after := text[s + 1..];
    SegmentsThenIsReadable(rest, after);
    NoSegments(rest, text);
    if i: nat :| SegmentsThen(rest, text, i) && i > 0 {
      assert SegmentsThen(rest, after, i - s - 1);
    }
    if i: nat :| SegmentsThen(rest, after, i) {
      assert SegmentsThen(rest, text, i + s + 1);
    }
  }

  lemma SegmentsNone(rest: seq<Token>, text: string)
    requires '/' !in text
    ensures Readable([Segments] + rest, text) <==> Readable(rest, text)
  {
    ReadableStep(Segments, rest, text);
    assert text[0..] == text && text[..0] == [] && text[..|text|] == text;
  }

  lemma AnythingStep(text: string)
    ensures Readable([Anything], text)
  {
    assert Join([text]) == text by { assert [text][1..] == []; assert text + [] == text; }
    assert IsReading([Anything], text, [text]);
  }

  /** The matcher decides exactly what the pattern means. */
  lemma {:induction false} MatchesIffReadable(pattern: string, text: string)
    ensures GlobMatches(pattern, text) <==> Readable(Tokens(pattern), text)
    decreases |pattern|, |text|
  {
    if pattern == [] {
      ReadableNothing(text);
    } else if ANY_DEPTH <= pattern {
      AnyDepthMatches(pattern, text);
    } else if pattern == ANY {
      AnythingStep(text);
    } else if IsStar(pattern) {
      StarMatches(pattern, text);
    } else {
      LiteralStep(pattern[0], Tokens(pattern[1..]), text);
      if text != [] {
        MatchesIffReadable(pattern[1..], text[1..]);
      }
    }
  }

  lemma {:induction false} AnyDepthMatches(pattern: string, text: string)
    requires ANY_DEPTH <= pattern
    ensures GlobMatches(pattern, text) <==> Readable([Segments] + Tokens(pattern[3..]), text)
    decreases |pattern|, |text|, 0
  {
    var rest := Tokens(pattern[3..]);
    MatchesIffReadable(pattern[3..], text);
    match FirstSlash(text)
    case None => SegmentsNone(rest, text);
    case Some(s) =>
      SegmentsOnce(rest, text, s);
      AnyDepthMatches(pattern, text[s + 1..]);
  }

  lemma {:induction false} StarMatches(pattern: string, text: string)
    requires IsStar(pattern)
    ensures GlobMatches(pattern, text) <==> Readable([Run] + Tokens(pattern[1..]), text)
    decreases |pattern|, |text|, 0
  {
    var rest := Tokens(pattern[1..]);
    ReadableStep(Run, rest, text);
    forall i | 0 <= i <= |text| ensures GlobMatches(pattern[1..], text[i..]) <==> Readable(rest, text[i..]) {
      MatchesIffReadable(pattern[1..], text[i..]);
    }
  }

  lemma LiteralStep(c: char, rest: seq<Token>, text: string)
    ensures Readable([Lit(c)] + rest, text) <==> text != [] && text[0] == c && Readable(rest, text[1..])
  {
    ReadableStep(Lit(c), rest, text);
    if text != [] {
      assert text[..1] == [text[0]];
    }
    if i :| 0 <= i <= |text| && Fits(Lit(c), text[..i]) && Readable(rest, text[i..]) {
      assert |text[..i]| == 1;
    }
  }

  // ---------------------------------------------------------------------------
  // What the documentation says
  // ---------------------------------------------------------------------------

  /** As documented, `**` matches any depth wherever it stands. */
  function DocTokens(pattern: string): seq<Token>
    decreases |pattern|
  {
    if pattern == [] then []
    else if ANY_DEPTH <= pattern then [Segments] + DocTokens(pattern[3..])
    else if ANY <= pattern then [Anything] + DocTokens(pattern[2..])
    else if IsStar(pattern) then [Run] + DocTokens(pattern[1..])
    else [Lit(pattern[0])] + DocTokens(pattern[1..])
  }

  /** A `**` stands at `i`, followed by something other than a slash. */
  predicate InnerAt(pattern: string, i: nat) {
    i + 2 < |pattern| && pattern[i] == '*' && pattern[i + 1] == '*' && pattern[i + 2] != '/'
  }

  ghost predicate HasInnerStars(pattern: string) {
    exists i: nat :: InnerAt(pattern, i)
  }

  /** Skipping characters at which no such `**` stands. */
  lemma InnerBehind(pattern: string, k: nat)
    requires k <= |pattern| && forall i: nat :: i < k ==> !InnerAt(pattern, i)
    ensures HasInnerStars(pattern) <==> HasInnerStars(pattern[k..])
  {
    if i: nat :| InnerAt(pattern, i) {
      assert InnerAt(pattern[k..], i - k);
    }
    if i: nat :| InnerAt(pattern[k..], i) {
      assert InnerAt(pattern, i + k);
    }
  }

  /** The first star of such a `**` is the only star the scan takes for itself. */
  lemma {:induction false} InnerStarsAreLiteral(pattern: string)
    ensures Lit('*') in Tokens(pattern) <==> HasInnerStars(pattern)
    decreases |pattern|
  {
    if pattern == [] {
    } else if ANY_DEPTH <= pattern {
      InnerBehind(pattern, 3);
      InnerStarsAreLiteral(pattern[3..]);
    } else if pattern == ANY {
    } else if ANY <= pattern {
      assert InnerAt(pattern, 0);
    } else {
      InnerBehind(pattern, 1);
      InnerStarsAreLiteral(pattern[1..]);
    }
  }

  lemma {:induction false} DocTokensAgree(pattern: string)
    requires Lit('*') !in Tokens(pattern)
    ensures DocTokens(pattern) == Tokens(pattern)
    decreases |pattern|
  {
    if pattern == [] {
    } else if ANY_DEPTH <= pattern {
      DocTokensAgree(pattern[3..]);
    } else if pattern == ANY {
      assert pattern[2..] == [];
    } else if ANY <= pattern {
      assert false;
    } else {
      DocTokensAgree(pattern[1..]);
    }
  }

  /** The shortest text the tokens read. */
  function Shortest(tokens: seq<Token>): string {
    if tokens == [] then []
    else (if tokens[0].Lit? then [tokens[0].c] else []) + Shortest(tokens[1..])
  }

  lemma {:induction false} ShortestIsReadable(tokens: seq<Token>)
    ensures Readable(tokens, Shortest(tokens))
  {
    if tokens == [] {
      ReadableNothing([]);
    } else {
      ShortestIsReadable(tokens[1..]);
      var text := Shortest(tokens);
      var i := if tokens[0].Lit? then 1 else 0;
      assert tokens == [tokens[0]] + tokens[1..] && text[i..] == Shortest(tokens[1..]);
      assert Fits(tokens[0], text[..i]);
      ReadableStep(tokens[0], tokens[1..], text);
    }
  }

  lemma {:induction false} DocHasNoStars(pattern: string)
    ensures '*' !in Shortest(DocTokens(pattern))
    decreases |pattern|
  {
    if pattern != [] {
      DocHasNoStars(pattern[if ANY_DEPTH <= pattern then 3 else if ANY <= pattern then 2 else 1..]);
    }
  }

  /** A literal stands in every text that is read by it. */
  lemma {:induction false} LiteralIsInText(tokens: seq<Token>, text: string, c: char)
    requires Readable(tokens, text) && Lit(c) in tokens
    ensures c in text
  {
    ReadableStep(tokens[0], tokens[1..], text);
    assert tokens == [tokens[0]] + tokens[1..];
    var i :| 0 <= i <= |text| && Fits(tokens[0], text[..i]) && Readable(tokens[1..], text[i..]);
    if tokens[0] == Lit(c) {
      assert text[..i][0] == text[0];
    } else {
      LiteralIsInText(tokens[1..], text[i..], c);
    }
  }

  /** The matcher does what is documented on every text if and only if the pattern
      has no `**` that is neither followed by a slash nor final. */
  lemma DocumentedIffNoInnerStars(pattern: string)
    ensures (forall text :: GlobMatches(pattern, text) <==> Readable(DocTokens(pattern), text)) <==> !HasInnerStars(pattern)
  {
    InnerStarsAreLiteral(pattern);
    if HasInnerStars(pattern) {
      var text := Shortest(DocTokens(pattern));
      ShortestIsReadable(DocTokens(pattern));
      DocHasNoStars(pattern);
      MatchesIffReadable(pattern, text);
      if GlobMatches(pattern, text) {
        LiteralIsInText(Tokens(pattern), text, '*');
      }
    } else {
      DocTokensAgree(pattern);
      forall text ensures GlobMatches(pattern, text) <==> Readable(DocTokens(pattern), text) {
        MatchesIffReadable(pattern, text);
      }
    }
  }

  /** A `**` that is neither `**` + slash nor final does not match any depth: its
      first star stands for itself, and the next one for a slash-free run. */
  lemma InnerDoubleStar()
    ensures Tokens("a**b") == [Lit('a'), Lit('*'), Run, Lit('b')]
    ensures !GlobMatches("a**b", "ab") && GlobMatches("a**b", "a*b")
  {
    assert "a**b"[1..] == "**b" && "**b"[1..] == "*b" && "*b"[1..] == "b" && "b"[1..] == "";
    assert Tokens("b") == [Lit('b')];
    assert Tokens("*b") == [Run, Lit('b')];
    assert Tokens("**b") == [Lit('*'), Run, Lit('b')];
    assert "ab"[1..] == "b" && !GlobMatches("**b", "b");
    assert "a*b"[1..] == "*b";
    assert GlobMatches("b", "b") by { assert GlobMatches("", ""); }
    assert "b"[0..] == "b" && "b"[..0] == [];
    assert GlobMatches("*b", "b");
    assert GlobMatches("**b", "*b");
  }
}
