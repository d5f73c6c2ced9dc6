/** Which texts a ledger line may be: `JsonText` reads exactly the texts of the JSON
    grammar (RFC 8259) whose values are strings, unsigned integers and objects. */
module JsonGrammar {
  import opened Wrappers
  import opened JsonText

  // ---------------------------------------------------------------------------
  // The grammar
  // ---------------------------------------------------------------------------

  /** Section 2: blanks around any token. */
  predicate IsSpace(s: string) {
    forall i :: 0 <= i < |s| ==> s[i] in " \t\n\r"
  }

  const LOWER := "0123456789abcdef"
  const UPPER := "0123456789ABCDEF"

  predicate IsHexOf(c: char, d: nat) {
    d < 16 && (c == LOWER[d] || c == UPPER[d])
  }

  predicate IsHex4Of(s: string, n: nat) {
    && |s| == 4 && n < 0x1_0000
    && IsHexOf(s[0], n / 4096) && IsHexOf(s[1], n / 256 % 16) && IsHexOf(s[2], n / 16 % 16) && IsHexOf(s[3], n % 16)
  }

  predicate IsEscapeOf(x: char, c: char) {
    || (x == c && c in {'"', '\\', '/'})
    || (x == 'b' && c == '\U{8}') || (x == 'f' && c == '\U{C}')
    || (x == 'n' && c == '\U{A}') || (x == 'r' && c == '\U{D}') || (x == 't' && c == '\U{9}')
  }

  predicate IsCode(s: string, n: nat) {
    |s| == 6 && s[0] == '\\' && s[1] == 'u' && IsHex4Of(s[2..], n)
  }

  /** The two surrogates of a character beyond the first plane (section 3.1 of RFC 2781). */
  function High(c: char): nat
    requires c as int >= 0x1_0000
  {
    0xD800 + (c as int - 0x1_0000) / 0x400
  }

  function Low(c: char): nat
    requires c as int >= 0x1_0000
  {
    0xDC00 + (c as int - 0x1_0000) % 0x400
  }

  /** Section 7: a character as it is, after a backslash, by its code, or by the codes
      of its two surrogates. */
  predicate Spells(s: string, c: char) {
    || (s == [c] && c >= ' ' && c != '"' && c != '\\')
    || (|s| == 2 && s[0] == '\\' && IsEscapeOf(s[1], c))
    || IsCode(s, c as int)
    || (|s| == 12 && c as int >= 0x1_0000 && IsCode(s[..6], High(c)) && IsCode(s[6..], Low(c)))
  }

  ghost predicate SpellsAll(s: string, text: string)
    decreases |text|
  {
    if text == [] then s == []
    else exists first, more :: s == first + more && Spells(first, text[0]) && SpellsAll(more, text[1..])
  }

  ghost predicate IsString(s: string, text: string) {
    exists body :: s == "\"" + (body + "\"") && SpellsAll(body, text)
  }

  /** Sections 3, 4 and 6: a string, digits without a leading zero, or an object. */
  ghost predicate IsValue(s: string, t: Tree)
    decreases t, 0
  {
    match t
    case Str(text) => IsString(s, text)
    case Num(n) => s == Decimal(n)
    case Obj(members) => exists inside :: s == "{" + (inside + "}") && IsInside(inside, members)
  }

  ghost predicate IsInside(s: string, members: Members)
    decreases members, 2
  {
    if members.End? then IsSpace(s) else IsMembers(s, members)
  }

  ghost predicate IsMembers(s: string, members: Members)
    requires members.Member?
    decreases members, 1
  {
    exists first, more :: s == first + more && IsMember(first, members) && IsTail(more, members)
  }

  /** The members after the first, each led by a comma. */
  ghost predicate IsTail(s: string, members: Members)
    requires members.Member?
    decreases members, 0
  {
    if members.rest.End? then s == "" else s != "" && s[0] == ',' && IsMembers(s[1..], members.rest)
  }

  ghost predicate IsMember(s: string, members: Members)
    requires members.Member?
    decreases members, 0
  {
    exists name, value :: s == name + (":" + value) && IsName(name, members.key) && IsSpaced(value, members.value)
  }

  ghost predicate IsName(s: string, key: string) {
    exists before, name, after :: s == before + (name + after) && IsSpace(before) && IsSpace(after) && IsString(name, key)
  }

  /** A value with blanks around it, which is what a whole text is. */
  ghost predicate IsSpaced(s: string, t: Tree)
    decreases t, 1
  {
    exists before, value, after :: s == before + (value + after) && IsSpace(before) && IsSpace(after) && IsValue(value, t)
  }

  // ---------------------------------------------------------------------------
  // Blanks
  // ---------------------------------------------------------------------------

  lemma {:induction false} SpaceSkipped(before: string, rest: string)
    requires IsSpace(before) && (rest == [] || rest[0] !in " \t\n\r")
    ensures SkipSpace(before + rest) == rest
  {
    if before == [] {
      assert before + rest == rest;
    } else {
      SpaceSkipped(before[1..], rest);
      assert (before + rest)[1..] == before[1..] + rest;
    }
  }

  lemma {:induction false} SkippedIsSpace(s: string) returns (before: string)
    ensures s == before + SkipSpace(s) && IsSpace(before)
    ensures SkipSpace(s) == [] || SkipSpace(s)[0] !in " \t\n\r"
  {
    if s != [] && s[0] in " \t\n\r" {
      var more := SkippedIsSpace(s[1..]);
      before := [s[0]] + more;
      assert s == [s[0]] + s[1..];
    } else {
      before := [];
    }
  }

  // ---------------------------------------------------------------------------
  // Strings
  // ---------------------------------------------------------------------------

  lemma HexIsExact(c: char, d: nat)
    ensures HexDigit(c) == Some(d) <==> IsHexOf(c, d)
  {
    if '0' <= c <= '9' {
      assert LOWER[c as int - '0' as int] == c;
    } else if 'a' <= c <= 'f' {
      assert LOWER[c as int - 'a' as int + 10] == c;
    } else if 'A' <= c <= 'F' {
      assert UPPER[c as int - 'A' as int + 10] == c;
    }
  }

  lemma FourDigits(a: nat, b: nat, c: nat, d: nat, n: nat)
    requires a < 16 && b < 16 && c < 16 && d < 16
    ensures n == a * 4096 + b * 256 + c * 16 + d <==>
      n < 0x1_0000 && a == n / 4096 && b == n / 256 % 16 && c == n / 16 % 16 && d == n % 16
  {
    var tens := n / 16;
    var hundreds := tens / 16;
    assert n / 256 == hundreds && n / 4096 == hundreds / 16;
    if n == a * 4096 + b * 256 + c * 16 + d {
      assert n == (a * 256 + b * 16 + c) * 16 + d;
      assert tens == (a * 16 + b) * 16 + c;
      assert hundreds == a * 16 + b;
    }
  }

  lemma HexSound(s: string)
    requires ParseHex4(s).Some?
    ensures IsHex4Of(s[..4], ParseHex4(s).value)
  {
    var a, b, c, d := HexDigit(s[0]).value, HexDigit(s[1]).value, HexDigit(s[2]).value, HexDigit(s[3]).value;
    FourDigits(a, b, c, d, ParseHex4(s).value);
    HexIsExact(s[0], a);
    HexIsExact(s[1], b);
    HexIsExact(s[2], c);
    HexIsExact(s[3], d);
  }

  lemma HexComplete(s: string, n: nat)
    requires |s| >= 4 && IsHex4Of(s[..4], n)
    ensures ParseHex4(s) == Some(n)
  {
    var a, b, c, d := n / 4096, n / 256 % 16, n / 16 % 16, n % 16;
    HexIsExact(s[0], a);
    HexIsExact(s[1], b);
    HexIsExact(s[2], c);
    HexIsExact(s[3], d);
    FourDigits(a, b, c, d, n);
  }

  lemma CodeIsExact(s: string, n: nat)
    requires |s| >= 6
    ensures IsCode(s[..6], n) <==> s[0] == '\\' && s[1] == 'u' && ParseHex4(s[2..]) == Some(n)
  {
    assert s[..6][2..] == s[2..][..4];
    if IsHex4Of(s[2..][..4], n) {
      HexComplete(s[2..], n);
    } else if ParseHex4(s[2..]) == Some(n) {
      HexSound(s[2..]);
    }
  }

  /** A surrogate pair is one character, and each such character one pair. */
  lemma PairIsChar(high: nat, low: nat)
    requires 0xD800 <= high < 0xDC00 <= low < 0xE000
    ensures var c := (0x1_0000 + (high - 0xD800) * 0x400 + (low - 0xDC00)) as char; High(c) == high && Low(c) == low
  {
  }

  lemma CharIsPair(c: char)
    requires c as int >= 0x1_0000
    ensures 0xD800 <= High(c) < 0xDC00 <= Low(c) < 0xE000
    ensures 0x1_0000 + (High(c) - 0xD800) * 0x400 + (Low(c) - 0xDC00) == c as int
  {
  }

  lemma OneCodeReads(s: string, c: char)
    requires |s| >= 4 && ParseHex4(s) == Some(c as int)
    ensures ParseUnicode(s) == Some((c, s[4..]))
  {
  }

  lemma PairReads(s: string, high: nat, low: nat)
    requires |s| >= 10 && s[4] == '\\' && s[5] == 'u' && 0xD800 <= high < 0xDC00 <= low < 0xE000
    requires ParseHex4(s) == Some(high) && ParseHex4(s[6..]) == Some(low)
    ensures ParseUnicode(s) == Some(((0x1_0000 + (high - 0xD800) * 0x400 + (low - 0xDC00)) as char, s[10..]))
  {
  }

  lemma UnicodeReads(s: string)
    requires ParseUnicode(s).Some?
    ensures var unit := ParseHex4(s);
      && unit.Some?
      && if unit.value < 0xD800 || 0xE000 <= unit.value then ParseUnicode(s).value == (unit.value as char, s[4..])
         else
           && |s| >= 10 && s[4] == '\\' && s[5] == 'u' && ParseHex4(s[6..]).Some?
           && 0xD800 <= unit.value < 0xDC00 <= ParseHex4(s[6..]).value < 0xE000
  {
  }

  lemma CodedChar(s: string)
    requires |s| >= 2 && s[0] == '\\' && s[1] == 'u'
    ensures ParseChar(s) == ParseUnicode(s[2..])
  {
  }

  /** Any spelling is read as its character, whatever follows, */
  lemma CharComplete(first: string, c: char, rest: string)
    requires Spells(first, c)
    ensures first != [] && first[0] != '"' && ParseChar(first + rest) == Some((c, rest))
  {
    if |first| == 6 {
      CodeComplete(first, c, rest);
    } else if |first| == 12 {
      PairComplete(first, c, rest);
    } else {
      var s := first + rest;
      assert s[|first|..] == rest && s[0] == first[0];
    }
  }

  lemma CodeComplete(first: string, c: char, rest: string)
    requires IsCode(first, c as int)
    ensures ParseChar(first + rest) == Some((c, rest))
  {
    var s := first + rest;
    assert s[..6] == first && s[2..][4..] == rest;
    CodeIsExact(s, c as int);
    CodedChar(s);
    OneCodeReads(s[2..], c);
  }

  lemma PairComplete(first: string, c: char, rest: string)
    requires |first| == 12 && c as int >= 0x1_0000 && IsCode(first[..6], High(c)) && IsCode(first[6..], Low(c))
    ensures ParseChar(first + rest) == Some((c, rest))
  {
    var s := first + rest;
    var high, low := High(c), Low(c);
    CharIsPair(c);
    assert s[..6] == first[..6] && s[6..][..6] == first[6..];
    CodeIsExact(s, high);
    CodeIsExact(s[6..], low);
    assert s[2..][6..] == s[6..][2..] && s[2..][10..] == rest;
    assert s[2..][4] == s[6..][0] && s[2..][5] == s[6..][1];
    PairReads(s[2..], high, low);
    CodedChar(s);
  }

  /** and nothing else is. */
  lemma CharSound(s: string) returns (first: string)
    requires s != [] && s[0] != '"' && ParseChar(s).Some?
    ensures Spells(first, ParseChar(s).value.0) && s == first + ParseChar(s).value.1
  {
    first := s[..|s| - |ParseChar(s).value.1|];
    if s[0] == '\\' && s[1] == 'u' {
      CodeSound(s, first);
    }
  }

  lemma CodeSound(s: string, first: string)
    requires |s| > 2 && s[0] == '\\' && s[1] == 'u' && ParseUnicode(s[2..]).Some?
    requires first == s[..|s| - |ParseUnicode(s[2..]).value.1|]
    ensures Spells(first, ParseUnicode(s[2..]).value.0) && s == first + ParseUnicode(s[2..]).value.1
  {
    var code := s[2..];
    UnicodeReads(code);
    var unit := ParseHex4(code).value;
    CodeIsExact(s, unit);
    if unit < 0xD800 || 0xE000 <= unit {
      assert code[4..] == s[6..];
    } else {
      var low := ParseHex4(code[6..]).value;
      PairReads(code, unit, low);
      assert code[10..] == s[12..] && code[6..] == s[6..][2..];
      CodeIsExact(s[6..], low);
      assert first[..6] == s[..6] && first[6..] == s[6..][..6];
      PairIsChar(unit, low);
    }
  }

  lemma OneMoreChar(s: string)
    requires s != [] && s[0] != '"' && ParseChar(s).Some?
    ensures var (c, rest) := ParseChar(s).value;
      ParseChars(s) == match ParseChars(rest) case None => None case Some((text, after)) => Some(([c] + text, after))
  {
  }

  lemma SpelledFirst(first: string, c: char, tail: string, text: string, rest: string)
    requires Spells(first, c) && ParseChars(tail) == Some((text, rest))
    ensures ParseChars(first + tail) == Some(([c] + text, rest))
  {
    CharComplete(first, c, tail);
    assert (first + tail)[0] == first[0];
    OneMoreChar(first + tail);
  }

  lemma {:induction false} CharsComplete(body: string, text: string, rest: string)
    requires SpellsAll(body, text)
    ensures ParseChars(body + ("\"" + rest)) == Some((text, rest))
    decreases |text|
  {
    var s := body + ("\"" + rest);
    if text == [] {
      assert s[0] == '"' && s[1..] == rest;
    } else {
      var first, more :| body == first + more && Spells(first, text[0]) && SpellsAll(more, text[1..]);
      CharsComplete(more, text[1..], rest);
      SpelledFirst(first, text[0], more + ("\"" + rest), text[1..], rest);
      Associate(first, more, "\"" + rest);
      assert [text[0]] + text[1..] == text;
    }
  }

  lemma {:induction false} CharsSound(s: string) returns (body: string)
    requires ParseChars(s).Some?
    ensures SpellsAll(body, ParseChars(s).value.0) && s == body + ("\"" + ParseChars(s).value.1)
    decreases |s|
  {
    var (text, rest) := ParseChars(s).value;
    if s[0] == '"' {
      body := [];
      assert s == "\"" + rest;
    } else {
      var first := CharSound(s);
      var after := ParseChar(s).value.1;
      var more := CharsSound(after);
      body := first + more;
      OneMoreChar(s);
      assert text[0] == ParseChar(s).value.0 && text[1..] == ParseChars(after).value.0;
      Associate(first, more, "\"" + rest);
    }
  }

  // ---------------------------------------------------------------------------
  // Numbers
  // ---------------------------------------------------------------------------

  lemma {:induction false} DigitsAreDecimal(s: string)
    requires s != [] && (forall i :: 0 <= i < |s| ==> IsDigit(s[i])) && (|s| > 1 ==> s[0] != '0')
    ensures s == Decimal(DigitsValue(s)) && (s[0] != '0' ==> DigitsValue(s) > 0)
  {
    var n := |s| - 1;
    var last := s[n] as int - '0' as int;
    assert IsDigit(s[n]) && DECIMAL[last] == s[n];
    if n == 0 {
      assert s[..0] == [];
      assert s == [s[0]];
    } else {
      DigitsAreDecimal(s[..n]);
      assert DigitsValue(s) / 10 == DigitsValue(s[..n]) && DigitsValue(s) % 10 == last;
      assert s == s[..n] + [s[n]];
    }
  }

  lemma NumberSound(s: string)
    requires ParseNumber(s).Some?
    ensures s == Decimal(ParseNumber(s).value.0) + ParseNumber(s).value.1
  {
    var n := DigitRun(s);
    DigitsAreDecimal(s[..n]);
  }

  // ---------------------------------------------------------------------------
  // Values
  // ---------------------------------------------------------------------------

  lemma StringComplete(s: string, text: string, rest: string)
    requires IsString(s, text)
    ensures s != [] && s[0] == '"' && ParseChars((s + rest)[1..]) == Some((text, rest))
  {
    var body :| s == "\"" + (body + "\"") && SpellsAll(body, text);
    CharsComplete(body, text, rest);
    assert (s + rest)[1..] == body + ("\"" + rest);
  }

  lemma StringSound(s: string) returns (quoted: string)
    requires s != [] && s[0] == '"' && ParseChars(s[1..]).Some?
    ensures IsString(quoted, ParseChars(s[1..]).value.0) && s == quoted + ParseChars(s[1..]).value.1
  {
    var body := CharsSound(s[1..]);
    quoted := "\"" + (body + "\"");
    assert s == ["\""[0]] + s[1..];
  }

  /** What a value begins with. */
  predicate Opens(c: char) {
    c == '"' || c == '{' || IsDigit(c)
  }

  lemma ValueOpens(s: string, t: Tree)
    requires IsValue(s, t)
    ensures s != [] && Opens(s[0])
  {
    match t
    case Str(text) => StringComplete(s, text, []);
    case Num(n) => DecimalDigits(n);
    case Obj(members) =>
  }

  lemma {:induction false} ValueComplete(before: string, s: string, t: Tree, rest: string)
    requires IsSpace(before) && IsValue(s, t) && EndsNumber(rest)
    ensures ParseTree(before + (s + rest)) == Some((t, rest))
    decreases t, 0
  {
    ValueOpens(s, t);
    assert (s + rest)[0] == s[0];
    SpaceIsSkipped(before, s + rest);
    match t
    case Str(text) => StringReads(s, text, rest);
    case Num(n) => NumberTreeRoundTrip(n, rest);
    case Obj(members) =>
      var inside :| s == "{" + (inside + "}") && IsInside(inside, members);
      Spaced("{", inside, "}", rest);
      Headed(s + rest, '{', inside + ("}" + rest));
      InsideComplete(s + rest, inside, members, rest);
  }

  lemma StringReads(s: string, text: string, rest: string)
    requires IsString(s, text)
    ensures ParseTree(s + rest) == Some((Str(text), rest))
  {
    StringComplete(s, text, rest);
    StringOf(s + rest, text, rest);
  }

  lemma SpaceIsSkipped(before: string, s: string)
    requires IsSpace(before) && s != [] && Opens(s[0])
    ensures ParseTree(before + s) == ParseTree(s)
  {
    SpaceSkipped(before, s);
    SpaceSkipped("", s);
    assert "" + s == s;
  }

  lemma {:induction false} InsideComplete(s: string, inside: string, members: Members, rest: string)
    requires IsInside(inside, members) && s != [] && s[0] == '{' && s[1..] == inside + ("}" + rest)
    ensures ParseTree(s) == Some((Obj(members), rest))
    decreases members, 4
  {
    if members.End? {
      SpaceSkipped(inside, "}" + rest);
    } else {
      MembersComplete(inside, members, rest);
      MembersOpen(s[1..]);
    }
  }

  /** Where members can be read, blanks and a quote stand. */
  lemma MembersOpen(s: string)
    requires ParseMembers(s).Some?
    ensures SkipSpace(s) != [] && SkipSpace(s)[0] == '"' && ParseMembers(SkipSpace(s)) == ParseMembers(s)
  {
    assert SkipSpace(SkipSpace(s)) == SkipSpace(s);
  }

  lemma NameReads(before: string, name: string, after: string, key: string, rest: string)
    requires IsSpace(before) && IsSpace(after) && IsString(name, key) && rest != [] && rest[0] == ':'
    ensures name != [] && name[0] == '"' && SkipSpace(before + (name + (after + rest))) == name + (after + rest)
    ensures ParseChars((name + (after + rest))[1..]) == Some((key, after + rest)) && SkipSpace(after + rest) == rest
  {
    StringComplete(name, key, after + rest);
    assert (name + (after + rest))[0] == name[0];
    SpaceSkipped(before, name + (after + rest));
    SpaceSkipped(after, rest);
  }

  lemma Spaced(before: string, core: string, after: string, rest: string)
    ensures before + (core + after) + rest == before + (core + (after + rest))
  {
    Associate(core, after, rest);
    Associate(before, core + after, rest);
  }

  lemma {:induction false} SpacedComplete(s: string, t: Tree, rest: string)
    requires IsSpaced(s, t) && (rest == [] || rest[0] == ',' || rest[0] == '}')
    ensures ParseTree(s + rest).Some? && ParseTree(s + rest).value.0 == t
    ensures SkipSpace(ParseTree(s + rest).value.1) == rest
    decreases t, 1
  {
    var before, value, after :| s == before + (value + after) && IsSpace(before) && IsSpace(after) && IsValue(value, t);
    Spaced(before, value, after, rest);
    SpaceEndsNumber(after, rest);
    ValueComplete(before, value, t, after + rest);
    SpaceSkipped(after, rest);
  }

  lemma SpaceEndsNumber(after: string, rest: string)
    requires IsSpace(after) && (rest == [] || rest[0] == ',' || rest[0] == '}')
    ensures EndsNumber(after + rest)
  {
    if after != [] {
      assert (after + rest)[0] == after[0];
    }
  }

  /** One member is read off, what follows its value already read. */
  lemma MemberReads(s: string, members: Members, rest: string)
    requires members.Member? && IsMember(s, members) && rest != [] && (rest[0] == ',' || rest[0] == '}')
    ensures ParseMembers(s + rest) ==
      if rest[0] == '}' then Some((Member(members.key, members.value, End), rest[1..]))
      else match ParseMembers(rest[1..]) case None => None case Some((more, after)) => Some((Member(members.key, members.value, more), after))
    decreases members, 2
  {
    var name, value :| s == name + (":" + value) && IsName(name, members.key) && IsSpaced(value, members.value);
    var before, quoted, after :|
      name == before + (quoted + after) && IsSpace(before) && IsSpace(after) && IsString(quoted, members.key);
    var colon := ":" + (value + rest);
    Spaced(name, ":", value, rest);
    Spaced(before, quoted, after, colon);
    NameReads(before, quoted, after, members.key, colon);
    assert colon[1..] == value + rest && colon[0] == ':';
    SpacedComplete(value, members.value, rest);
    OneMember(s + rest, quoted + (after + colon), members.key, after + colon, colon, members.value, ParseTree(value + rest).value.1, rest);
  }

  lemma OneMember(text: string, s: string, key: string, afterKey: string, colon: string, value: Tree, afterValue: string, rest: string)
    requires SkipSpace(text) == s && s != [] && s[0] == '"' && ParseChars(s[1..]) == Some((key, afterKey))
    requires SkipSpace(afterKey) == colon && colon != [] && colon[0] == ':' && ParseTree(colon[1..]) == Some((value, afterValue))
    requires SkipSpace(afterValue) == rest && rest != [] && (rest[0] == ',' || rest[0] == '}')
    ensures ParseMembers(text) ==
      if rest[0] == '}' then Some((Member(key, value, End), rest[1..]))
      else match ParseMembers(rest[1..]) case None => None case Some((more, after)) => Some((Member(key, value, more), after))
  {
  }

  lemma {:induction false} MembersComplete(s: string, members: Members, rest: string)
    requires members.Member? && IsMembers(s, members)
    ensures ParseMembers(s + ("}" + rest)) == Some((members, rest))
    decreases members, 3
  {
    var first, more :| s == first + more && IsMember(first, members) && IsTail(more, members);
    var tail := more + ("}" + rest);
    Associate(first, more, "}" + rest);
    if members.rest.Member? {
      MembersComplete(more[1..], members.rest, rest);
      Headed(more, ',', more[1..]);
      Associate(",", more[1..], "}" + rest);
      Headed(tail, ',', more[1..] + ("}" + rest));
    } else {
      Headed(tail, '}', rest);
    }
    MemberReads(first, members, tail);
  }

  // ---------------------------------------------------------------------------
  // Nothing else is read
  // ---------------------------------------------------------------------------

  lemma {:induction false} ValueSound(text: string) returns (before: string, value: string)
    requires ParseTree(text).Some?
    ensures IsSpace(before) && IsValue(value, ParseTree(text).value.0)
    ensures text == before + (value + ParseTree(text).value.1)
    decreases |text|, 1
  {
    before := SkippedIsSpace(text);
    var s := SkipSpace(text);
    if s[0] == '"' {
      value := StringSound(s);
    } else if s[0] == '{' {
      value := ObjectSound(s);
    } else {
      NumberSound(s);
      value := Decimal(ParseNumber(s).value.0);
    }
  }

  lemma {:induction false} ObjectSound(s: string) returns (value: string)
    requires s != [] && s[0] == '{' && ParseTree(s).Some?
    ensures IsValue(value, ParseTree(s).value.0) && s == value + ParseTree(s).value.1
    decreases |s|, 0
  {
    var space := SkippedIsSpace(s[1..]);
    var inside := SkipSpace(s[1..]);
    ObjectReads(s);
    if inside[0] == '}' {
      value := Embraced(s, space, End, inside[1..]);
    } else {
      var members := MembersSound(inside);
      var (ms, rest) := ParseMembers(inside).value;
      SpaceBeforeMembers(space, members, ms);
      Associate(space, members, "}" + rest);
      value := Embraced(s, space + members, ms, rest);
    }
  }

  lemma ObjectReads(s: string)
    requires s != [] && s[0] == '{' && ParseTree(s).Some?
    ensures var inside := SkipSpace(s[1..]);
      && inside != []
      && (inside[0] == '}' ==> ParseTree(s) == Some((Obj(End), inside[1..])))
      && (inside[0] != '}' ==> ParseMembers(inside).Some? && ParseTree(s) == Some((Obj(ParseMembers(inside).value.0), ParseMembers(inside).value.1)))
  {
    assert SkipSpace(s) == s;
  }

  lemma Embraced(s: string, content: string, members: Members, rest: string) returns (value: string)
    requires s != [] && s[0] == '{' && s[1..] == content + ("}" + rest) && IsInside(content, members)
    ensures IsValue(value, Obj(members)) && s == value + rest
  {
    value := "{" + (content + "}");
    Spaced("{", content, "}", rest);
  }

  lemma SpaceBeforeMembers(space: string, s: string, members: Members)
    requires IsSpace(space) && members.Member? && IsMembers(s, members)
    ensures IsMembers(space + s, members)
  {
    var first, more :| s == first + more && IsMember(first, members) && IsTail(more, members);
    SpaceBeforeMember(space, first, members);
    Associate(space, first, more);
  }

  lemma SpaceBeforeMember(space: string, s: string, members: Members)
    requires IsSpace(space) && members.Member? && IsMember(s, members)
    ensures IsMember(space + s, members)
  {
    var name, value :| s == name + (":" + value) && IsName(name, members.key) && IsSpaced(value, members.value);
    SpaceBeforeName(space, name, members.key);
    Associate(space, name, ":" + value);
  }

  lemma SpaceBeforeName(space: string, s: string, key: string)
    requires IsSpace(space) && IsName(s, key)
    ensures IsName(space + s, key)
  {
    var before, name, after :| s == before + (name + after) && IsSpace(before) && IsSpace(after) && IsString(name, key);
    Associate(space, before, name + after);
    assert IsSpace(space + before);
  }

  lemma {:induction false} MembersSound(text: string) returns (inner: string)
    requires ParseMembers(text).Some?
    ensures ParseMembers(text).value.0.Member? && IsMembers(inner, ParseMembers(text).value.0)
    ensures text == inner + ("}" + ParseMembers(text).value.1)
    decreases |text|, 0
  {
    var (members, rest) := ParseMembers(text).value;
    MembersRead(text);
    var before := SkippedIsSpace(text);
    var s := SkipSpace(text);
    var quoted := StringSound(s);
    var afterKey := ParseChars(s[1..]).value.1;
    var name := NamePart(text, before, quoted, afterKey, members.key);
    var colon := SkipSpace(afterKey);
    var space, v := ValueSound(colon[1..]);
    var afterValue := ParseTree(colon[1..]).value.1;
    var value := ValuePart(colon[1..], space, v, afterValue, members.value);
    var first := MemberPart(text, name, colon, value, SkipSpace(afterValue), members);
    inner := first;
    if members.rest.Member? {
      var more := MembersSound(SkipSpace(afterValue)[1..]);
      inner := FirstAndMore(text, first, more, SkipSpace(afterValue), rest, members);
    } else {
      LastMember(text, first, SkipSpace(afterValue), rest, members);
    }
  }

  /** What reading members comes across. */
  lemma MembersRead(text: string)
    requires ParseMembers(text).Some?
    ensures var (members, rest) := ParseMembers(text).value;
      var s := SkipSpace(text);
      && members.Member? && s != [] && s[0] == '"' && ParseChars(s[1..]).Some? && ParseChars(s[1..]).value.0 == members.key
      && var colon := SkipSpace(ParseChars(s[1..]).value.1);
      && colon != [] && colon[0] == ':' && ParseTree(colon[1..]).Some? && ParseTree(colon[1..]).value.0 == members.value
      && var next := SkipSpace(ParseTree(colon[1..]).value.1);
      && next != []
      && (members.rest.End? ==> next[0] == '}' && rest == next[1..])
      && (members.rest.Member? ==> next[0] == ',' && ParseMembers(next[1..]) == Some((members.rest, rest)))
  {
    NeverNoMembers(text);
    var s := SkipSpace(text);
    var colon := SkipSpace(ParseChars(s[1..]).value.1);
    var next := SkipSpace(ParseTree(colon[1..]).value.1);
    if next[0] == ',' {
      NeverNoMembers(next[1..]);
    }
  }

  lemma NeverNoMembers(text: string)
    ensures ParseMembers(text).Some? ==> ParseMembers(text).value.0.Member?
  {
  }

  lemma NamePart(text: string, before: string, quoted: string, afterKey: string, key: string) returns (name: string)
    requires IsSpace(before) && IsString(quoted, key) && text == before + (quoted + afterKey)
    ensures IsName(name, key) && text == name + SkipSpace(afterKey)
  {
    var after := SkippedIsSpace(afterKey);
    name := before + (quoted + after);
    Spaced(before, quoted, after, SkipSpace(afterKey));
  }

  lemma ValuePart(text: string, before: string, v: string, afterValue: string, t: Tree) returns (value: string)
    requires IsSpace(before) && IsValue(v, t) && text == before + (v + afterValue)
    ensures IsSpaced(value, t) && text == value + SkipSpace(afterValue)
  {
    var after := SkippedIsSpace(afterValue);
    value := before + (v + after);
    Spaced(before, v, after, SkipSpace(afterValue));
  }

  lemma MemberPart(text: string, name: string, colon: string, value: string, next: string, members: Members) returns (first: string)
    requires members.Member? && IsName(name, members.key) && IsSpaced(value, members.value)
    requires text == name + colon && colon != [] && colon[0] == ':' && colon[1..] == value + next
    ensures IsMember(first, members) && text == first + next
  {
    first := name + (":" + value);
    assert colon == ":" + (value + next);
    Spaced(name, ":", value, next);
  }

  lemma LastMember(text: string, first: string, next: string, rest: string, members: Members)
    requires members.Member? && members.rest.End? && IsMember(first, members)
    requires text == first + next && next != [] && next[0] == '}' && next[1..] == rest
    ensures IsMembers(first, members) && text == first + ("}" + rest)
  {
    assert next == "}" + rest && first == first + "";
    assert IsTail("", members);
  }

  lemma FirstAndMore(text: string, first: string, more: string, next: string, rest: string, members: Members) returns (inner: string)
    requires members.Member? && members.rest.Member? && IsMember(first, members) && IsMembers(more, members.rest)
    requires text == first + next && next != [] && next[0] == ',' && next[1..] == more + ("}" + rest)
    ensures IsMembers(inner, members) && text == inner + ("}" + rest)
  {
    var tail := "," + more;
    inner := first + tail;
    FirstThenTail(first, more, members);
    Headed(next, ',', more + ("}" + rest));
    Associate(",", more, "}" + rest);
    Associate(first, tail, "}" + rest);
  }

  lemma FirstThenTail(first: string, more: string, members: Members)
    requires members.Member? && members.rest.Member? && IsMember(first, members) && IsMembers(more, members.rest)
    ensures IsMembers(first + ("," + more), members)
  {
    Headed("," + more, ',', more);
    assert IsTail("," + more, members);
  }

  lemma Headed(s: string, c: char, more: string)
    ensures s == [c] + more <==> s != [] && s[0] == c && s[1..] == more
  {
  }

  // ---------------------------------------------------------------------------
  // Documents
  // ---------------------------------------------------------------------------

  /** A text is read as a value exactly when the grammar derives it from that value. */
  lemma DocumentIsExact(text: string, t: Tree)
    ensures ParseDocument(text) == Some(t) <==> IsSpaced(text, t)
  {
    if IsSpaced(text, t) {
      SpacedComplete(text, t, []);
      assert text + [] == text;
    }
    if ParseDocument(text) == Some(t) {
      var before, value := ValueSound(text);
      var rest := ParseTree(text).value.1;
      var after := SkippedIsSpace(rest);
      assert rest == after;
    }
  }
}
