/** JSON text as ledger lines use it: a canonical printer (section 3.2 of
    RFC 8785) and a parser for the same values in any spacing and escaping. */
module JsonText {
  import opened Wrappers

  /** Strings, unsigned integers and objects, the only values a ledger line holds. */
  datatype Tree = Str(text: string) | Num(value: nat) | Obj(members: Members)

  /** The members of an object in the order they are written. */
  datatype Members = End | Member(key: string, value: Tree, rest: Members)

  // ---------------------------------------------------------------------------
  // Printing
  // ---------------------------------------------------------------------------

  const HEX := "0123456789abcdef"

  function Hex4(n: nat): string
    requires n < 0x1_0000
  {
    [HEX[n / 4096], HEX[n / 256 % 16], HEX[n / 16 % 16], HEX[n % 16]]
  }

  function EscapeChar(c: char): string {
    if c == '"' then "\\\""
    else if c == '\\' then "\\\\"
    else if c == '\U{8}' then "\\b"
    else if c == '\U{C}' then "\\f"
    else if c == '\n' then "\\n"
    else if c == '\r' then "\\r"
    else if c == '\t' then "\\t"
    else if c < ' ' then "\\u" + Hex4(c as int)
    else [c]
  }

  function Escape(s: string): string {
    if s == [] then [] else EscapeChar(s[0]) + Escape(s[1..])
  }

  function Quote(s: string): string {
    "\"" + Escape(s) + "\""
  }

  method JsonString(s: string) returns (out: string)
    ensures out == Quote(s)
  {
    out := "\"";
    assert s[0..] == s;
    for i := 0 to |s|
      invariant "\"" + Escape(s) == out + Escape(s[i..])
    {
      EscapeNext(out, s, i);
      out := out + EscapeChar(s[i]);
    }
    assert s[|s|..] == [] && out + [] == out;
    out := out + "\"";
  }

  lemma EscapeNext(out: string, s: string, i: nat)
    requires i < |s|
    ensures out + Escape(s[i..]) == out + EscapeChar(s[i]) + Escape(s[i + 1..])
  {
    assert s[i..][0] == s[i] && s[i..][1..] == s[i + 1..];
    Associate(out, EscapeChar(s[i]), Escape(s[i + 1..]));
  }

  lemma Associate(a: string, b: string, c: string)
    ensures a + (b + c) == a + b + c
  {
  }

  /** Every character has one escaped form: the short escapes of the quote, the
      backslash and five controls, four lowercase hex digits for the other controls,
      and itself otherwise (section 3.2.2.2 of RFC 8785). */
  lemma EscapesAreCanonical(c: char)
    ensures c == '"' ==> EscapeChar(c) == "\\\""
    ensures c == '\\' ==> EscapeChar(c) == "\\\\"
    ensures c == '\U{8}' ==> EscapeChar(c) == "\\b"
    ensures c == '\U{9}' ==> EscapeChar(c) == "\\t"
    ensures c == '\U{A}' ==> EscapeChar(c) == "\\n"
    ensures c == '\U{C}' ==> EscapeChar(c) == "\\f"
    ensures c == '\U{D}' ==> EscapeChar(c) == "\\r"
    ensures c < ' ' && c !in {'\U{8}', '\U{9}', '\U{A}', '\U{C}', '\U{D}'} ==>
      exists x, y :: EscapeChar(c) == "\\u00" + [x, y] && IsLowerHex(x) && IsLowerHex(y) && HexDigit(x) == Some(c as int / 16) && HexDigit(y) == Some(c as int % 16)
    ensures c >= ' ' && c != '"' && c != '\\' ==> EscapeChar(c) == [c]
  {
    if c < ' ' {
      var x, y := HEX[c as int / 16], HEX[c as int % 16];
      HexDigitRoundTrip(c as int / 16);
      HexDigitRoundTrip(c as int % 16);
      assert Hex4(c as int) == "00" + [x, y];
      assert "\\u" + ("00" + [x, y]) == "\\u00" + [x, y];
      assert IsLowerHex(x) && IsLowerHex(y);
    }
  }

  predicate IsLowerHex(c: char) {
    '0' <= c <= '9' || 'a' <= c <= 'f'
  }

  const DECIMAL := "0123456789"

  function Decimal(n: nat): string
    ensures Decimal(n) != []
  {
    if n < 10 then [DECIMAL[n]] else Decimal(n / 10) + [DECIMAL[n % 10]]
  }

  function Print(t: Tree): string {
    match t
    case Str(text) => Quote(text)
    case Num(value) => Decimal(value)
    case Obj(members) => "{" + PrintMembers(members) + "}"
  }

  function PrintMembers(members: Members): string {
    match members
    case End => []
    case Member(key, value, rest) =>
      Quote(key) + ":" + Print(value) + (if rest.End? then [] else "," + PrintMembers(rest))
  }

  // ---------------------------------------------------------------------------
  // Parsing
  // ---------------------------------------------------------------------------

  /** A parsed value and the text after it. */
  type Parsed<T> = Option<(T, string)>

  function SkipSpace(s: string): (r: string)
    ensures |r| <= |s|
    decreases |s|
  {
    if s != [] && (s[0] == ' ' || s[0] == '\t' || s[0] == '\n' || s[0] == '\r') then SkipSpace(s[1..]) else s
  }

  function HexDigit(c: char): Option<nat> {
    if '0' <= c <= '9' then Some(c as int - '0' as int)
    else if 'a' <= c <= 'f' then Some(c as int - 'a' as int + 10)
    else if 'A' <= c <= 'F' then Some(c as int - 'A' as int + 10)
    else None
  }

  function ParseHex4(s: string): (r: Option<nat>)
    ensures r.Some? ==> |s| >= 4 && r.value < 0x1_0000
  {
    if |s| < 4 then None
    else
      match (HexDigit(s[0]), HexDigit(s[1]), HexDigit(s[2]), HexDigit(s[3]))
      case (Some(a), Some(b), Some(c), Some(d)) =>
        if a < 16 && b < 16 && c < 16 && d < 16 then Some(a * 4096 + b * 256 + c * 16 + d) else None
      case _ => None
  }

  /** The character of a `\u` escape, after the `u`: one code unit, or a surrogate pair. */
  function ParseUnicode(s: string): (r: Parsed<char>)
    ensures r.Some? ==> |r.value.1| < |s|
  {
    match ParseHex4(s)
    case None => None
    case Some(unit) =>
      if unit < 0xD800 || 0xE000 <= unit then Some((unit as char, s[4..]))
      else if unit < 0xDC00 && |s| >= 6 && s[4] == '\\' && s[5] == 'u' then
        match ParseHex4(s[6..])
        case None => None
        case Some(low) =>
          if 0xDC00 <= low < 0xE000 then
            Some(((0x1_0000 + (unit - 0xD800) * 0x400 + (low - 0xDC00)) as char, s[10..]))
          else None
      else None
  }

  /** One character of a string literal, the closing quote excluded. */
  function ParseChar(s: string): (r: Parsed<char>)
    requires s != [] && s[0] != '"'
    ensures r.Some? ==> |r.value.1| < |s|
  {
    if s[0] == '\\' then
      if |s| < 2 then None
      else if s[1] == '"' || s[1] == '\\' || s[1] == '/' then Some((s[1], s[2..]))
      else if s[1] == 'b' then Some(('\U{8}', s[2..]))
      else if s[1] == 'f' then Some(('\U{C}', s[2..]))
      else if s[1] == 'n' then Some(('\n', s[2..]))
      else if s[1] == 'r' then Some(('\r', s[2..]))
      else if s[1] == 't' then Some(('\t', s[2..]))
      else if s[1] == 'u' then ParseUnicode(s[2..])
      else None
    else if s[0] < ' ' then None
    else Some((s[0], s[1..]))
  }

  /** The rest of a string literal, its opening quote already read. */
  function ParseChars(s: string): (r: Parsed<string>)
    ensures r.Some? ==> |r.value.1| < |s|
    decreases |s|
  {
    if s == [] then None
    else if s[0] == '"' then Some(([], s[1..]))
    else
      match ParseChar(s)
      case None => None
      case Some((c, rest)) =>
        match ParseChars(rest)
        case None => None
        case Some((text, after)) => Some(([c] + text, after))
  }

  predicate IsDigit(c: char) {
    '0' <= c <= '9'
  }

  function DigitRun(s: string): (n: nat)
    ensures n <= |s|
    ensures forall i :: 0 <= i < n ==> IsDigit(s[i])
    ensures n < |s| ==> !IsDigit(s[n])
    decreases |s|
  {
    if s == [] || !IsDigit(s[0]) then 0 else 1 + DigitRun(s[1..])
  }

  function DigitsValue(s: string): nat
    requires forall i :: 0 <= i < |s| ==> IsDigit(s[i])
  {
    if s == [] then 0
    else
      assert IsDigit(s[|s| - 1]);
      DigitsValue(s[..|s| - 1]) * 10 + (s[|s| - 1] as int - '0' as int)
  }

  /** An unsigned integer: no sign, no leading zero, no fraction or exponent. */
  function ParseNumber(s: string): (r: Parsed<nat>)
    ensures r.Some? ==> |r.value.1| < |s|
  {
    var n := DigitRun(s);
    if n == 0 || (n > 1 && s[0] == '0') || (n < |s| && s[n] in ".eE") then None
    else Some((DigitsValue(s[..n]), s[n..]))
  }

  function ParseTree(text: string): (r: Parsed<Tree>)
    ensures r.Some? ==> |r.value.1| < |text|
    decreases |text|, 1
  {
    var s := SkipSpace(text);
    if s == [] then None
    else if s[0] == '"' then
      match ParseChars(s[1..])
      case None => None
      case Some((v, rest)) => Some((Str(v), rest))
    else if s[0] == '{' then
      var inside := SkipSpace(s[1..]);
      if inside != [] && inside[0] == '}' then Some((Obj(End), inside[1..]))
      else
        match ParseMembers(inside)
        case None => None
        case Some((members, rest)) => Some((Obj(members), rest))
    else
      match ParseNumber(s)
      case None => None
      case Some((n, rest)) => Some((Num(n), rest))
  }

  /** One or more members and the closing brace. */
  function ParseMembers(text: string): (r: Parsed<Members>)
    ensures r.Some? ==> |r.value.1| < |text|
    decreases |text|, 0
  {
    var s := SkipSpace(text);
    if s == [] || s[0] != '"' then None
    else
      match ParseChars(s[1..])
      case None => None
      case Some((key, afterKey)) =>
        var colon := SkipSpace(afterKey);
        if colon == [] || colon[0] != ':' then None
        else
          match ParseTree(colon[1..])
          case None => None
          case Some((value, afterValue)) =>
            var next := SkipSpace(afterValue);
            if next == [] then None
            else if next[0] == '}' then Some((Member(key, value, End), next[1..]))
            else if next[0] == ',' then
              match ParseMembers(next[1..])
              case None => None
              case Some((members, rest)) => Some((Member(key, value, members), rest))
            else None
  }

  /** A whole document: one value and nothing but space around it. */
  function ParseDocument(text: string): Option<Tree> {
    match ParseTree(text)
    case None => None
    case Some((t, rest)) => if SkipSpace(rest) == [] then Some(t) else None
  }

  // ---------------------------------------------------------------------------
  // Round trip
  // ---------------------------------------------------------------------------

  lemma Hex4RoundTrip(n: nat, rest: string)
    requires n < 32
    ensures ParseUnicode(Hex4(n) + rest) == Some((n as char, rest))
  {
    var h := Hex4(n);
    var s := h + rest;
    assert n / 4096 == 0 && n / 256 == 0 && n / 16 < 2;
    assert s[0] == '0' && s[1] == '0' && s[2] == HEX[n / 16] && s[3] == HEX[n % 16];
    assert s[4..] == rest;
    HexDigitRoundTrip(n / 16);
    HexDigitRoundTrip(n % 16);
  }

  lemma HexDigitRoundTrip(d: nat)
    requires d < 16
    ensures HexDigit(HEX[d]) == Some(d)
  {
  }

  lemma CharRoundTrip(c: char, rest: string)
    ensures EscapeChar(c) != [] && EscapeChar(c)[0] != '"'
    ensures ParseChar(EscapeChar(c) + rest) == Some((c, rest))
  {
    if EscapeChar(c) == [c] {
      assert ([c] + rest)[0] == c && ([c] + rest)[1..] == rest;
    } else if |EscapeChar(c)| == 2 {
      PairRoundTrip(EscapeChar(c)[1], rest);
      assert EscapeChar(c) == ['\\', EscapeChar(c)[1]];
    } else {
      ControlRoundTrip(c, rest);
    }
  }

  lemma PairRoundTrip(x: char, rest: string)
    ensures var s := ['\\', x] + rest; s[0] == '\\' && s[1] == x && s[2..] == rest
  {
  }

  lemma ControlRoundTrip(c: char, rest: string)
    requires c < ' '
    ensures ParseChar("\\u" + Hex4(c as int) + rest) == Some((c, rest))
  {
    var hex := Hex4(c as int);
    Hex4RoundTrip(c as int, rest);
    UnderEscape(hex, rest);
  }

  lemma UnderEscape(hex: string, rest: string)
    ensures var s := "\\u" + hex + rest; s[0] == '\\' && s[1] == 'u' && s[2..] == hex + rest
  {
  }

  /** Printing a string and reading it back gives the string, for every string. */
  lemma {:induction false} StringRoundTrip(text: string, rest: string)
    ensures ParseChars(Escape(text) + "\"" + rest) == Some((text, rest))
  {
    var s := Escape(text) + "\"" + rest;
    if text == [] {
      assert s[0] == '"' && s[1..] == rest;
    } else {
      var tail := Escape(text[1..]) + "\"" + rest;
      assert s == EscapeChar(text[0]) + tail;
      CharRoundTrip(text[0], tail);
      StringRoundTrip(text[1..], rest);
      assert [text[0]] + text[1..] == text;
    }
  }

  lemma {:induction false} DecimalDigits(n: nat)
    ensures forall i :: 0 <= i < |Decimal(n)| ==> IsDigit(Decimal(n)[i])
    ensures DigitsValue(Decimal(n)) == n
    ensures |Decimal(n)| > 1 ==> Decimal(n)[0] != '0'
  {
    if n >= 10 {
      DecimalDigits(n / 10);
      var d := Decimal(n);
      assert d[..|d| - 1] == Decimal(n / 10);
      if |Decimal(n / 10)| == 1 {
        assert n / 10 < 10;
      }
    } else {
      assert Decimal(n)[..0] == [];
    }
  }

  lemma {:induction false} DigitRunStops(digits: string, rest: string)
    requires forall i :: 0 <= i < |digits| ==> IsDigit(digits[i])
    requires rest == [] || !IsDigit(rest[0])
    ensures DigitRun(digits + rest) == |digits|
  {
    if digits != [] {
      assert (digits + rest)[1..] == digits[1..] + rest;
      DigitRunStops(digits[1..], rest);
    }
  }

  /** Text that cannot continue a number. */
  predicate EndsNumber(rest: string) {
    rest == [] || (!IsDigit(rest[0]) && rest[0] !in ".eE")
  }

  lemma NumberRoundTrip(n: nat, rest: string)
    requires EndsNumber(rest)
    ensures ParseNumber(Decimal(n) + rest) == Some((n, rest))
  {
    DecimalDigits(n);
    DigitRunStops(Decimal(n), rest);
    var s := Decimal(n) + rest;
    assert s[..|Decimal(n)|] == Decimal(n) && s[|Decimal(n)|..] == rest;
  }

  lemma {:induction false} TreeRoundTrip(t: Tree, rest: string)
    requires EndsNumber(rest)
    ensures ParseTree(Print(t) + rest) == Some((t, rest))
  {
    match t
    case Str(text) => QuotedTreeRoundTrip(text, rest);
    case Num(n) => NumberTreeRoundTrip(n, rest);
    case Obj(members) =>
      Braced(PrintMembers(members), rest);
      if members.Member? {
        MembersRoundTrip(members, rest);
        ObjectOf(Print(t) + rest, PrintMembers(members) + "}" + rest);
      }
  }

  lemma Braced(inside: string, rest: string)
    ensures ("{" + inside + "}" + rest)[0] == '{' && ("{" + inside + "}" + rest)[1..] == inside + "}" + rest
    ensures inside == "" ==> (inside + "}" + rest)[0] == '}' && (inside + "}" + rest)[1..] == rest
  {
  }

  lemma ObjectOf(s: string, inside: string)
    requires s != [] && s[0] == '{' && s[1..] == inside
    requires inside != [] && inside[0] == '"' && ParseMembers(inside).Some?
    ensures ParseTree(s) == Some((Obj(ParseMembers(inside).value.0), ParseMembers(inside).value.1))
  {
  }

  lemma QuotedTreeRoundTrip(text: string, rest: string)
    ensures ParseTree(Quote(text) + rest) == Some((Str(text), rest))
  {
    StringRoundTrip(text, rest);
    OpensQuote(Escape(text), rest);
    StringOf(Quote(text) + rest, text, rest);
  }

  lemma OpensQuote(e: string, rest: string)
    ensures ("\"" + e + "\"" + rest)[0] == '"' && ("\"" + e + "\"" + rest)[1..] == e + "\"" + rest
  {
  }

  lemma StringOf(s: string, text: string, rest: string)
    requires s != [] && s[0] == '"' && ParseChars(s[1..]) == Some((text, rest))
    ensures ParseTree(s) == Some((Str(text), rest))
  {
  }

  lemma NumberTreeRoundTrip(n: nat, rest: string)
    requires EndsNumber(rest)
    ensures ParseTree(Decimal(n) + rest) == Some((Num(n), rest))
  {
    var s := Decimal(n) + rest;
    NumberRoundTrip(n, rest);
    DecimalDigits(n);
    assert s[0] == Decimal(n)[0] && IsDigit(s[0]);
  }

  lemma {:induction false} MembersRoundTrip(members: Members, rest: string)
    requires members.Member?
    ensures PrintMembers(members) != [] && PrintMembers(members)[0] == '"'
    ensures ParseMembers(PrintMembers(members) + "}" + rest) == Some((members, rest))
  {
    var after := if members.rest.End? then "}" + rest else "," + (PrintMembers(members.rest) + "}" + rest);
    var value := Print(members.value) + after;
    MemberText(members, rest, after);
    StringRoundTrip(members.key, ":" + value);
    TreeRoundTrip(members.value, after);
    assert (":" + value)[1..] == value;
    if members.rest.Member? {
      MembersRoundTrip(members.rest, rest);
      assert after[1..] == PrintMembers(members.rest) + "}" + rest;
    } else {
      assert after[1..] == rest;
    }
    MemberParses(PrintMembers(members) + "}" + rest, members, ":" + value, after, rest);
  }

  /** One turn of the member loop, its parts already parsed. */
  lemma MemberParses(s: string, members: Members, colon: string, after: string, rest: string)
    requires members.Member? && s != [] && s[0] == '"'
    requires ParseChars(s[1..]) == Some((members.key, colon)) && colon != [] && colon[0] == ':'
    requires ParseTree(colon[1..]) == Some((members.value, after)) && after != []
    requires if members.rest.End? then after[0] == '}' && after[1..] == rest
             else after[0] == ',' && ParseMembers(after[1..]) == Some((members.rest, rest))
    ensures ParseMembers(s) == Some((members, rest))
  {
    assert SkipSpace(s) == s && SkipSpace(colon) == colon && SkipSpace(after) == after;
  }

  /** How the text of the first member divides. */
  lemma MemberText(members: Members, rest: string, after: string)
    requires members.Member?
    requires after == if members.rest.End? then "}" + rest else "," + (PrintMembers(members.rest) + "}" + rest)
    ensures PrintMembers(members) != [] && PrintMembers(members)[0] == '"'
    ensures var s := PrintMembers(members) + "}" + rest;
      s[0] == '"' && s[1..] == Escape(members.key) + "\"" + (":" + (Print(members.value) + after))
  {
    var tail := if members.rest.End? then "" else "," + PrintMembers(members.rest);
    assert after == tail + "}" + rest by {
      Regroup("", ",", if members.rest.End? then "" else PrintMembers(members.rest), rest);
    }
    Regroup(Quote(members.key) + ":", Print(members.value), tail, rest);
    Unquote(Escape(members.key), Print(members.value), after);
  }

  lemma Regroup(a: string, b: string, c: string, rest: string)
    ensures a + b + c + "}" + rest == a + (b + (c + "}" + rest))
    ensures "" + b + c == b + c && b + (c + "}" + rest) == b + c + "}" + rest && "" + "}" + rest == "}" + rest
  {
  }

  lemma Unquote(e: string, v: string, after: string)
    ensures var s := "\"" + e + "\"" + ":" + (v + after); s[0] == '"' && s[1..] == e + "\"" + (":" + (v + after))
  {
  }

  /** The printed form determines the value. */
  lemma DocumentRoundTrip(t: Tree)
    ensures ParseDocument(Print(t)) == Some(t)
  {
    TreeRoundTrip(t, []);
    assert Print(t) + [] == Print(t);
  }

  lemma PrintIsInjective(t: Tree, u: Tree)
    ensures Print(t) == Print(u) ==> t == u
  {
    DocumentRoundTrip(t);
    DocumentRoundTrip(u);
  }

  // ---------------------------------------------------------------------------
  // Printed text is one line
  // ---------------------------------------------------------------------------

  /** No control character, so neither `\n` nor `\r`. */
  predicate Printable(s: string) {
    forall i :: 0 <= i < |s| ==> s[i] >= ' '
  }

  lemma {:induction false} EscapeIsPrintable(s: string)
    ensures Printable(Escape(s))
  {
    if s != [] {
      EscapeIsPrintable(s[1..]);
      EscapeCharIsPrintable(s[0]);
    }
  }

  lemma EscapeCharIsPrintable(c: char)
    ensures Printable(EscapeChar(c))
  {
  }

  lemma {:induction false} PrintIsPrintable(t: Tree)
    ensures Printable(Print(t))
  {
    match t
    case Str(text) => EscapeIsPrintable(text);
    case Num(n) =>
      DecimalDigits(n);
      forall i | 0 <= i < |Decimal(n)| ensures Decimal(n)[i] >= ' ' {
        assert IsDigit(Decimal(n)[i]);
      }
    case Obj(members) => MembersArePrintable(members);
  }

  lemma {:induction false} MembersArePrintable(members: Members)
    ensures Printable(PrintMembers(members))
  {
    if members.Member? {
      EscapeIsPrintable(members.key);
      PrintIsPrintable(members.value);
      MembersArePrintable(members.rest);
      var tail := if members.rest.End? then "" else "," + PrintMembers(members.rest);
      PrintableConcat(Escape(members.key), Print(members.value), tail);
    }
  }

  lemma PrintableConcat(a: string, b: string, c: string)
    requires Printable(a) && Printable(b) && Printable(c)
    ensures Printable("\"" + a + "\"" + ":" + b + c)
  {
  }
}
