/** What reading a ledger file accepts, said without the reader: which objects are
    entries (src/ledger/entry.rs), and how a text divides into lines that are read
    one by one (src/ledger/chain.rs). */
module LedgerReading {
  import opened Wrappers
  import opened JsonText
  import opened JsonGrammar
  import opened LedgerEntries
  import opened LedgerChain

  // ---------------------------------------------------------------------------
  // Which objects are entries
  // ---------------------------------------------------------------------------

  /** The values written under a key, in order. */
  function Occurrences(members: Members, key: string): seq<Tree> {
    match members
    case End => []
    case Member(k, value, rest) => (if k == key then [value] else []) + Occurrences(rest, key)
  }

  /** What a slot of the entry can hold. */
  datatype Value = Text(text: string) | Number(number: u64) | Map(fields: Fields)

  const NUMBER_KEYS: set<string> := {SCHEMA_KEY, SEQ_KEY}
  const TEXT_KEYS: set<string> := {PREV_KEY, HASH_KEY, TS_KEY, TYPE_KEY, ENGINE_KEY, PROTOCOL_KEY, RECORDED_BY_KEY}

  predicate IsKey(key: string) {
    key in NUMBER_KEYS || key in TEXT_KEYS || key == FIELDS_KEY
  }

  /** The value of the key's type, if it is of that type. */
  function ValueOf(key: string, t: Tree): Option<Value> {
    if key in NUMBER_KEYS then if NumberOf(t).Some? then Some(Number(NumberOf(t).value)) else None
    else if key == FIELDS_KEY then if FieldsOf(t).Some? then Some(Map(FieldsOf(t).value)) else None
    else if t.Str? then Some(Text(t.text)) else None
  }

  function TextSlot(o: Option<string>): Option<Value> {
    if o.Some? then Some(Text(o.value)) else None
  }

  function NumberSlot(o: Option<u64>): Option<Value> {
    if o.Some? then Some(Number(o.value)) else None
  }

  function Slot(s: Slots, key: string): Option<Value> {
    if key == SCHEMA_KEY then NumberSlot(s.schema)
    else if key == SEQ_KEY then NumberSlot(s.seqNo)
    else if key == PREV_KEY then TextSlot(s.prev)
    else if key == HASH_KEY then TextSlot(s.hash)
    else if key == TS_KEY then TextSlot(s.ts)
    else if key == TYPE_KEY then TextSlot(s.eventType)
    else if key == ENGINE_KEY then TextSlot(s.engine)
    else if key == PROTOCOL_KEY then TextSlot(s.protocol)
    else if key == RECORDED_BY_KEY then TextSlot(s.recordedBy)
    else if key == FIELDS_KEY then if s.fields.Some? then Some(Map(s.fields.value)) else None
    else None
  }

  /** One member fills its own slot, if that is empty and the type fits, and no other. */
  lemma PutIsExact(s: Slots, key: string, value: Tree)
    ensures Put(s, key, value).Some? <==> (IsKey(key) ==> Slot(s, key).None? && ValueOf(key, value).Some?)
    ensures Put(s, key, value).Some? ==>
      forall k :: Slot(Put(s, key, value).value, k) == if k == key && IsKey(k) then ValueOf(k, value) else Slot(s, k)
  {
  }

  /** The key's members fit its slot: none, or one of its type into an empty slot. */
  predicate Fits(s: Slots, members: Members, key: string) {
    var values := Occurrences(members, key);
    values == [] || (|values| == 1 && Slot(s, key).None? && ValueOf(key, values[0]).Some?)
  }

  function Filled(s: Slots, members: Members, key: string): Option<Value> {
    var values := Occurrences(members, key);
    if values == [] || !IsKey(key) then Slot(s, key) else ValueOf(key, values[0])
  }

  ghost predicate AllFit(s: Slots, members: Members) {
    forall k :: IsKey(k) ==> Fits(s, members, k)
  }

  /** Filling succeeds exactly when every key's members fit. */
  lemma {:induction false} FillIsExact(members: Members, s: Slots)
    ensures FillSlots(members, s).Some? <==> AllFit(s, members)
    ensures FillSlots(members, s).Some? ==> forall k :: Slot(FillSlots(members, s).value, k) == Filled(s, members, k)
  {
    match members
    case End =>
    case Member(key, value, rest) =>
      PutIsExact(s, key, value);
      if Put(s, key, value).Some? {
        var t := Put(s, key, value).value;
        FillIsExact(rest, t);
        forall k | IsKey(k) ensures Fits(t, rest, k) <==> Fits(s, members, k) {
          FitsStep(s, t, members, k);
        }
        forall k ensures AllFit(t, rest) ==> Filled(t, rest, k) == Filled(s, members, k) {
          FitsStep(s, t, members, k);
        }
      } else {
        assert Occurrences(members, key)[0] == value;
        assert !Fits(s, members, key);
      }
  }

  lemma FitsStep(s: Slots, t: Slots, members: Members, k: string)
    requires members.Member? && Put(s, members.key, members.value) == Some(t)
    ensures IsKey(k) ==> (Fits(t, members.rest, k) <==> Fits(s, members, k))
    ensures IsKey(k) && Fits(t, members.rest, k) ==> Filled(t, members.rest, k) == Filled(s, members, k)
    ensures !IsKey(k) ==> Filled(t, members.rest, k) == Filled(s, members, k)
  {
    PutIsExact(s, members.key, members.value);
    if members.key == k {
      assert Occurrences(members, k) == [members.value] + Occurrences(members.rest, k);
    } else {
      assert Occurrences(members, k) == [] + Occurrences(members.rest, k);
    }
  }

  /** The object's members are those of the entry: every key once and of its type,
      but for `recorded_by`, which stands for the empty string when absent. */
  ghost predicate Describes(members: Members, e: LedgerEntry) {
    && Occurrences(members, SCHEMA_KEY) == [Num(e.schema)]
    && Occurrences(members, SEQ_KEY) == [Num(e.seqNo)]
    && Occurrences(members, PREV_KEY) == [Str(e.prev)]
    && Occurrences(members, HASH_KEY) == [Str(e.hash)]
    && Occurrences(members, TS_KEY) == [Str(e.ts)]
    && Occurrences(members, TYPE_KEY) == [Str(e.eventType)]
    && Occurrences(members, ENGINE_KEY) == [Str(e.engine)]
    && Occurrences(members, PROTOCOL_KEY) == [Str(e.protocol)]
    && (Occurrences(members, RECORDED_BY_KEY) == [Str(e.recordedBy)] || (Occurrences(members, RECORDED_BY_KEY) == [] && e.recordedBy == ""))
    && |Occurrences(members, FIELDS_KEY)| == 1 && IsFields(Occurrences(members, FIELDS_KEY)[0], e.fields)
  }

  /** The object holds strings only, and the map has each key's last value. */
  ghost predicate IsFields(t: Tree, fs: Fields) {
    && t.Obj? && OnlyText(t.members)
    && forall k :: Get(fs, k) == LastText(t.members, k)
  }

  predicate OnlyText(members: Members) {
    members.Member? ==> members.value.Str? && OnlyText(members.rest)
  }

  function LastText(members: Members, key: string): Option<string> {
    match members
    case End => None
    case Member(k, value, rest) =>
      if LastText(rest, key).Some? then LastText(rest, key) else if k == key && value.Str? then Some(value.text) else None
  }

  lemma {:induction false} DecodeIsExact(members: Members, read: Fields)
    ensures DecodeFields(members, read).Some? <==> OnlyText(members)
    ensures DecodeFields(members, read).Some? ==>
      forall k :: Get(DecodeFields(members, read).value, k)
               == if LastText(members, k).Some? then LastText(members, k) else Get(read, k)
  {
    match members
    case End =>
    case Member(key, value, rest) =>
      if value.Str? {
        InsertKeepsOrder(read, key, value.text);
        DecodeIsExact(rest, InsertInto(read, key, value.text));
        forall k {
          InsertThenGet(read, key, value.text, k);
        }
      }
  }

  /** A sorted map is determined by its lookups. */
  lemma {:induction false} LookupsDetermine(fs: Fields, gs: Fields)
    requires forall k :: Get(fs, k) == Get(gs, k)
    ensures fs == gs
  {
    assert fs != [] ==> Get(fs, fs[0].0).Some?;
    assert gs != [] ==> Get(gs, gs[0].0).Some?;
    if fs != [] && gs != [] {
      FirstKeys(fs, gs);
      FirstKeys(gs, fs);
      LessIsTotal(fs[0].0, gs[0].0);
      assert fs[0].0 == gs[0].0 && Get(fs, fs[0].0) == Get(gs, fs[0].0);
      forall k ensures Get(fs[1..], k) == Get(gs[1..], k) {
        TailLooksUp(fs, k);
        TailLooksUp(gs, k);
      }
      LookupsDetermine(fs[1..], gs[1..]);
      assert fs == [fs[0]] + fs[1..] && gs == [gs[0]] + gs[1..];
    }
  }

  lemma {:induction false} BoundIsListed(fs: seq<(string, string)>, k: string) returns (i: nat)
    ensures Get(fs, k).Some? ==> i < |fs| && fs[i].0 == k
  {
    i := 0;
    if fs != [] && fs[0].0 != k {
      i := BoundIsListed(fs[1..], k);
      i := i + 1;
    }
  }

  /** No key of the one map comes before the first of the other. */
  lemma FirstKeys(fs: Fields, gs: Fields)
    requires fs != [] && gs != [] && forall k :: Get(fs, k) == Get(gs, k)
    ensures !Less(fs[0].0, gs[0].0)
  {
    var i := BoundIsListed(gs, fs[0].0);
    assert Get(fs, fs[0].0).Some?;
    if i > 0 {
      assert Less(gs[0].0, gs[i].0);
    }
    LessIsTotal(fs[0].0, gs[0].0);
  }

  lemma TailLooksUp(fs: Fields, k: string)
    requires fs != []
    ensures Get(fs[1..], k) == if k == fs[0].0 then None else Get(fs, k)
  {
    var i := BoundIsListed(fs[1..], k);
    if k == fs[0].0 && Get(fs[1..], k).Some? {
      LessIsTotal(fs[0].0, fs[i + 1].0);
    }
  }

  lemma FieldsAreExact(t: Tree, fs: Fields)
    ensures FieldsOf(t) == Some(fs) <==> IsFields(t, fs)
  {
    if t.Obj? {
      DecodeIsExact(t.members, []);
      if IsFields(t, fs) {
        LookupsDetermine(fs, FieldsOf(t).value);
      }
    }
  }

  /** A line is an entry exactly when it is a JSON text of an object that describes it. */
  lemma DeserializeIsExact(line: string, e: LedgerEntry)
    ensures Deserialize(line) == Some(e) <==> exists members :: IsSpaced(line, Obj(members)) && Describes(members, e)
  {
    if members :| IsSpaced(line, Obj(members)) && Describes(members, e) {
      DocumentIsExact(line, Obj(members));
      ObjectIsExact(members, e);
    }
    if Deserialize(line) == Some(e) {
      var members := ParseDocument(line).value.members;
      DocumentIsExact(line, Obj(members));
      ObjectIsExact(members, e);
    }
  }

  lemma ObjectIsExact(members: Members, e: LedgerEntry)
    ensures (FillSlots(members, NO_SLOTS).Some? && Assemble(FillSlots(members, NO_SLOTS).value) == Some(e)) <==> Describes(members, e)
  {
    FillIsExact(members, NO_SLOTS);
    if Describes(members, e) {
      DescribedFits(members, e);
    }
    if FillSlots(members, NO_SLOTS).Some? {
      AssembledDescribes(members, FillSlots(members, NO_SLOTS).value, e);
    }
  }

  /** A slot filled from no slots holds what the object says under its key. */
  lemma TextKey(members: Members, s: Slots, key: string, slot: Option<string>, text: string)
    requires key in TEXT_KEYS && Fits(NO_SLOTS, members, key) && Slot(s, key) == Filled(NO_SLOTS, members, key)
    requires Slot(s, key) == TextSlot(slot)
    ensures slot == Some(text) <==> Occurrences(members, key) == [Str(text)]
    ensures slot == None <==> Occurrences(members, key) == []
  {
  }

  lemma NumberKey(members: Members, s: Slots, key: string, slot: Option<u64>, number: u64)
    requires key in NUMBER_KEYS && Fits(NO_SLOTS, members, key) && Slot(s, key) == Filled(NO_SLOTS, members, key)
    requires Slot(s, key) == NumberSlot(slot)
    ensures slot == Some(number) <==> Occurrences(members, key) == [Num(number)]
  {
  }

  lemma FieldsKey(members: Members, s: Slots, fs: Fields)
    requires Fits(NO_SLOTS, members, FIELDS_KEY) && Slot(s, FIELDS_KEY) == Filled(NO_SLOTS, members, FIELDS_KEY)
    ensures s.fields == Some(fs) <==> |Occurrences(members, FIELDS_KEY)| == 1 && IsFields(Occurrences(members, FIELDS_KEY)[0], fs)
  {
    var values := Occurrences(members, FIELDS_KEY);
    if |values| == 1 {
      FieldsAreExact(values[0], fs);
    }
  }

  ghost predicate FilledFrom(members: Members, s: Slots) {
    AllFit(NO_SLOTS, members) && forall k :: Slot(s, k) == Filled(NO_SLOTS, members, k)
  }

  lemma NumbersDescribe(members: Members, s: Slots, e: LedgerEntry)
    requires FilledFrom(members, s)
    ensures s.schema == Some(e.schema) <==> Occurrences(members, SCHEMA_KEY) == [Num(e.schema)]
    ensures s.seqNo == Some(e.seqNo) <==> Occurrences(members, SEQ_KEY) == [Num(e.seqNo)]
    ensures s.fields == Some(e.fields) <==>
      |Occurrences(members, FIELDS_KEY)| == 1 && IsFields(Occurrences(members, FIELDS_KEY)[0], e.fields)
  {
    assert forall k :: IsKey(k) ==> Fits(NO_SLOTS, members, k);
    NumberKey(members, s, SCHEMA_KEY, s.schema, e.schema);
    NumberKey(members, s, SEQ_KEY, s.seqNo, e.seqNo);
    FieldsKey(members, s, e.fields);
  }

  lemma ChainTextsDescribe(members: Members, s: Slots, e: LedgerEntry)
    requires FilledFrom(members, s)
    ensures s.prev == Some(e.prev) <==> Occurrences(members, PREV_KEY) == [Str(e.prev)]
    ensures s.hash == Some(e.hash) <==> Occurrences(members, HASH_KEY) == [Str(e.hash)]
    ensures s.ts == Some(e.ts) <==> Occurrences(members, TS_KEY) == [Str(e.ts)]
    ensures s.eventType == Some(e.eventType) <==> Occurrences(members, TYPE_KEY) == [Str(e.eventType)]
  {
    assert forall k :: IsKey(k) ==> Fits(NO_SLOTS, members, k);
    TextKey(members, s, PREV_KEY, s.prev, e.prev);
    TextKey(members, s, HASH_KEY, s.hash, e.hash);
    TextKey(members, s, TS_KEY, s.ts, e.ts);
    TextKey(members, s, TYPE_KEY, s.eventType, e.eventType);
  }

  lemma OriginTextsDescribe(members: Members, s: Slots, e: LedgerEntry)
    requires FilledFrom(members, s)
    ensures s.engine == Some(e.engine) <==> Occurrences(members, ENGINE_KEY) == [Str(e.engine)]
    ensures s.protocol == Some(e.protocol) <==> Occurrences(members, PROTOCOL_KEY) == [Str(e.protocol)]
    ensures s.recordedBy == Some(e.recordedBy) <==> Occurrences(members, RECORDED_BY_KEY) == [Str(e.recordedBy)]
    ensures s.recordedBy == None <==> Occurrences(members, RECORDED_BY_KEY) == []
  {
    assert forall k :: IsKey(k) ==> Fits(NO_SLOTS, members, k);
    TextKey(members, s, ENGINE_KEY, s.engine, e.engine);
    TextKey(members, s, PROTOCOL_KEY, s.protocol, e.protocol);
    TextKey(members, s, RECORDED_BY_KEY, s.recordedBy, e.recordedBy);
  }

  lemma AssembledDescribes(members: Members, s: Slots, e: LedgerEntry)
    requires FilledFrom(members, s)
    ensures Assemble(s) == Some(e) <==> Describes(members, e)
  {
    NumbersDescribe(members, s, e);
    ChainTextsDescribe(members, s, e);
    OriginTextsDescribe(members, s, e);
    SlotsAssemble(s, e);
  }

  lemma SlotsAssemble(s: Slots, e: LedgerEntry)
    ensures Assemble(s) == Some(e) <==>
      && s.schema == Some(e.schema) && s.seqNo == Some(e.seqNo) && s.prev == Some(e.prev) && s.hash == Some(e.hash)
      && s.ts == Some(e.ts) && s.eventType == Some(e.eventType) && s.engine == Some(e.engine) && s.protocol == Some(e.protocol)
      && (s.recordedBy == Some(e.recordedBy) || (s.recordedBy == None && e.recordedBy == "")) && s.fields == Some(e.fields)
  {
  }

  lemma DescribedFits(members: Members, e: LedgerEntry)
    requires Describes(members, e)
    ensures AllFit(NO_SLOTS, members)
  {
    FieldsAreExact(Occurrences(members, FIELDS_KEY)[0], e.fields);
  }

  // ---------------------------------------------------------------------------
  // How a text divides into lines
  // ---------------------------------------------------------------------------

  /** `s[i..j]` is the text without its blank ends. */
  ghost predicate TrimmedAt(s: string, i: nat, j: nat) {
    && i <= j <= |s|
    && (forall k :: 0 <= k < i || j <= k < |s| ==> IsWhitespace(s[k]))
    && (i < j ==> !IsWhitespace(s[i]) && !IsWhitespace(s[j - 1]))
  }

  lemma {:induction false} TrimIsExact(s: string) returns (i: nat, j: nat)
    ensures TrimmedAt(s, i, j) && Trim(s) == s[i..j]
    decreases |s|
  {
    i, j := 0, |s|;
    if s != [] && IsWhitespace(s[0]) {
      i, j := TrimIsExact(s[1..]);
      FrontDropped(s, i, j);
      i, j := i + 1, j + 1;
    } else if s != [] && IsWhitespace(s[|s| - 1]) {
      i, j := TrimIsExact(s[..|s| - 1]);
      BackDropped(s, i, j);
    }
  }

  lemma FrontDropped(s: string, i: nat, j: nat)
    requires s != [] && IsWhitespace(s[0]) && TrimmedAt(s[1..], i, j)
    ensures TrimmedAt(s, i + 1, j + 1) && s[1..][i..j] == s[i + 1..j + 1]
  {
    forall k | 0 <= k < i + 1 || j + 1 <= k < |s| ensures IsWhitespace(s[k]) {
      assert k > 0 ==> IsWhitespace(s[1..][k - 1]);
    }
  }

  lemma BackDropped(s: string, i: nat, j: nat)
    requires s != [] && IsWhitespace(s[|s| - 1]) && TrimmedAt(s[..|s| - 1], i, j)
    ensures TrimmedAt(s, i, j) && s[..|s| - 1][i..j] == s[i..j]
  {
    forall k | 0 <= k < i || j <= k < |s| ensures IsWhitespace(s[k]) {
      assert k < |s| - 1 ==> IsWhitespace(s[..|s| - 1][k]);
    }
  }

  /** A text is its lines, each ended by a break, and what follows the last break.
      A return before a break is dropped, and an empty remainder is no line. */
  lemma {:induction false} LinesAreExact(lines: seq<string>, last: string)
    requires '\n' !in last && forall i :: 0 <= i < |lines| ==> '\n' !in lines[i]
    ensures Lines(JoinLines(lines) + last) == Chopped(lines) + if last == "" then [] else [last]
  {
    if lines == [] {
      assert JoinLines(lines) + last == last;
      LastLine(last);
    } else {
      var rest := JoinLines(lines[1..]) + last;
      LinesAreExact(lines[1..], last);
      FirstLine(lines[0], rest);
      assert JoinLines(lines) + last == lines[0] + "\n" + rest;
    }
  }

  lemma {:induction false} LastLine(last: string)
    requires '\n' !in last
    ensures LineEnd(last) == |last| && Lines(last) == if last == "" then [] else [last]
  {
    if last != [] {
      LastLine(last[1..]);
    }
  }

  /** One return is chopped, if the line ends in any. */
  lemma ChopIsExact(line: string, chopped: string)
    ensures ChopReturn(line) == chopped <==>
      line == chopped + "\r" || (line == chopped && (line == "" || line[|line| - 1] != '\r'))
  {
  }

  function Chopped(lines: seq<string>): seq<string> {
    if lines == [] then [] else [ChopReturn(lines[0])] + Chopped(lines[1..])
  }

  /** Every text is such a text. */
  lemma {:induction false} TextHasLines(text: string) returns (lines: seq<string>, last: string)
    ensures text == JoinLines(lines) + last && '\n' !in last
    ensures forall i :: 0 <= i < |lines| ==> '\n' !in lines[i]
    decreases |text|
  {
    lines, last := [], text;
    NoBreakBefore(text);
    var n := LineEnd(text);
    if n < |text| {
      lines, last := TextHasLines(text[n + 1..]);
      assert text == text[..n] + "\n" + text[n + 1..];
      assert ([text[..n]] + lines)[1..] == lines;
      lines := [text[..n]] + lines;
    }
  }

  lemma {:induction false} NoBreakBefore(text: string)
    ensures '\n' !in text[..LineEnd(text)]
  {
    if text != [] && text[0] != '\n' {
      NoBreakBefore(text[1..]);
      assert text[..LineEnd(text)] == [text[0]] + text[1..][..LineEnd(text[1..])];
    }
  }

  /** The lines that are read: those that are not blank, trimmed. */
  function Read(lines: seq<string>): seq<string> {
    if lines == [] then [] else (if Trim(lines[0]) == "" then [] else [Trim(lines[0])]) + Read(lines[1..])
  }

  predicate ReadsAs(lines: seq<string>, parse: string -> Result<LedgerEntry, LedgerError>, es: seq<LedgerEntry>) {
    |lines| == |es| && forall i :: 0 <= i < |es| ==> parse(lines[i]) == Ok(es[i])
  }

  /** Line `i` is the first that is refused, with this error. */
  predicate IsFirstRefusal(lines: seq<string>, parse: string -> Result<LedgerEntry, LedgerError>, i: nat, error: LedgerError) {
    i < |lines| && parse(lines[i]) == Err(error) && forall k :: 0 <= k < i ==> parse(lines[k]).Ok?
  }

  lemma ReadsOneMore(lines: seq<string>, parse: string -> Result<LedgerEntry, LedgerError>, es: seq<LedgerEntry>, line: string,
      e: LedgerEntry)
    requires ReadsAs(lines, parse, es) && parse(line) == Ok(e)
    ensures ReadsAs([line] + lines, parse, [e] + es)
  {
    forall i | 0 <= i < |es| + 1 ensures parse(([line] + lines)[i]) == Ok(([e] + es)[i]) {
      if i > 0 {
        assert parse(lines[i - 1]) == Ok(es[i - 1]);
      }
    }
  }

  /** A file parses to exactly the entries of its lines, and fails with its first refusal. */
  lemma {:induction false} ParsedLineByLine(lines: seq<string>, parse: string -> Result<LedgerEntry, LedgerError>)
    ensures Outcome(Read(lines), parse, ParseEach(lines, parse))
  {
    if lines != [] {
      ParsedLineByLine(lines[1..], parse);
      var line := Trim(lines[0]);
      if line == "" {
        assert [] + Read(lines[1..]) == Read(lines[1..]);
      } else {
        assert Read(lines) == [line] + Read(lines[1..]);
        OneMoreLine(line, Read(lines[1..]), parse, ParseEach(lines[1..], parse));
      }
    }
  }

  ghost predicate Outcome(lines: seq<string>, parse: string -> Result<LedgerEntry, LedgerError>, parsed: Parse) {
    match parsed
    case Ok(es) => ReadsAs(lines, parse, es)
    case Err(error) => exists i: nat :: IsFirstRefusal(lines, parse, i, error)
  }

  lemma OneMoreLine(line: string, lines: seq<string>, parse: string -> Result<LedgerEntry, LedgerError>, rest: Parse)
    requires Outcome(lines, parse, rest)
    ensures Outcome([line] + lines, parse,
      match parse(line) case Err(error) => Err(error) case Ok(entry) => Prepend([entry], rest))
  {
    var more := [line] + lines;
    assert more[0] == line && forall k :: 0 <= k < |lines| ==> more[k + 1] == lines[k];
    if parse(line).Err? {
      assert IsFirstRefusal(more, parse, 0, parse(line).error);
    } else if rest.Err? {
      var i: nat :| IsFirstRefusal(lines, parse, i, rest.error);
      assert IsFirstRefusal(more, parse, i + 1, rest.error);
    } else {
      ReadsOneMore(lines, parse, rest.value, line, parse(line).value);
    }
  }

  // ---------------------------------------------------------------------------
  // The genesis entry
  // ---------------------------------------------------------------------------

  lemma {:induction false} SealsLookUp(fs: Fields, seals: Fields, key: string)
    ensures Get(WithSeals(fs, seals), key) == if Get(seals, key).Some? then Get(seals, key) else Get(fs, key)
    decreases |seals|
  {
    if seals != [] {
      SealsLookUp(InsertField(fs, seals[0].0, seals[0].1), seals[1..], key);
      InsertThenGet(fs, seals[0].0, seals[0].1, key);
      TailLooksUp(seals, key);
    }
  }

  /** The genesis entry holds the seals, and the protocol's name and version unless a
      seal goes by that key. */
  lemma GenesisLooksUp(name: string, version: string, seals: Fields, key: string)
    ensures Get(GenesisFields(name, version, seals), key)
         == if Get(seals, key).Some? then Get(seals, key)
            else if key == "protocol_name" then Some(name)
            else if key == "protocol_version" then Some(version)
            else None
  {
    var named := InsertField([], PROTOCOL_NAME, name);
    SealsLookUp(InsertField(named, PROTOCOL_VERSION, version), seals, key);
    InsertThenGet(named, PROTOCOL_VERSION, version, key);
    InsertThenGet([], PROTOCOL_NAME, name, key);
  }

  /** And it is the engine's entry for that protocol. */
  lemma GenesisIsTheEngines(name: string, version: string, seals: Fields, nonce: string, ts: string, digest: Digest)
    ensures var g := Genesis(name, version, seals, nonce, ts, digest);
      && g.eventType == "genesis" && g.engine == "sahjhan" && g.protocol == name + "/" + version
      && g.recordedBy == "engine:init" && g.prev == nonce && g.ts == ts && g.fields == GenesisFields(name, version, seals)
  {
  }
}
