/** Ledger entries, their canonical text and their hash (src/ledger/entry.rs). */
module LedgerEntries {
  import opened Wrappers
  import opened JsonText

  const U64_LIMIT: int := 0x1_0000_0000_0000_0000

  type u64 = x: int | 0 <= x < U64_LIMIT

  const SCHEMA_VERSION: u64 := 1

  // ---------------------------------------------------------------------------
  // Fields: a map sorted by key
  // ---------------------------------------------------------------------------

  /** The order of a `BTreeMap<String, _>`. */
  predicate Less(a: string, b: string) {
    b != [] && (a == [] || a[0] < b[0] || (a[0] == b[0] && Less(a[1..], b[1..])))
  }

  predicate Sorted(fs: seq<(string, string)>) {
    forall i, j :: 0 <= i < j < |fs| ==> Less(fs[i].0, fs[j].0)
  }

  type Fields = fs: seq<(string, string)> | Sorted(fs) witness []

  function Get(fs: seq<(string, string)>, key: string): Option<string> {
    if fs == [] then None
    else if fs[0].0 == key then Some(fs[0].1)
    else Get(fs[1..], key)
  }

  lemma {:induction false} LessIsTransitive(a: string, b: string, c: string)
    requires Less(a, b) && Less(b, c)
    ensures Less(a, c)
    decreases |a|
  {
    if a != [] && a[0] == b[0] == c[0] {
      LessIsTransitive(a[1..], b[1..], c[1..]);
    }
  }

  lemma {:induction false} LessIsTotal(a: string, b: string)
    ensures a == b || Less(a, b) || Less(b, a)
    ensures !(Less(a, b) && Less(b, a)) && !(a == b && Less(a, b))
  {
    if a != [] && b != [] && a[0] == b[0] {
      LessIsTotal(a[1..], b[1..]);
      assert a == [a[0]] + a[1..] && b == [b[0]] + b[1..];
    }
  }

  /** It is the lexicographic order: a proper prefix comes first, and otherwise the
      first difference decides. */
  lemma {:induction false} LessIsLexicographic(a: string, b: string)
    ensures Less(a, b) <==> exists i: nat :: DiffersAt(a, b, i) && (i == |a| || a[i] < b[i])
  {
    if a != [] && b != [] && a[0] == b[0] {
      LessIsLexicographic(a[1..], b[1..]);
      if i: nat :| DiffersAt(a[1..], b[1..], i) && (i == |a[1..]| || a[1..][i] < b[1..][i]) {
        assert a[..i + 1] == [a[0]] + a[1..][..i] && b[..i + 1] == [b[0]] + b[1..][..i];
        assert DiffersAt(a, b, i + 1);
      }
      if i: nat :| DiffersAt(a, b, i) && (i == |a| || a[i] < b[i]) {
        assert i > 0;
        assert a[1..][..i - 1] == a[..i][1..] && b[1..][..i - 1] == b[..i][1..];
        assert DiffersAt(a[1..], b[1..], i - 1);
      }
    } else if b != [] && (a == [] || a[0] < b[0]) {
      assert DiffersAt(a, b, 0);
    }
  }

  /** The texts agree on their first `i` characters and no further. */
  predicate DiffersAt(a: string, b: string, i: nat) {
    i <= |a| && i < |b| && a[..i] == b[..i] && (i < |a| ==> a[i] != b[i])
  }

  /** `BTreeMap::insert`: a later value for a key replaces the earlier one. */
  function InsertInto(fs: seq<(string, string)>, key: string, value: string): seq<(string, string)> {
    if fs == [] || Less(key, fs[0].0) then [(key, value)] + fs
    else if fs[0].0 == key then [(key, value)] + fs[1..]
    else [fs[0]] + InsertInto(fs[1..], key, value)
  }

  lemma {:induction false} InsertKeepsOrder(fs: seq<(string, string)>, key: string, value: string)
    requires Sorted(fs)
    ensures Sorted(InsertInto(fs, key, value))
    ensures forall p :: p in InsertInto(fs, key, value) ==> p == (key, value) || p in fs
  {
    if fs == [] {
    } else if Less(key, fs[0].0) {
      forall j | 0 <= j < |fs| ensures Less(key, fs[j].0) {
        if j > 0 {
          LessIsTransitive(key, fs[0].0, fs[j].0);
        }
      }
    } else if fs[0].0 != key {
      LessIsTotal(key, fs[0].0);
      InsertKeepsOrder(fs[1..], key, value);
      var inner := InsertInto(fs[1..], key, value);
      forall j | 0 <= j < |inner| ensures Less(fs[0].0, inner[j].0) {
        assert inner[j] in inner;
        if inner[j] != (key, value) {
          var k :| 0 <= k < |fs[1..]| && fs[1..][k] == inner[j];
        }
      }
    }
  }

  lemma {:induction false} InsertThenGet(fs: seq<(string, string)>, key: string, value: string, k: string)
    ensures Get(InsertInto(fs, key, value), k) == if k == key then Some(value) else Get(fs, k)
  {
    if fs != [] && !Less(key, fs[0].0) && fs[0].0 != key {
      InsertThenGet(fs[1..], key, value, k);
    }
  }

  /** Inserting past the last key appends. */
  lemma {:induction false} InsertAtEnd(fs: seq<(string, string)>, key: string, value: string)
    requires forall i :: 0 <= i < |fs| ==> Less(fs[i].0, key)
    ensures InsertInto(fs, key, value) == fs + [(key, value)]
  {
    if fs != [] {
      LessIsTotal(key, fs[0].0);
      InsertAtEnd(fs[1..], key, value);
    }
  }

  // ---------------------------------------------------------------------------
  // The entry
  // ---------------------------------------------------------------------------

  datatype LedgerEntry = LedgerEntry(
    schema: u64,
    seqNo: u64,
    prev: string,
    hash: string,
    ts: string,
    eventType: string,
    engine: string,
    protocol: string,
    recordedBy: string,
    fields: Fields)

  // The envelope's keys.
  const SCHEMA_KEY := "schema"
  const SEQ_KEY := "seq"
  const PREV_KEY := "prev"
  const HASH_KEY := "hash"
  const TS_KEY := "ts"
  const TYPE_KEY := "type"
  const ENGINE_KEY := "engine"
  const PROTOCOL_KEY := "protocol"
  const RECORDED_BY_KEY := "recorded_by"
  const FIELDS_KEY := "fields"

  datatype LedgerError =
    | ParseError
    | UnsupportedVersion(schema: u64)
    | HashMismatch(atSeq: u64, expected: string, actual: string)
    | SequenceGap(expectedSeq: nat, found: u64)
    | ChainBreak(brokenSeq: u64)
    | EmptyLedger
    | SequenceExhausted

  // ---------------------------------------------------------------------------
  // Text
  // ---------------------------------------------------------------------------

  function FieldMembers(fs: seq<(string, string)>): Members {
    if fs == [] then End else Member(fs[0].0, Str(fs[0].1), FieldMembers(fs[1..]))
  }

  method CanonicalJsonObject(fs: Fields) returns (out: string)
    ensures out == Print(Obj(FieldMembers(fs)))
  {
    ghost var whole := "{" + Pending(fs, true);
    out := "{";
    var first := true;
    for i := 0 to |fs|
      invariant first <==> i == 0
      invariant whole == out + Pending(fs[i..], first)
    {
      PendingAt(out, fs, i, first);
      out := WriteMember(out, first, fs[i].0, fs[i].1);
      first := false;
    }
    assert fs[|fs|..] == [] && out + [] == out;
    out := out + "}";
  }

  method WriteMember(before: string, first: bool, key: string, value: string) returns (out: string)
    ensures out == (if first then before else before + ",") + (Quote(key) + ":" + Quote(value))
  {
    out := before;
    if !first {
      out := out + ",";
    }
    var k := JsonString(key);
    var v := JsonString(value);
    out := out + (k + ":" + v);
  }

  /** What is still to be printed before the closing brace. */
  function Pending(rest: seq<(string, string)>, first: bool): string {
    if rest == [] then [] else (if first then "" else ",") + PrintMembers(FieldMembers(rest))
  }

  lemma PendingStep(out: string, rest: seq<(string, string)>, first: bool)
    requires rest != []
    ensures out + Pending(rest, first)
         == (if first then out else out + ",") + (Quote(rest[0].0) + ":" + Quote(rest[0].1)) + Pending(rest[1..], false)
  {
    var tail := Pending(rest[1..], false);
    var member := Quote(rest[0].0) + ":" + Quote(rest[0].1);
    assert PrintMembers(FieldMembers(rest)) == member + tail;
    Reassociate(out, member, tail);
  }

  lemma PendingAt(out: string, fs: seq<(string, string)>, i: nat, first: bool)
    requires i < |fs|
    ensures out + Pending(fs[i..], first)
         == (if first then out else out + ",") + (Quote(fs[i].0) + ":" + Quote(fs[i].1)) + Pending(fs[i + 1..], false)
  {
    assert fs[i..][1..] == fs[i + 1..] && fs[i..][0] == fs[i];
    PendingStep(out, fs[i..], first);
  }

  lemma Reassociate(out: string, member: string, tail: string)
    ensures out + ("" + (member + tail)) == out + member + tail
    ensures out + ("," + (member + tail)) == out + "," + member + tail
  {
  }

  /** A key as it is written, up to its value. */
  function Key(name: string): string {
    "\"" + name + "\":"
  }

  /** The `RECORDED_BY_KEY:…,` fragment: an empty value omits the key. */
  function RecordedByKey(recordedBy: string): string {
    if recordedBy == "" then "" else Key(RECORDED_BY_KEY) + (Quote(recordedBy) + ",")
  }

  /** The text the hash is taken of: every key but `hash`, in alphabetical order. */
  function HashInput(e: LedgerEntry): string {
    ("{" + Key(ENGINE_KEY)) + (Quote(e.engine)
    + (("," + Key(FIELDS_KEY)) + (Print(Obj(FieldMembers(e.fields)))
    + PrevText(e))))
  }

  function ToJsonl(e: LedgerEntry): string {
    ("{" + Key(ENGINE_KEY)) + (Quote(e.engine)
    + (("," + Key(FIELDS_KEY)) + (Print(Obj(FieldMembers(e.fields)))
    + (("," + Key(HASH_KEY)) + (Quote(e.hash)
    + PrevText(e))))))
  }

  // The keys from `prev` on, which the two forms share.

  function PrevText(e: LedgerEntry): string {
    ("," + Key(PREV_KEY)) + (Quote(e.prev) + ProtocolText(e))
  }

  function ProtocolText(e: LedgerEntry): string {
    ("," + Key(PROTOCOL_KEY)) + (Quote(e.protocol) + ("," + (RecordedByKey(e.recordedBy) + SchemaText(e))))
  }

  function SchemaText(e: LedgerEntry): string {
    Key(SCHEMA_KEY) + (Decimal(e.schema) + SeqText(e))
  }

  function SeqText(e: LedgerEntry): string {
    ("," + Key(SEQ_KEY)) + (Decimal(e.seqNo) + TsText(e))
  }

  function TsText(e: LedgerEntry): string {
    ("," + Key(TS_KEY)) + (Quote(e.ts) + TypeText(e))
  }

  function TypeText(e: LedgerEntry): string {
    ("," + Key(TYPE_KEY)) + (Quote(e.eventType) + "}")
  }

  // The same text as a JSON value.

  function HashTree(e: LedgerEntry): Tree {
    Obj(Member(ENGINE_KEY, Str(e.engine), Member(FIELDS_KEY, Obj(FieldMembers(e.fields)), PrevMembers(e))))
  }

  function EntryTree(e: LedgerEntry): Tree {
    Obj(Member(ENGINE_KEY, Str(e.engine), Member(FIELDS_KEY, Obj(FieldMembers(e.fields)), Member(HASH_KEY, Str(e.hash), PrevMembers(e)))))
  }

  function PrevMembers(e: LedgerEntry): Members {
    Member(PREV_KEY, Str(e.prev), ProtocolMembers(e))
  }

  function ProtocolMembers(e: LedgerEntry): Members {
    Member(PROTOCOL_KEY, Str(e.protocol), RecordedByMembers(e))
  }

  function RecordedByMembers(e: LedgerEntry): Members {
    if e.recordedBy == "" then SchemaMembers(e) else Member(RECORDED_BY_KEY, Str(e.recordedBy), SchemaMembers(e))
  }

  function SchemaMembers(e: LedgerEntry): Members {
    Member(SCHEMA_KEY, Num(e.schema), SeqMembers(e))
  }

  function SeqMembers(e: LedgerEntry): Members {
    Member(SEQ_KEY, Num(e.seqNo), TsMembers(e))
  }

  function TsMembers(e: LedgerEntry): Members {
    Member(TS_KEY, Str(e.ts), TypeMembers(e))
  }

  function TypeMembers(e: LedgerEntry): Members {
    Member(TYPE_KEY, Str(e.eventType), End)
  }

  /** A key that needs no escaping. */
  predicate Plain(s: string) {
    forall i :: 0 <= i < |s| ==> ' ' <= s[i] && s[i] != '"' && s[i] != '\\'
  }

  lemma {:induction false} PlainIsItself(s: string)
    requires Plain(s)
    ensures Escape(s) == s
  {
    if s != [] {
      PlainIsItself(s[1..]);
    }
  }

  lemma PlainKeys()
    ensures Plain(SCHEMA_KEY) && Plain(SEQ_KEY) && Plain(PREV_KEY) && Plain(HASH_KEY) && Plain(TS_KEY)
    ensures Plain(TYPE_KEY) && Plain(ENGINE_KEY) && Plain(PROTOCOL_KEY) && Plain(RECORDED_BY_KEY) && Plain(FIELDS_KEY)
  {
  }

  /** What follows a member: the closing brace, or a comma and the rest. */
  function Following(rest: Members): string {
    if rest.End? then "}" else "," + (PrintMembers(rest) + "}")
  }

  lemma MemberPrints(key: string, value: Tree, rest: Members)
    requires Plain(key)
    ensures PrintMembers(Member(key, value, rest)) + "}" == Key(key) + (Print(value) + Following(rest))
    ensures Following(Member(key, value, rest)) == ("," + Key(key)) + (Print(value) + Following(rest))
  {
    PlainIsItself(key);
    Flatten(key, Print(value), if rest.End? then "" else PrintMembers(rest));
  }

  lemma Flatten(key: string, value: string, more: string)
    ensures "\"" + key + "\"" + ":" + value + "" + "}" == Key(key) + (value + "}")
    ensures "\"" + key + "\"" + ":" + value + ("," + more) + "}" == Key(key) + (value + ("," + (more + "}")))
    ensures "," + (Key(key) + (value + "}")) == ("," + Key(key)) + (value + "}")
    ensures "," + (Key(key) + (value + ("," + (more + "}")))) == ("," + Key(key)) + (value + ("," + (more + "}")))
  {
  }

  lemma SeqPrints(e: LedgerEntry)
    ensures Following(SeqMembers(e)) == SeqText(e)
  {
    PlainKeys();
    MemberPrints(SEQ_KEY, Num(e.seqNo), TsMembers(e));
    TsPrints(e);
  }

  lemma TsPrints(e: LedgerEntry)
    ensures Following(TsMembers(e)) == TsText(e)
  {
    PlainKeys();
    MemberPrints(TS_KEY, Str(e.ts), TypeMembers(e));
    MemberPrints(TYPE_KEY, Str(e.eventType), End);
  }

  lemma SchemaPrints(e: LedgerEntry)
    ensures PrintMembers(SchemaMembers(e)) + "}" == SchemaText(e)
  {
    PlainKeys();
    MemberPrints(SCHEMA_KEY, Num(e.schema), SeqMembers(e));
    SeqPrints(e);
  }

  lemma RecordedByPrints(e: LedgerEntry)
    ensures PrintMembers(RecordedByMembers(e)) + "}" == RecordedByKey(e.recordedBy) + SchemaText(e)
  {
    SchemaPrints(e);
    if e.recordedBy != "" {
      RecordedByKeyPrints(e);
    } else {
      assert "" + SchemaText(e) == SchemaText(e);
    }
  }

  lemma RecordedByKeyPrints(e: LedgerEntry)
    requires e.recordedBy != "" && PrintMembers(SchemaMembers(e)) + "}" == SchemaText(e)
    ensures PrintMembers(Member(RECORDED_BY_KEY, Str(e.recordedBy), SchemaMembers(e))) + "}"
         == RecordedByKey(e.recordedBy) + SchemaText(e)
  {
    PlainKeys();
    MemberPrints(RECORDED_BY_KEY, Str(e.recordedBy), SchemaMembers(e));
    Comma(Key(RECORDED_BY_KEY), Quote(e.recordedBy), SchemaText(e));
  }

  lemma Comma(key: string, value: string, rest: string)
    ensures key + (value + ("," + rest)) == (key + (value + ",")) + rest
  {
  }

  lemma ProtocolPrints(e: LedgerEntry)
    ensures Following(ProtocolMembers(e)) == ProtocolText(e)
  {
    PlainKeys();
    MemberPrints(PROTOCOL_KEY, Str(e.protocol), RecordedByMembers(e));
    RecordedByPrints(e);
  }

  lemma PrevPrints(e: LedgerEntry)
    ensures Following(PrevMembers(e)) == PrevText(e)
  {
    PlainKeys();
    MemberPrints(PREV_KEY, Str(e.prev), ProtocolMembers(e));
    ProtocolPrints(e);
  }

  lemma HashPrints(e: LedgerEntry)
    ensures Following(EntryTree(e).members.rest.rest) == ("," + Key(HASH_KEY)) + (Quote(e.hash) + PrevText(e))
  {
    PlainKeys();
    PrevPrints(e);
    MemberPrints(HASH_KEY, Str(e.hash), PrevMembers(e));
  }

  lemma TextOfHashTree(e: LedgerEntry)
    ensures HashInput(e) == Print(HashTree(e))
  {
    PlainKeys();
    PrevPrints(e);
    MemberPrints(FIELDS_KEY, Obj(FieldMembers(e.fields)), PrevMembers(e));
    Opens(ENGINE_KEY, Str(e.engine), HashTree(e).members.rest);
  }

  /** Both forms list their keys in that order. */
  predicate Alphabetical(members: Members) {
    members.Member? && members.rest.Member? ==> Less(members.key, members.rest.key) && Alphabetical(members.rest)
  }

  lemma KeysAreAlphabetical(e: LedgerEntry)
    ensures Alphabetical(HashTree(e).members) && Alphabetical(EntryTree(e).members)
    ensures Alphabetical(FieldMembers(e.fields))
  {
    assert Less(ENGINE_KEY, FIELDS_KEY) && Less(FIELDS_KEY, HASH_KEY) && Less(HASH_KEY, PREV_KEY) && Less(FIELDS_KEY, PREV_KEY);
    assert Less(PREV_KEY, PROTOCOL_KEY) && Less(PROTOCOL_KEY, RECORDED_BY_KEY) && Less(PROTOCOL_KEY, SCHEMA_KEY);
    assert Less(RECORDED_BY_KEY, SCHEMA_KEY) && Less(SCHEMA_KEY, SEQ_KEY) && Less(SEQ_KEY, TS_KEY) && Less(TS_KEY, TYPE_KEY);
    assert Alphabetical(TypeMembers(e)) && Alphabetical(TsMembers(e));
    assert Alphabetical(SeqMembers(e)) && Alphabetical(SchemaMembers(e));
    assert Alphabetical(RecordedByMembers(e)) && Alphabetical(ProtocolMembers(e)) && Alphabetical(PrevMembers(e));
    assert Alphabetical(Member(HASH_KEY, Str(e.hash), PrevMembers(e)));
    FieldsAreAlphabetical(e.fields);
  }

  lemma {:induction false} FieldsAreAlphabetical(fs: seq<(string, string)>)
    requires Sorted(fs)
    ensures Alphabetical(FieldMembers(fs))
  {
    if fs != [] {
      FieldsAreAlphabetical(fs[1..]);
    }
  }

  lemma TextOfEntryTree(e: LedgerEntry)
    ensures ToJsonl(e) == Print(EntryTree(e))
  {
    PlainKeys();
    HashPrints(e);
    MemberPrints(FIELDS_KEY, Obj(FieldMembers(e.fields)), EntryTree(e).members.rest.rest);
    Opens(ENGINE_KEY, Str(e.engine), EntryTree(e).members.rest);
  }

  lemma Opens(key: string, value: Tree, rest: Members)
    requires Plain(key)
    ensures Print(Obj(Member(key, value, rest))) == ("{" + Key(key)) + (Print(value) + Following(rest))
  {
    MemberPrints(key, value, rest);
    var members := PrintMembers(Member(key, value, rest));
    assert "{" + members + "}" == "{" + (members + "}");
    assert "{" + (Key(key) + (Print(value) + Following(rest))) == ("{" + Key(key)) + (Print(value) + Following(rest));
  }

  // ---------------------------------------------------------------------------
  // The hash input is an injective encoding
  // ---------------------------------------------------------------------------

  lemma {:induction false} FieldMembersInjective(fs: seq<(string, string)>, gs: seq<(string, string)>)
    requires FieldMembers(fs) == FieldMembers(gs)
    ensures fs == gs
  {
    if fs != [] && gs != [] {
      FieldMembersInjective(fs[1..], gs[1..]);
      assert fs == [fs[0]] + fs[1..] && gs == [gs[0]] + gs[1..];
    }
  }

  /** Two entries hash the same text only if they agree on everything but the
      hash itself, including whether they carry a `recorded_by`. */
  lemma HashInputInjective(d: LedgerEntry, e: LedgerEntry)
    requires HashInput(d) == HashInput(e)
    ensures d.(hash := e.hash) == e
  {
    TextOfHashTree(d);
    TextOfHashTree(e);
    PrintIsInjective(HashTree(d), HashTree(e));
    FieldMembersInjective(d.fields, e.fields);
    assert PrevMembers(d) == PrevMembers(e);
    assert ProtocolMembers(d) == ProtocolMembers(e);
    assert RecordedByMembers(d) == RecordedByMembers(e);
    assert SchemaMembers(d) == SchemaMembers(e);
    assert SeqMembers(d) == SeqMembers(e) && TsMembers(d) == TsMembers(e);
    assert TypeMembers(d) == TypeMembers(e);
  }

  ghost predicate Injective(sha: string -> string) {
    forall x, y :: sha(x) == sha(y) ==> x == y
  }

  /** Under a collision-free hash function, entries with the same digest agree on
      everything but the hash they carry. */
  lemma DigestDeterminesEntry(d: LedgerEntry, e: LedgerEntry, sha: string -> string)
    requires Injective(sha) && DigestOf(sha)(Unhashed(d)) == DigestOf(sha)(Unhashed(e))
    ensures Unhashed(d) == Unhashed(e)
  {
    var x, y := HashInput(Unhashed(d)), HashInput(Unhashed(e));
    assert sha(x) == sha(y);
    HashInputInjective(Unhashed(d), Unhashed(e));
  }

  // ---------------------------------------------------------------------------
  // Reading an entry back
  // ---------------------------------------------------------------------------

  /** The slots a deserializer fills while it visits the members, in any order. */
  datatype Slots = Slots(
    schema: Option<u64>,
    seqNo: Option<u64>,
    prev: Option<string>,
    hash: Option<string>,
    ts: Option<string>,
    eventType: Option<string>,
    engine: Option<string>,
    protocol: Option<string>,
    recordedBy: Option<string>,
    fields: Option<Fields>)

  const NO_SLOTS := Slots(None, None, None, None, None, None, None, None, None, None)

  function TextOf(t: Tree): Option<string> {
    if t.Str? then Some(t.text) else None
  }

  function NumberOf(t: Tree): Option<u64> {
    if t.Num? && t.value < U64_LIMIT then Some(t.value) else None
  }

  /** A map of strings; a repeated key keeps its last value. */
  function DecodeFields(members: Members, read: Fields): Option<Fields> {
    match members
    case End => Some(read)
    case Member(key, Str(value), rest) =>
      InsertKeepsOrder(read, key, value);
      DecodeFields(rest, InsertInto(read, key, value))
    case _ => None
  }

  function FieldsOf(t: Tree): Option<Fields> {
    if t.Obj? then DecodeFields(t.members, []) else None
  }

  /** Fill one slot: a wrong type or a second occurrence is an error, an unknown key is skipped. */
  function Put(s: Slots, key: string, value: Tree): Option<Slots> {
    if key == SCHEMA_KEY then if s.schema.None? && NumberOf(value).Some? then Some(s.(schema := NumberOf(value))) else None
    else if key == SEQ_KEY then if s.seqNo.None? && NumberOf(value).Some? then Some(s.(seqNo := NumberOf(value))) else None
    else if key == PREV_KEY then if s.prev.None? && value.Str? then Some(s.(prev := TextOf(value))) else None
    else if key == HASH_KEY then if s.hash.None? && value.Str? then Some(s.(hash := TextOf(value))) else None
    else if key == TS_KEY then if s.ts.None? && value.Str? then Some(s.(ts := TextOf(value))) else None
    else if key == TYPE_KEY then if s.eventType.None? && value.Str? then Some(s.(eventType := TextOf(value))) else None
    else if key == ENGINE_KEY then if s.engine.None? && value.Str? then Some(s.(engine := TextOf(value))) else None
    else if key == PROTOCOL_KEY then if s.protocol.None? && value.Str? then Some(s.(protocol := TextOf(value))) else None
    else if key == RECORDED_BY_KEY then if s.recordedBy.None? && value.Str? then Some(s.(recordedBy := TextOf(value))) else None
    else if key == FIELDS_KEY then if s.fields.None? && FieldsOf(value).Some? then Some(s.(fields := FieldsOf(value))) else None
    else Some(s)
  }

  function FillSlots(members: Members, s: Slots): Option<Slots> {
    match members
    case End => Some(s)
    case Member(key, value, rest) =>
      match Put(s, key, value)
      case None => None
      case Some(filled) => FillSlots(rest, filled)
  }

  /** Every slot is required but `recorded_by`, which defaults to the empty string. */
  function Assemble(s: Slots): Option<LedgerEntry> {
    match s
    case Slots(Some(schema), Some(seqNo), Some(prev), Some(hash), Some(ts), Some(eventType), Some(engine), Some(protocol),
               recordedBy, Some(fields)) =>
      Some(LedgerEntry(schema, seqNo, prev, hash, ts, eventType, engine, protocol,
                       if recordedBy.Some? then recordedBy.value else "", fields))
    case _ => None
  }

  function Deserialize(line: string): Option<LedgerEntry> {
    match ParseDocument(line)
    case Some(Obj(members)) =>
      (match FillSlots(members, NO_SLOTS)
       case None => None
       case Some(s) => Assemble(s))
    case _ => None
  }

  /** How an entry is hashed: a function of everything but the hash it carries. */
  type Digest = LedgerEntry -> string

  function Unhashed(e: LedgerEntry): LedgerEntry {
    e.(hash := "")
  }

  /** The engine's digest, for the hash function `sha` (hex text of SHA-256). */
  function DigestOf(sha: string -> string): Digest {
    e => sha(HashInput(e))
  }

  /** `LedgerEntry::from_jsonl`. */
  function FromJsonl(line: string, digest: Digest): Result<LedgerEntry, LedgerError> {
    match Deserialize(line)
    case None => Err(ParseError)
    case Some(e) =>
      var recomputed := digest(Unhashed(e));
      if e.schema > SCHEMA_VERSION then Err(UnsupportedVersion(e.schema))
      else if recomputed != e.hash then Err(HashMismatch(e.seqNo, e.hash, recomputed))
      else Ok(e)
  }

  /** What `from_jsonl` admits: a known schema and a hash that recomputes. */
  predicate Sealed(e: LedgerEntry, digest: Digest) {
    e.schema <= SCHEMA_VERSION && e.hash == digest(Unhashed(e))
  }

  /** `LedgerEntry::new_with_ts`. */
  function NewEntry(seqNo: u64, prev: string, eventType: string, engine: string, protocol: string, recordedBy: string,
                    fields: Fields, ts: string, digest: Digest): (e: LedgerEntry)
    ensures Sealed(e, digest)
    ensures e.seqNo == seqNo && e.prev == prev && e.engine == engine && e.protocol == protocol
    ensures e.eventType == eventType && e.recordedBy == recordedBy && e.fields == fields && e.ts == ts
  {
    var unhashed := LedgerEntry(SCHEMA_VERSION, seqNo, prev, "", ts, eventType, engine, protocol, recordedBy, fields);
    unhashed.(hash := digest(unhashed))
  }

  lemma {:induction false} FieldsRoundTrip(fs: Fields, done: nat)
    requires done <= |fs|
    ensures Sorted(fs[..done])
    ensures DecodeFields(FieldMembers(fs[done..]), fs[..done]) == Some(fs)
    decreases |fs| - done
  {
    if done == |fs| {
      assert fs[done..] == [] && fs[..done] == fs;
    } else {
      FieldsRoundTrip(fs, done + 1);
      var (k, v) := fs[done];
      InsertAtEnd(fs[..done], k, v);
      assert fs[..done + 1] == fs[..done] + [(k, v)];
      assert fs[done..][0] == (k, v) && fs[done..][1..] == fs[done + 1..];
    }
  }

  lemma FillStep(key: string, value: Tree, rest: Members, s: Slots, filled: Slots)
    requires Put(s, key, value) == Some(filled)
    ensures FillSlots(Member(key, value, rest), s) == FillSlots(rest, filled)
  {
  }

  lemma EntryTreeDecodes(e: LedgerEntry)
    ensures FillSlots(EntryTree(e).members, NO_SLOTS).Some?
    ensures Assemble(FillSlots(EntryTree(e).members, NO_SLOTS).value) == Some(e)
  {
    FieldsRoundTrip(e.fields, 0);
    assert e.fields[0..] == e.fields && e.fields[..0] == [];
    var m := EntryTree(e).members;
    var s1 := NO_SLOTS.(engine := Some(e.engine));
    FillStep(ENGINE_KEY, Str(e.engine), m.rest, NO_SLOTS, s1);
    var s2 := s1.(fields := Some(e.fields));
    FillStep(FIELDS_KEY, Obj(FieldMembers(e.fields)), m.rest.rest, s1, s2);
    var s3 := s2.(hash := Some(e.hash));
    FillStep(HASH_KEY, Str(e.hash), PrevMembers(e), s2, s3);
    var s4 := s3.(prev := Some(e.prev));
    FillStep(PREV_KEY, Str(e.prev), ProtocolMembers(e), s3, s4);
    var s5 := s4.(protocol := Some(e.protocol));
    FillStep(PROTOCOL_KEY, Str(e.protocol), RecordedByMembers(e), s4, s5);
    var s6 := if e.recordedBy == "" then s5 else s5.(recordedBy := Some(e.recordedBy));
    if e.recordedBy != "" {
      FillStep(RECORDED_BY_KEY, Str(e.recordedBy), SchemaMembers(e), s5, s6);
    }
    var s7 := s6.(schema := Some(e.schema));
    FillStep(SCHEMA_KEY, Num(e.schema), SeqMembers(e), s6, s7);
    var s8 := s7.(seqNo := Some(e.seqNo));
    FillStep(SEQ_KEY, Num(e.seqNo), TsMembers(e), s7, s8);
    var s9 := s8.(ts := Some(e.ts));
    FillStep(TS_KEY, Str(e.ts), TypeMembers(e), s8, s9);
    FillStep(TYPE_KEY, Str(e.eventType), End, s9, s9.(eventType := Some(e.eventType)));
  }

  /** Any entry, sealed or not, is deserialized from the line that holds it. */
  lemma LineDeserializes(e: LedgerEntry)
    ensures Deserialize(ToJsonl(e)) == Some(e)
  {
    TextOfEntryTree(e);
    DocumentRoundTrip(EntryTree(e));
    EntryTreeDecodes(e);
  }

  /** Writing an entry and reading the line back gives the entry. */
  lemma EntryRoundTrip(e: LedgerEntry, digest: Digest)
    requires Sealed(e, digest)
    ensures FromJsonl(ToJsonl(e), digest) == Ok(e)
  {
    LineDeserializes(e);
  }

  /** A later schema comes first, then the hash that does not recompute. */
  function RefusalOf(e: LedgerEntry, digest: Digest): LedgerError {
    if e.schema > SCHEMA_VERSION then UnsupportedVersion(e.schema) else HashMismatch(e.seqNo, e.hash, digest(Unhashed(e)))
  }

  /** What the line of an entry that is not sealed is refused for. */
  lemma UnsealedIsRefused(e: LedgerEntry, digest: Digest)
    requires !Sealed(e, digest)
    ensures FromJsonl(ToJsonl(e), digest) == Err(RefusalOf(e, digest))
  {
    LineDeserializes(e);
  }

  /** Whatever is read, from whatever line, is sealed: its hash recomputes. */
  lemma ReadIsSealed(line: string, digest: Digest)
    ensures FromJsonl(line, digest).Ok? ==> Sealed(FromJsonl(line, digest).value, digest)
  {
  }

  /** Under a collision-free hash function, a sealed entry is determined by its hash. */
  lemma SealedByHash(d: LedgerEntry, e: LedgerEntry, sha: string -> string)
    requires Injective(sha) && Sealed(d, DigestOf(sha)) && Sealed(e, DigestOf(sha)) && d.hash == e.hash
    ensures d == e
  {
    DigestDeterminesEntry(d, e, sha);
    assert d == Unhashed(d).(hash := d.hash) && e == Unhashed(e).(hash := e.hash);
  }

  /** An entry edited under its old hash is refused, whatever the edit. */
  lemma EditIsRefused(e: LedgerEntry, edited: LedgerEntry, sha: string -> string)
    requires Injective(sha) && Sealed(e, DigestOf(sha))
    requires edited != e && edited.hash == e.hash && edited.schema <= SCHEMA_VERSION
    ensures FromJsonl(ToJsonl(edited), DigestOf(sha))
         == Err(HashMismatch(edited.seqNo, e.hash, DigestOf(sha)(Unhashed(edited))))
  {
    if Sealed(edited, DigestOf(sha)) {
      SealedByHash(e, edited, sha);
    }
    UnsealedIsRefused(edited, DigestOf(sha));
  }

  /** The written form holds no line break and no space at either end. */
  lemma EntryIsOneLine(e: LedgerEntry)
    ensures Printable(ToJsonl(e))
    ensures |ToJsonl(e)| > 1 && ToJsonl(e)[0] == '{' && ToJsonl(e)[|ToJsonl(e)| - 1] == '}'
  {
    TextOfEntryTree(e);
    PrintIsPrintable(EntryTree(e));
    var inside := PrintMembers(EntryTree(e).members);
    assert Print(EntryTree(e)) == "{" + inside + "}";
  }
}
