/** The append-only, hash-chained ledger file (src/ledger/chain.rs). */
module LedgerChain {
  import opened Wrappers
  import opened JsonText
  import opened LedgerEntries
  import opened ProtocolConfig

  const ENGINE_NAME := "sahjhan"

  // ---------------------------------------------------------------------------
  // Lines
  // ---------------------------------------------------------------------------

  /** Unicode `White_Space`, as `str::trim` uses it. */
  predicate IsWhitespace(c: char) {
    '\U{9}' <= c <= '\U{D}' || c == ' ' || c == '\U{85}' || c == '\U{A0}' || c == '\U{1680}'
    || '\U{2000}' <= c <= '\U{200A}' || c == '\U{2028}' || c == '\U{2029}' || c == '\U{202F}'
    || c == '\U{205F}' || c == '\U{3000}'
  }

  function Trim(s: string): string
    decreases |s|
  {
    if s == [] then []
    else if IsWhitespace(s[0]) then Trim(s[1..])
    else if IsWhitespace(s[|s| - 1]) then Trim(s[..|s| - 1])
    else s
  }

  function LineEnd(text: string): (n: nat)
    ensures n <= |text|
    ensures n < |text| ==> text[n] == '\n'
  {
    if text == [] || text[0] == '\n' then 0 else 1 + LineEnd(text[1..])
  }

  function ChopReturn(line: string): string {
    if line != [] && line[|line| - 1] == '\r' then line[..|line| - 1] else line
  }

  /** `BufRead::lines`. */
  function Lines(text: string): seq<string>
    decreases |text|
  {
    if text == [] then []
    else
      var n := LineEnd(text);
      if n == |text| then [text] else [ChopReturn(text[..n])] + Lines(text[n + 1..])
  }

  // ---------------------------------------------------------------------------
  // Reading and writing a whole file
  // ---------------------------------------------------------------------------

  type Parse = Result<seq<LedgerEntry>, LedgerError>

  function Prepend(front: seq<LedgerEntry>, rest: Parse): Parse {
    match rest
    case Ok(es) => Ok(front + es)
    case Err(e) => Err(e)
  }

  /** `from_jsonl` with its hash function fixed. */
  function Parser(digest: Digest): string -> Result<LedgerEntry, LedgerError> {
    line => FromJsonl(line, digest)
  }

  /** Blank lines are skipped; the first line that does not parse decides the error. */
  function ParseEach(lines: seq<string>, parse: string -> Result<LedgerEntry, LedgerError>): Parse {
    if lines == [] then Ok([])
    else if Trim(lines[0]) == "" then ParseEach(lines[1..], parse)
    else
      match parse(Trim(lines[0]))
      case Err(e) => Err(e)
      case Ok(entry) => Prepend([entry], ParseEach(lines[1..], parse))
  }

  /** The entries of a ledger file. */
  function ParseText(text: string, digest: Digest): Parse {
    ParseEach(Lines(text), Parser(digest))
  }

  method ParseFile(text: string, digest: Digest) returns (parsed: Parse)
    ensures parsed == ParseText(text, digest)
  {
    var lines := Lines(text);
    ghost var parse := Parser(digest);
    var entries: seq<LedgerEntry> := [];
    PrependNothing(ParseEach(lines, parse));
    assert lines[0..] == lines;
    for i := 0 to |lines|
      invariant ParseEach(lines, parse) == Prepend(entries, ParseEach(lines[i..], parse))
    {
      assert lines[i..][0] == lines[i] && lines[i..][1..] == lines[i + 1..];
      var trimmed := Trim(lines[i]);
      if trimmed == "" {
        continue;
      }
      match FromJsonl(trimmed, digest) {
        case Err(e) =>
          return Err(e);
        case Ok(entry) =>
          PrependTwice(entries, entry, ParseEach(lines[i + 1..], parse));
          entries := entries + [entry];
      }
    }
    assert entries + [] == entries;
    parsed := Ok(entries);
  }

  lemma PrependNothing(rest: Parse)
    ensures Prepend([], rest) == rest
  {
    if rest.Ok? {
      assert [] + rest.value == rest.value;
    }
  }

  lemma PrependTwice(front: seq<LedgerEntry>, entry: LedgerEntry, rest: Parse)
    ensures Prepend(front, Prepend([entry], rest)) == Prepend(front + [entry], rest)
  {
    if rest.Ok? {
      assert front + ([entry] + rest.value) == front + [entry] + rest.value;
    }
  }

  function MapLines(entries: seq<LedgerEntry>, text: LedgerEntry -> string): (lines: seq<string>)
    ensures |lines| == |entries| && forall i :: 0 <= i < |lines| ==> lines[i] == text(entries[i])
  {
    if entries == [] then [] else [text(entries[0])] + MapLines(entries[1..], text)
  }

  function JoinLines(lines: seq<string>): string {
    if lines == [] then [] else lines[0] + "\n" + JoinLines(lines[1..])
  }

  /** The file that holds `entries`. */
  function Render(entries: seq<LedgerEntry>): string {
    JoinLines(MapLines(entries, ToJsonl))
  }

  function Line(e: LedgerEntry): string {
    ToJsonl(e) + "\n"
  }

  lemma {:induction false} JoinSnoc(lines: seq<string>, last: string)
    ensures JoinLines(lines + [last]) == JoinLines(lines) + (last + "\n")
  {
    if lines == [] {
      assert (lines + [last])[1..] == [];
      assert [] + (last + "\n") == last + "\n" + [];
    } else {
      JoinSnoc(lines[1..], last);
      assert (lines + [last])[1..] == lines[1..] + [last];
      Associate(lines[0] + "\n", JoinLines(lines[1..]), last + "\n");
    }
  }

  lemma RenderSnoc(entries: seq<LedgerEntry>, e: LedgerEntry)
    ensures Render(entries + [e]) == Render(entries) + Line(e)
  {
    MapSnoc(entries, ToJsonl, e);
    JoinSnoc(MapLines(entries, ToJsonl), ToJsonl(e));
  }

  lemma MapSnoc(entries: seq<LedgerEntry>, text: LedgerEntry -> string, e: LedgerEntry)
    ensures MapLines(entries + [e], text) == MapLines(entries, text) + [text(e)]
  {
  }

  predicate AllSealed(entries: seq<LedgerEntry>, digest: Digest) {
    forall i :: 0 <= i < |entries| ==> Sealed(entries[i], digest)
  }

  /** A line that splitting leaves alone: no break inside, no return at its end. */
  predicate IsLine(line: string) {
    '\n' !in line && ChopReturn(line) == line
  }

  lemma {:induction false} LineEndSkips(line: string, rest: string)
    requires '\n' !in line
    ensures LineEnd(line + "\n" + rest) == |line|
  {
    var text := line + "\n" + rest;
    if line != [] {
      assert text[1..] == line[1..] + "\n" + rest;
      LineEndSkips(line[1..], rest);
    }
  }

  lemma FirstLine(line: string, rest: string)
    requires '\n' !in line
    ensures Lines(line + "\n" + rest) == [ChopReturn(line)] + Lines(rest)
  {
    var text := line + "\n" + rest;
    LineEndSkips(line, rest);
    assert text[..|line|] == line && text[|line| + 1..] == rest;
  }

  lemma {:induction false} SplitUndoesJoin(lines: seq<string>)
    requires forall i :: 0 <= i < |lines| ==> IsLine(lines[i])
    ensures Lines(JoinLines(lines)) == lines
  {
    if lines != [] {
      SplitUndoesJoin(lines[1..]);
      FirstLine(lines[0], JoinLines(lines[1..]));
      assert lines == [lines[0]] + lines[1..];
    }
  }

  lemma LineIsTrimmed(e: LedgerEntry)
    ensures IsLine(ToJsonl(e)) && Trim(ToJsonl(e)) == ToJsonl(e) != ""
  {
    EntryIsOneLine(e);
    BracedIsTrimmed(ToJsonl(e));
  }

  lemma BracedIsTrimmed(line: string)
    requires Printable(line) && |line| > 1 && line[0] == '{' && line[|line| - 1] == '}'
    ensures IsLine(line) && Trim(line) == line != ""
  {
  }

  lemma {:induction false} EachParses(lines: seq<string>, entries: seq<LedgerEntry>,
      parse: string -> Result<LedgerEntry, LedgerError>)
    requires |lines| == |entries|
    requires forall i :: 0 <= i < |lines| ==> Trim(lines[i]) == lines[i] != "" && parse(lines[i]) == Ok(entries[i])
    ensures ParseEach(lines, parse) == Ok(entries)
  {
    if lines != [] {
      EachParses(lines[1..], entries[1..], parse);
      assert entries == [entries[0]] + entries[1..];
    }
  }

  /** Splitting a written file into lines and parsing each gives exactly the entries written. */
  lemma FileRoundTrip(entries: seq<LedgerEntry>, digest: Digest)
    requires AllSealed(entries, digest)
    ensures ParseText(Render(entries), digest) == Ok(entries)
  {
    var lines := MapLines(entries, ToJsonl);
    forall i | 0 <= i < |lines|
      ensures IsLine(lines[i]) && Trim(lines[i]) == lines[i] != "" && Parser(digest)(lines[i]) == Ok(entries[i])
    {
      assert Sealed(entries[i], digest);
      LineIsTrimmed(entries[i]);
      EntryRoundTrip(entries[i], digest);
    }
    SplitUndoesJoin(lines);
    EachParses(lines, entries, Parser(digest));
  }

  lemma {:induction false} EachReadIsSealed(lines: seq<string>, digest: Digest)
    ensures var parsed := ParseEach(lines, Parser(digest)); parsed.Ok? ==> AllSealed(parsed.value, digest)
  {
    if lines != [] {
      EachReadIsSealed(lines[1..], digest);
      ReadIsSealed(Trim(lines[0]), digest);
    }
  }

  /** Every entry of a file that parses is sealed. */
  lemma ParsedIsSealed(text: string, digest: Digest)
    ensures ParseText(text, digest).Ok? ==> AllSealed(ParseText(text, digest).value, digest)
  {
    EachReadIsSealed(Lines(text), digest);
  }

  /** One unsealed entry, and the whole file is refused for the first of them. */
  lemma UnsealedFileIsRefused(entries: seq<LedgerEntry>, i: nat, digest: Digest)
    requires i < |entries| && AllSealed(entries[..i], digest) && !Sealed(entries[i], digest)
    ensures ParseText(Render(entries), digest) == Err(RefusalOf(entries[i], digest))
  {
    UnsealedIsRefused(entries[i], digest);
    var lines := MapLines(entries, ToJsonl);
    forall k | 0 <= k < |lines| ensures IsLine(lines[k]) && Trim(lines[k]) == lines[k] != "" {
      LineIsTrimmed(entries[k]);
    }
    forall k | 0 <= k < i ensures Parser(digest)(lines[k]).Ok? {
      assert Sealed(entries[..i][k], digest);
      EntryRoundTrip(entries[k], digest);
    }
    SplitUndoesJoin(lines);
    FirstErrorDecides(lines, i, Parser(digest));
  }

  lemma {:induction false} FirstErrorDecides(lines: seq<string>, i: nat, parse: string -> Result<LedgerEntry, LedgerError>)
    requires i < |lines| && parse(lines[i]).Err?
    requires forall k :: 0 <= k < |lines| ==> Trim(lines[k]) == lines[k] != ""
    requires forall k :: 0 <= k < i ==> parse(lines[k]).Ok?
    ensures ParseEach(lines, parse) == Err(parse(lines[i]).error)
  {
    if i > 0 {
      FirstErrorDecides(lines[1..], i - 1, parse);
    }
  }

  // ---------------------------------------------------------------------------
  // The chain
  // ---------------------------------------------------------------------------

  /** What `verify` asks of entry `i`. */
  predicate Linked(entries: seq<LedgerEntry>, i: nat)
    requires i < |entries|
  {
    entries[i].seqNo == i && (i > 0 ==> entries[i].prev == entries[i - 1].hash)
  }

  predicate Chained(entries: seq<LedgerEntry>) {
    forall i :: 0 <= i < |entries| ==> Linked(entries, i)
  }

  /** Entry `i` is the first that does not link, and `error` says why. */
  predicate IsFirstFault(entries: seq<LedgerEntry>, i: nat, error: LedgerError)
    requires i < |entries|
  {
    && Chained(entries[..i]) && !Linked(entries, i)
    && error == if entries[i].seqNo != i then SequenceGap(i, entries[i].seqNo) else ChainBreak(entries[i].seqNo)
  }

  method Verify(entries: seq<LedgerEntry>) returns (verdict: Result<(), LedgerError>)
    ensures verdict.Ok? <==> Chained(entries)
    ensures verdict.Err? ==> exists i :: 0 <= i < |entries| && IsFirstFault(entries, i, verdict.error)
  {
    for i := 0 to |entries|
      invariant forall k :: 0 <= k < i ==> Linked(entries, k)
    {
      var entry := entries[i];
      assert Chained(entries[..i]) by {
        forall k | 0 <= k < i ensures Linked(entries[..i], k) {
          assert Linked(entries, k);
        }
      }
      if entry.seqNo != i {
        assert IsFirstFault(entries, i, SequenceGap(i, entry.seqNo));
        return Err(SequenceGap(i, entry.seqNo));
      }
      if i > 0 && entry.prev != entries[i - 1].hash {
        assert IsFirstFault(entries, i, ChainBreak(entry.seqNo));
        return Err(ChainBreak(entry.seqNo));
      }
    }
    verdict := Ok(());
  }

  /** What `open` asks of a file: it parses, holds an entry, and chains. */
  predicate CanOpen(text: string, digest: Digest) {
    var parsed := ParseText(text, digest);
    parsed.Ok? && parsed.value != [] && Chained(parsed.value)
  }

  /** With a collision-free hash, two files that open and share their last hash hold
      the same ledger. */
  lemma LastHashDeterminesLedger(text: string, other: string, sha: string -> string)
    requires Injective(sha) && CanOpen(text, DigestOf(sha)) && CanOpen(other, DigestOf(sha))
    requires var es, fs := ParseText(text, DigestOf(sha)).value, ParseText(other, DigestOf(sha)).value;
      es[|es| - 1].hash == fs[|fs| - 1].hash
    ensures ParseText(text, DigestOf(sha)) == ParseText(other, DigestOf(sha))
  {
    CollisionFreeTells(sha);
    SealedTextsAgree(text, other, DigestOf(sha));
  }

  /** The hash of a sealed entry tells it from every other. */
  ghost predicate TellsEntries(digest: Digest) {
    forall e: LedgerEntry, f: LedgerEntry :: Sealed(e, digest) && Sealed(f, digest) && e.hash == f.hash ==> e == f
  }

  lemma CollisionFreeTells(sha: string -> string)
    requires Injective(sha)
    ensures TellsEntries(DigestOf(sha))
  {
    var digest := DigestOf(sha);
    forall e: LedgerEntry, f: LedgerEntry | Sealed(e, digest) && Sealed(f, digest) && e.hash == f.hash ensures e == f {
      SealedByHash(e, f, sha);
    }
  }

  lemma SealedTextsAgree(text: string, other: string, digest: Digest)
    requires TellsEntries(digest) && CanOpen(text, digest) && CanOpen(other, digest)
    requires var es, fs := ParseText(text, digest).value, ParseText(other, digest).value;
      es[|es| - 1].hash == fs[|fs| - 1].hash
    ensures ParseText(text, digest) == ParseText(other, digest)
  {
    ParsedIsSealed(text, digest);
    ParsedIsSealed(other, digest);
    SealedChainsAgree(ParseText(text, digest).value, ParseText(other, digest).value, digest);
  }

  lemma SealedChainsAgree(es: seq<LedgerEntry>, fs: seq<LedgerEntry>, digest: Digest)
    requires TellsEntries(digest)
    requires es != [] && Chained(es) && AllSealed(es, digest)
    requires fs != [] && Chained(fs) && AllSealed(fs, digest)
    requires es[|es| - 1].hash == fs[|fs| - 1].hash
    ensures es == fs
  {
    ChainsAgree(es, fs);
  }

  lemma {:induction false} ChainsAgree(es: seq<LedgerEntry>, fs: seq<LedgerEntry>)
    requires es != [] && Chained(es) && fs != [] && Chained(fs)
    requires forall i, j :: 0 <= i < |es| && 0 <= j < |fs| && es[i].hash == fs[j].hash ==> es[i] == fs[j]
    requires es[|es| - 1].hash == fs[|fs| - 1].hash
    ensures es == fs
    decreases |es|
  {
    var m, n := |es| - 1, |fs| - 1;
    assert Linked(es, m) && Linked(fs, n);
    assert m == n;
    if m > 0 {
      ChainedPrefix(es, m);
      ChainedPrefix(fs, m);
      ChainsAgree(es[..m], fs[..m]);
    }
    assert es == es[..m] + [es[m]] && fs == fs[..m] + [fs[m]];
  }

  lemma ChainedPrefix(es: seq<LedgerEntry>, n: nat)
    requires n <= |es| && Chained(es)
    ensures Chained(es[..n])
  {
    forall i | 0 <= i < n ensures Linked(es[..n], i) {
      assert Linked(es, i);
    }
  }

  // ---------------------------------------------------------------------------
  // A well-formed ledger, and what an append does to it
  // ---------------------------------------------------------------------------

  /** Every entry carries the genesis entry's engine and protocol. */
  predicate OneOrigin(entries: seq<LedgerEntry>) {
    forall i :: 0 <= i < |entries| ==> entries[i].engine == entries[0].engine && entries[i].protocol == entries[0].protocol
  }

  predicate WellFormed(entries: seq<LedgerEntry>, digest: Digest) {
    entries != [] && Chained(entries) && AllSealed(entries, digest) && OneOrigin(entries)
  }

  /** The writer's part of an append: everything the engine does not fill in itself. */
  datatype Event = Event(eventType: string, fields: Fields, recordedBy: string, ts: string)

  function NextEntry(entries: seq<LedgerEntry>, engine: string, protocol: string, ev: Event, digest: Digest): LedgerEntry
    requires entries != [] && entries[|entries| - 1].seqNo + 1 < U64_LIMIT
  {
    var last := entries[|entries| - 1];
    NewEntry(last.seqNo + 1, last.hash, ev.eventType, engine, protocol, ev.recordedBy, ev.fields, ev.ts, digest)
  }

  /** `e` is the event, from this writer, right behind `last` and sealed. */
  predicate Follows(last: LedgerEntry, e: LedgerEntry, engine: string, protocol: string, ev: Event, digest: Digest) {
    && e.seqNo == last.seqNo + 1 && e.prev == last.hash
    && e.eventType == ev.eventType && e.fields == ev.fields && e.recordedBy == ev.recordedBy && e.ts == ev.ts
    && e.engine == engine && e.protocol == protocol
    && e.schema == SCHEMA_VERSION && Sealed(e, digest)
  }

  /** Nothing else is such an entry. */
  lemma NextEntryFollows(entries: seq<LedgerEntry>, engine: string, protocol: string, ev: Event, digest: Digest, e: LedgerEntry)
    requires entries != [] && entries[|entries| - 1].seqNo + 1 < U64_LIMIT
    ensures Follows(entries[|entries| - 1], e, engine, protocol, ev, digest) <==> e == NextEntry(entries, engine, protocol, ev, digest)
  {
    var next := NextEntry(entries, engine, protocol, ev, digest);
    if Follows(entries[|entries| - 1], e, engine, protocol, ev, digest) {
      assert Unhashed(e) == Unhashed(next);
    }
  }

  lemma AppendKeepsWellFormed(entries: seq<LedgerEntry>, ev: Event, digest: Digest)
    requires WellFormed(entries, digest) && entries[|entries| - 1].seqNo + 1 < U64_LIMIT
    ensures WellFormed(entries + [NextEntry(entries, entries[0].engine, entries[0].protocol, ev, digest)], digest)
  {
    var e := NextEntry(entries, entries[0].engine, entries[0].protocol, ev, digest);
    assert Linked(entries, |entries| - 1);
    ExtendChain(entries, e);
    ExtendSeals(entries, e, digest);
  }

  lemma ExtendChain(entries: seq<LedgerEntry>, e: LedgerEntry)
    requires Chained(entries) && e.seqNo == |entries|
    requires entries != [] ==> e.prev == entries[|entries| - 1].hash
    ensures Chained(entries + [e])
  {
    forall i | 0 <= i < |entries| + 1 ensures Linked(entries + [e], i) {
      assert i < |entries| ==> Linked(entries, i);
    }
  }

  lemma ExtendSeals(entries: seq<LedgerEntry>, e: LedgerEntry, digest: Digest)
    requires AllSealed(entries, digest) && Sealed(e, digest)
    ensures AllSealed(entries + [e], digest)
  {
  }

  /** `create_genesis`: the random nonce and the clock are parameters. */
  function Genesis(name: string, version: string, seals: Fields, nonce: string, ts: string,
      digest: Digest): (e: LedgerEntry)
    ensures Sealed(e, digest) && e.seqNo == 0
  {
    NewEntry(0, nonce, GENESIS, ENGINE_NAME, name + "/" + version, INIT_RECORDER, GenesisFields(name, version, seals), ts, digest)
  }

  const PROTOCOL_NAME := "protocol_name"
  const PROTOCOL_VERSION := "protocol_version"
  const INIT_RECORDER := "engine:init"

  function GenesisFields(name: string, version: string, seals: Fields): Fields {
    WithSeals(InsertField(InsertField([], PROTOCOL_NAME, name), PROTOCOL_VERSION, version), seals)
  }

  function InsertField(fs: Fields, key: string, value: string): Fields {
    InsertKeepsOrder(fs, key, value);
    InsertInto(fs, key, value)
  }

  function WithSeals(fs: Fields, seals: Fields): Fields
    decreases |seals|
  {
    if seals == [] then fs else WithSeals(InsertField(fs, seals[0].0, seals[0].1), seals[1..])
  }

  lemma GenesisIsWellFormed(name: string, version: string, seals: Fields, nonce: string, ts: string, digest: Digest)
    ensures WellFormed([Genesis(name, version, seals, nonce, ts, digest)], digest)
  {
    SingletonIsWellFormed(Genesis(name, version, seals, nonce, ts, digest), digest);
  }

  lemma SingletonIsWellFormed(g: LedgerEntry, digest: Digest)
    requires Sealed(g, digest) && g.seqNo == 0
    ensures WellFormed([g], digest)
  {
    ExtendChain([], g);
    assert [] + [g] == [g];
  }

  // ---------------------------------------------------------------------------
  // The ledger object
  // ---------------------------------------------------------------------------

  /** A file on disk; `None` while it does not exist. */
  class LedgerFile {
    var text: Option<string>

    constructor ()
      ensures text == None
    {
      text := None;
    }
  }

  /** Why `open` refuses a file: it does not parse, it is empty, or it does not verify. */
  ghost predicate IsRefusal(parsed: Parse, error: LedgerError) {
    match parsed
    case Err(e) => error == e
    case Ok(es) => if es == [] then error == EmptyLedger else exists i :: 0 <= i < |es| && IsFirstFault(es, i, error)
  }

  /** Why `append` refuses. */
  function AppendError(onDisk: Parse): LedgerError {
    match onDisk
    case Err(e) => e
    case Ok(es) => if es == [] then EmptyLedger else SequenceExhausted
  }

  class Ledger {
    const file: LedgerFile
    const digest: Digest
    var entries: seq<LedgerEntry>
    var engine: string
    var protocol: string

    constructor (file: LedgerFile, digest: Digest, entries: seq<LedgerEntry>)
      requires entries != []
      ensures this.file == file && this.digest == digest && this.entries == entries
      ensures engine == entries[0].engine && protocol == entries[0].protocol
    {
      this.file, this.digest, this.entries := file, digest, entries;
      this.engine, this.protocol := entries[0].engine, entries[0].protocol;
    }

    /** Create the file with a genesis entry; an existing file is left alone. */
    static method Init(file: LedgerFile, name: string, version: string, seals: Fields, nonce: string, ts: string,
        digest: Digest)
      returns (created: Option<Ledger>)
      modifies file
      ensures created.Some? <==> old(file.text).None?
      ensures created.None? ==> file.text == old(file.text)
      ensures created.Some? ==> fresh(created.value) && created.value.file == file && created.value.digest == digest
      ensures created.Some? ==> file.text == Some(Render(created.value.entries))
      ensures created.Some? ==> created.value.entries == [Genesis(name, version, seals, nonce, ts, digest)]
      ensures created.Some? ==> WellFormed(created.value.entries, digest)
    {
      if file.text.Some? {
        return None;
      }
      var genesis := Genesis(name, version, seals, nonce, ts, digest);
      GenesisIsWellFormed(name, version, seals, nonce, ts, digest);
      RenderSnoc([], genesis);
      assert [] + [genesis] == [genesis] && [] + Line(genesis) == Line(genesis);
      file.text := Some(Line(genesis));
      var ledger := new Ledger(file, digest, [genesis]);
      created := Some(ledger);
    }

    /** Open an existing file: it must parse, hold a genesis entry and verify. */
    static method Open(file: LedgerFile, digest: Digest) returns (outcome: Result<Ledger, LedgerError>)
      requires file.text.Some?
      ensures outcome.Ok? <==>
        (var parsed := ParseText(file.text.value, digest); parsed.Ok? && parsed.value != [] && Chained(parsed.value))
      ensures outcome.Ok? ==> AllSealed(outcome.value.entries, digest)
      ensures outcome.Ok? ==> fresh(outcome.value) && outcome.value.file == file && outcome.value.digest == digest
      ensures outcome.Ok? ==> Ok(outcome.value.entries) == ParseText(file.text.value, digest) && outcome.value.entries != []
      ensures outcome.Ok? ==> outcome.value.engine == outcome.value.entries[0].engine
      ensures outcome.Ok? ==> outcome.value.protocol == outcome.value.entries[0].protocol
      ensures outcome.Err? ==> IsRefusal(ParseText(file.text.value, digest), outcome.error)
    {
      var parsed := ParseFile(file.text.value, digest);
      ParsedIsSealed(file.text.value, digest);
      match parsed {
        case Err(e) =>
          outcome := Err(e);
        case Ok(entries) =>
          if entries == [] {
            return Err(EmptyLedger);
          }
          var verdict := Verify(entries);
          match verdict {
            case Err(e) =>
              outcome := Err(e);
            case Ok(_) =>
              var ledger := new Ledger(file, digest, entries);
              outcome := Ok(ledger);
          }
      }
    }

    /** Append under the exclusive lock: sequence number and predecessor hash
        come from the file as it is now, not from this object's stale copy.
        The source panics on a file without entries; that is `EmptyLedger`. */
    method Append(ev: Event) returns (done: Result<(), LedgerError>)
      requires file.text.Some?
      modifies this, file
      ensures file.text.Some? && engine == old(engine) && protocol == old(protocol)
      ensures done.Err? ==> file.text == old(file.text) && entries == old(entries)
      ensures done.Ok? <==>
        (var onDisk := ParseText(old(file.text.value), digest);
         onDisk.Ok? && onDisk.value != [] && onDisk.value[|onDisk.value| - 1].seqNo + 1 < U64_LIMIT)
      ensures done.Err? ==> done.error == AppendError(ParseText(old(file.text.value), digest))
      ensures done.Ok? ==>
        var onDisk := ParseText(old(file.text.value), digest).value;
        var e := NextEntry(onDisk, old(engine), old(protocol), ev, digest);
        && entries == onDisk + [e] && file.text.value == old(file.text.value) + Line(e)
        && Follows(onDisk[|onDisk| - 1], e, old(engine), old(protocol), ev, digest)
    {
      var onDisk := ParseFile(file.text.value, digest);
      match onDisk {
        case Err(e) =>
          done := Err(e);
        case Ok(es) =>
          if es == [] {
            return Err(EmptyLedger);
          }
          if es[|es| - 1].seqNo + 1 == U64_LIMIT {
            return Err(SequenceExhausted);
          }
          var entry := NextEntry(es, engine, protocol, ev, digest);
          NextEntryFollows(es, engine, protocol, ev, digest, entry);
          file.text := Some(file.text.value + Line(entry));
          entries := es + [entry];
          done := Ok(());
      }
    }

    /** Replace the in-memory copy with what is on disk. */
    method Reload() returns (done: Result<(), LedgerError>)
      requires file.text.Some?
      modifies this
      ensures done.Ok? <==> ParseText(file.text.value, digest).Ok?
      ensures done.Ok? ==> Ok(entries) == ParseText(file.text.value, digest)
      ensures done.Ok? && entries != [] ==> engine == entries[0].engine && protocol == entries[0].protocol
      ensures done.Err? ==> entries == old(entries) && Err(done.error) == ParseText(file.text.value, digest)
      ensures done.Err? || entries == [] ==> engine == old(engine) && protocol == old(protocol)
    {
      var parsed := ParseFile(file.text.value, digest);
      match parsed {
        case Err(e) =>
          done := Err(e);
        case Ok(es) =>
          if es != [] {
            engine, protocol := es[0].engine, es[0].protocol;
          }
          entries := es;
          done := Ok(());
      }
    }
  }

  /** An append to a file the engine wrote leaves a file the engine could have
      written, whatever stale copy the appender held. */
  lemma AppendExtendsFile(entries: seq<LedgerEntry>, ev: Event, digest: Digest)
    requires WellFormed(entries, digest) && entries[|entries| - 1].seqNo + 1 < U64_LIMIT
    ensures ParseText(Render(entries), digest) == Ok(entries)
    ensures var e := NextEntry(entries, entries[0].engine, entries[0].protocol, ev, digest);
      && Render(entries) + Line(e) == Render(entries + [e])
      && WellFormed(entries + [e], digest)
      && ParseText(Render(entries) + Line(e), digest) == Ok(entries + [e])
  {
    var e := NextEntry(entries, entries[0].engine, entries[0].protocol, ev, digest);
    FileRoundTrip(entries, digest);
    RenderSnoc(entries, e);
    AppendKeepsWellFormed(entries, ev, digest);
    FileRoundTrip(entries + [e], digest);
  }
}
