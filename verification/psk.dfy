/** The pre-shared-key file loader: one `identity:hexkey` record per line,
    folded into a map from identity to key bytes. Opening the file and
    splitting it into lines are left to the caller; `Load` receives the
    lines as byte strings. */
module Psk {
  import opened Base
  import Utf8
  import Hex

  const COLON: Byte := 0x3A

  /** Longest identity the loader admits, in bytes. */
  const MAX_IDENTITY_LEN: nat := 23

  /** The text before the first `:`, or the whole of `s` if it has none
      (the first item `str::split(':')` yields). */
  function Field(s: Bytes): (f: Bytes)
    ensures |f| <= |s| && f == s[..|f|]
    ensures forall i :: 0 <= i < |f| ==> f[i] != COLON
    ensures |f| < |s| ==> s[|f|] == COLON
  {
    if s == [] || s[0] == COLON then [] else [s[0]] + Field(s[1..])
  }

  /** One parsed record. */
  datatype Entry = Entry(identity: Bytes, key: Bytes)

  /** Why a line was rejected. `NoSeparator` is where the Rust code calls
      `unwrap()` on a missing second field and panics instead of returning
      an error. */
  datatype LineError =
    | NotUtf8       // the line could not be read as text
    | BadIdentity   // identity empty or longer than 23 bytes
    | NoSeparator   // no `:` after a valid identity
    | NotHex        // key text is not an even run of hex digits
    | BadKey        // key decodes to no bytes

  /** Parses one line: identity before the first `:`, key text between the
      first and the second `:` (later fields are ignored), hex-decoded. The
      key check compares the IDENTITY length with 256, so no bound on the key
      length is enforced. */
  function ParseLine(line: Bytes): (r: Result<Entry, LineError>)
    ensures r.Ok? ==> ValidEntry(r.value)
  {
    if !Utf8.Valid(line) then Err(NotUtf8)
    else
      var identity := Field(line);
      if |identity| == 0 || |identity| > MAX_IDENTITY_LEN then Err(BadIdentity)
      else if |identity| == |line| then Err(NoSeparator)
      else
        match Hex.Decode(Field(line[|identity| + 1..]))
        case None => Err(NotHex)
        case Some(key) =>
          if |key| == 0 || |identity| > 256 then Err(BadKey)
          else
            Utf8.PrefixBeforeAsciiIsValid(line, |identity|);
            Ok(Entry(identity, key))
  }

  /** A line is accepted exactly when it is valid UTF-8, its identity (the
      text before the first `:`) has 1 to 23 bytes, a `:` follows it, and the
      text after that `:` up to the next one (or the end) decodes as
      hexadecimal to at least one byte, which is the key. */
  lemma ParseLineAccepts(line: Bytes)
    ensures ParseLine(line).Ok? <==>
      && Utf8.Valid(line)
      && 1 <= |Field(line)| <= MAX_IDENTITY_LEN
      && |Field(line)| < |line|
      && line[|Field(line)|] == COLON
      && Hex.Decode(Field(line[|Field(line)| + 1..])).Some?
      && Hex.Decode(Field(line[|Field(line)| + 1..])).value != []
    ensures ParseLine(line).Ok? ==>
      && ParseLine(line).value.identity == Field(line)
      && Hex.Decode(Field(line[|Field(line)| + 1..])) == Some(ParseLine(line).value.key)
  {
    var identity := Field(line);
    if Utf8.Valid(line) && 1 <= |identity| <= MAX_IDENTITY_LEN && |identity| < |line| {
      var key := Hex.Decode(Field(line[|identity| + 1..]));
      if key.Some? && key.value != [] {
        ParseLineOk(line, identity, key.value);
      }
    }
  }

  /** What every accepted record satisfies. */
  predicate ValidEntry(e: Entry) {
    && 1 <= |e.identity| <= MAX_IDENTITY_LEN
    && Utf8.Valid(e.identity)
    && COLON !in e.identity
    && e.key != []
  }

  /** A credential set as the loader returns it: non-empty, every identity
      1 to 23 bytes of valid UTF-8, every key non-empty. */
  predicate CredentialSet(psks: map<Bytes, Bytes>) {
    && psks != map[]
    && forall id :: id in psks ==> ValidEntry(Entry(id, psks[id]))
  }

  /** The line `identity:hexkey` for an entry. */
  function FormatLine(e: Entry): (line: Bytes) {
    e.identity + [COLON] + Hex.Encode(e.key)
  }

  /** Every valid entry, written out as a line, parses back to itself, and
      it does so whatever the length of its key. */
  lemma ParseFormatLine(e: Entry)
    requires ValidEntry(e)
    ensures ParseLine(FormatLine(e)) == Ok(e)
  {
    var line := FormatLine(e);
    var hex := Hex.Encode(e.key);
    assert line == e.identity + ([COLON] + hex);
    Utf8.AsciiIsValid([COLON] + hex);
    Utf8.ConcatIsValid(e.identity, [COLON] + hex);
    FieldOfSeparated(e.identity, [COLON] + hex);
    assert line[|e.identity| + 1..] == hex;
    NoColonInHex(hex);
    FieldOfSeparated(hex, []);
    assert hex + [] == hex;
    Hex.DecodeEncode(e.key);
    ParseLineOk(line, e.identity, e.key);
  }

  /** The accepting path of ParseLine, spelled out. */
  lemma ParseLineOk(line: Bytes, identity: Bytes, key: Bytes)
    requires Utf8.Valid(line) && Field(line) == identity
    requires 1 <= |identity| <= MAX_IDENTITY_LEN && |identity| < |line|
    requires Hex.Decode(Field(line[|identity| + 1..])) == Some(key) && key != []
    ensures ParseLine(line) == Ok(Entry(identity, key))
  {
  }

  lemma {:induction false} FieldOfSeparated(a: Bytes, b: Bytes)
    requires COLON !in a && (b == [] || b[0] == COLON)
    ensures Field(a + b) == a
    decreases |a|
  {
    if a != [] {
      assert (a + b)[1..] == a[1..] + b;
      FieldOfSeparated(a[1..], b);
    } else {
      assert a + b == b;
    }
  }

  lemma NoColonInHex(s: Bytes)
    requires forall i :: 0 <= i < |s| ==> s[i] < 0x80 && Hex.IsDigit(s[i])
    ensures COLON !in s
  {
  }

  /** Why loading failed: the index of the first bad line and its reason,
      or an input with no records at all. */
  datatype LoadError = BadLine(index: nat, reason: LineError) | NoPsks

  /** Every line parses (stated recursively, one line at a time). */
  predicate AllParse(lines: seq<Bytes>) {
    lines == [] || (AllParse(lines[..|lines| - 1]) && ParseLine(lines[|lines| - 1]).Ok?)
  }

  lemma {:induction false} AllParseMeans(lines: seq<Bytes>)
    ensures AllParse(lines) <==> forall i :: 0 <= i < |lines| ==> ParseLine(lines[i]).Ok?
  {
    if lines != [] {
      var init := lines[..|lines| - 1];
      AllParseMeans(init);
      assert forall i :: 0 <= i < |init| ==> init[i] == lines[i];
    }
  }

  /** The records of lines that all parse, in line order. */
  function Parsed(lines: seq<Bytes>): (es: seq<Entry>)
    requires AllParse(lines)
    ensures |es| == |lines|
  {
    if lines == [] then []
    else Parsed(lines[..|lines| - 1]) + [ParseLine(lines[|lines| - 1]).value]
  }

  /** Record `i` is what line `i` parses to. */
  lemma {:induction false} ParsedAt(lines: seq<Bytes>, i: nat)
    requires AllParse(lines) && i < |lines|
    ensures Ok(Parsed(lines)[i]) == ParseLine(lines[i])
  {
    var init := lines[..|lines| - 1];
    var last := ParseLine(lines[|lines| - 1]);
    assert Parsed(lines) == Parsed(init) + [last.value];
    if i < |init| {
      assert init[i] == lines[i];
      ParsedAt(init, i);
      assert Parsed(lines)[i] == Parsed(init)[i];
    } else {
      assert Parsed(lines)[i] == last.value;
    }
  }

  /** The map built by inserting the records in order, so a later record
      replaces an earlier one with the same identity. */
  function Table(es: seq<Entry>): (psks: map<Bytes, Bytes>)
  {
    if es == [] then map[]
    else Table(es[..|es| - 1])[es[|es| - 1].identity := es[|es| - 1].key]
  }

  lemma TableEmpty(es: seq<Entry>)
    ensures Table(es) == map[] <==> es == []
  {
    if es != [] {
      assert es[|es| - 1].identity in Table(es);
    }
  }

  /** The table's keys are exactly the identities of the records. */
  lemma {:induction false} TableKeys(es: seq<Entry>)
    ensures Table(es).Keys == set i | 0 <= i < |es| :: es[i].identity
  {
    if es != [] {
      var init := es[..|es| - 1];
      TableKeys(init);
      var s := set i | 0 <= i < |es| :: es[i].identity;
      var t := set i | 0 <= i < |init| :: init[i].identity;
      assert s == t + {es[|es| - 1].identity} by {
        forall x | x in s ensures x in t + {es[|es| - 1].identity} {
          var i :| 0 <= i < |es| && x == es[i].identity;
          if i < |init| { assert init[i] == es[i]; }
        }
        forall x | x in t ensures x in s {
          var i :| 0 <= i < |init| && x == init[i].identity;
          assert init[i] == es[i];
        }
      }
    }
  }

  /** For a duplicated identity, the key of its LAST record is the one kept. */
  lemma {:induction false} TableLastWins(es: seq<Entry>, i: nat)
    requires i < |es|
    requires forall j :: i < j < |es| ==> es[j].identity != es[i].identity
    ensures es[i].identity in Table(es)
    ensures Table(es)[es[i].identity] == es[i].key
  {
    var init := es[..|es| - 1];
    if i < |es| - 1 {
      assert init[i] == es[i];
      TableLastWins(init, i);
    }
  }

  /** A table of valid records, at least one, is a credential set. */
  lemma {:induction false} TableIsCredentialSet(es: seq<Entry>)
    requires forall i :: 0 <= i < |es| ==> ValidEntry(es[i])
    requires es != []
    ensures CredentialSet(Table(es))
  {
    var init := es[..|es| - 1];
    if init != [] {
      TableIsCredentialSet(init);
    }
    assert es[|es| - 1].identity in Table(es);
  }

  /** Loads the records of `lines`. The first bad line fails the whole load
      (no partial map); zero lines fail with NoPsks; otherwise the result is
      the table of all records, a non-empty credential set. */
  method Load(lines: seq<Bytes>) returns (r: Result<map<Bytes, Bytes>, LoadError>)
    ensures r.Ok? <==> lines != [] && AllParse(lines)
    ensures r == Err(NoPsks) <==> lines == []
    ensures r.Err? && r.error.BadLine? ==>
      && r.error.index < |lines|
      && AllParse(lines[..r.error.index])
      && ParseLine(lines[r.error.index]) == Err(r.error.reason)
    ensures r.Ok? ==> r.value == Table(Parsed(lines)) && CredentialSet(r.value)
  {
    var psks: map<Bytes, Bytes> := map[];
    ghost var es: seq<Entry> := [];
    for idx := 0 to |lines|
      invariant AllParse(lines[..idx])
      invariant es == Parsed(lines[..idx])
      invariant psks == Table(es)
    {
      var parsed := ParseLine(lines[idx]);
      assert lines[..idx + 1][..idx] == lines[..idx];
      if parsed.Err? {
        NotAllParse(lines, idx);
        return Err(BadLine(idx, parsed.error));
      }
      var entry := parsed.value;
      es := es + [entry];
      psks := psks[entry.identity := entry.key];
    }
    assert lines[..|lines|] == lines;
    TableEmpty(es);
    if psks == map[] {
      return Err(NoPsks);
    } else {
      forall i | 0 <= i < |es| ensures ValidEntry(es[i]) {
        ParsedAt(lines, i);
      }
      TableIsCredentialSet(es);
      return Ok(psks);
    }
  }

  lemma NotAllParse(lines: seq<Bytes>, i: nat)
    requires i < |lines| && ParseLine(lines[i]).Err?
    ensures !AllParse(lines)
  {
    AllParseMeans(lines);
  }

  /** The loader's own test: the single line `helloworld:deadbeef` is the
      record helloworld with key de ad be ef, so `Load` returns that
      one-entry map. */
  lemma HelloWorld()
    ensures var line := HELLO_WORLD + [COLON] + DEAD_BEEF;
      && ParseLine(line) == Ok(Entry(HELLO_WORLD, [0xde, 0xad, 0xbe, 0xef]))
      && AllParse([line]) && Table(Parsed([line])) == map[HELLO_WORLD := [0xde, 0xad, 0xbe, 0xef]]
  {
    var e := Entry(HELLO_WORLD, [0xde, 0xad, 0xbe, 0xef]);
    HelloWorldIsValid();
    EncodeDeadBeef();
    ParseFormatLine(e);
    SingleLine(FormatLine(e));
  }

  /** A file of one accepted line loads to the one-entry map of its record. */
  lemma SingleLine(line: Bytes)
    requires ParseLine(line).Ok?
    ensures AllParse([line])
    ensures Table(Parsed([line])) == map[ParseLine(line).value.identity := ParseLine(line).value.key]
  {
    var none: seq<Bytes> := [];
    assert [line][..0] == none;
  }

  lemma HelloWorldIsValid()
    ensures ValidEntry(Entry(HELLO_WORLD, [0xde, 0xad, 0xbe, 0xef]))
  {
    AsciiEntryIsValid(HELLO_WORLD, [0xde, 0xad, 0xbe, 0xef]);
  }

  /** An ASCII identity without `:` of 1 to 23 bytes and a non-empty key
      form a valid record. */
  lemma AsciiEntryIsValid(id: Bytes, key: Bytes)
    requires 1 <= |id| <= MAX_IDENTITY_LEN && key != []
    requires forall i :: 0 <= i < |id| ==> id[i] < 0x80 && id[i] != COLON
    ensures ValidEntry(Entry(id, key))
  {
    Utf8.AsciiIsValid(id);
  }

  lemma EncodeDeadBeef()
    ensures Hex.Encode([0xde, 0xad, 0xbe, 0xef]) == DEAD_BEEF
  {
    assert Hex.Encode([0xef]) == [0x65, 0x66];
    assert Hex.Encode([0xbe, 0xef]) == [0x62, 0x65, 0x65, 0x66];
    assert Hex.Encode([0xad, 0xbe, 0xef]) == [0x61, 0x64, 0x62, 0x65, 0x65, 0x66];
  }

  /** "helloworld" and "deadbeef" as bytes. */
  const HELLO_WORLD: Bytes := [0x68, 0x65, 0x6C, 0x6C, 0x6F, 0x77, 0x6F, 0x72, 0x6C, 0x64]
  const DEAD_BEEF: Bytes := [0x64, 0x65, 0x61, 0x64, 0x62, 0x65, 0x65, 0x66]

  /** A line with no identity, and the line `alice:xyz` whose key is not
      hexadecimal, are rejected, so a file holding only such a line fails
      to load. */
  lemma BadLines()
    ensures ParseLine([]) == Err(BadIdentity)
    ensures ParseLine([0x61, 0x6C, 0x69, 0x63, 0x65, COLON, 0x78, 0x79, 0x7A]) == Err(NotHex)
  {
    var id: Bytes := [0x61, 0x6C, 0x69, 0x63, 0x65];
    var keyText: Bytes := [0x78, 0x79, 0x7A];
    var line := id + ([COLON] + keyText);
    Utf8.AsciiIsValid(line);
    FieldOfSeparated(id, [COLON] + keyText);
    assert line[|id| + 1..] == keyText + [];
    FieldOfSeparated(keyText, []);
    assert Hex.Decode(keyText) == None;
    assert line == [0x61, 0x6C, 0x69, 0x63, 0x65, COLON, 0x78, 0x79, 0x7A];
  }
}
