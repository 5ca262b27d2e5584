# corsairmi-mqtt relay core, modelled in Dafny

The relay reads the input power of a Corsair power supply once a second and
publishes a 15-sample mean to an MQTT 5.0 broker over TLS 1.2 with
pre-shared keys (PSK). This project models its sequential core:

- **MQTT codec** (`src/mqtt.rs`, module `Mqtt`, file `mqtt.dfy`): the
  byte-exact CONNECT encoder, the CONNACK reason-code conversion
  (`ConnectReasonCode::try_from`) and the buffer construction of the QoS-0
  PUBLISH packet. Each encoder is a method that appends to a byte sequence
  step by step. Its contract fixes every byte of the output. A parser partner
  recovers the client id, or the topic and payload, from the packet.
- **Connection logic** (`src/main.rs`, module `Relay`, file `relay.dfy`):
  - the PSK client callback: choosing a credential from the hint, then a
    bounds-checked copy into the two caller-owned buffers (arrays with
    `modifies`);
  - the choice of MQTT client id;
  - the four-byte CONNACK acceptance check;
  - the per-sample retry loop, run against a sensor oracle.
- **PSK file loader** (`src/psk.rs`, module `Psk`, file `psk.dfy`): the
  per-line parse, validate and insert loop of `psk::load`, over a sequence of
  lines, with its final non-empty check.
- Supporting modules: `Base` (bytes, `Option`, `Result`), `Utf8` (the UTF-8
  well-formedness that `str::from_utf8`, `String::from_utf8` and
  `BufRead::lines` enforce, per Table 3-7 of the Unicode Standard) and `Hex`
  (the `hex` crate's `decode`, with a lower-case `Encode` as its inverse).

Modelling conventions:
- Rust strings are modelled by their UTF-8 bytes (`Bytes = seq<Byte>`),
  because every length the Rust code checks is a byte length.
- A panic the caller can avoid from the input alone becomes a `requires`.
  This covers `connect`'s `expect`/`unwrap` (ids longer than 242 bytes) and
  `publish`'s `assert!` (remaining length at least 255).
- `psk::load` calls `unwrap()` on a missing second field. Whether that panic
  is reached depends on the lines before it, so it is the error outcome
  `NoSeparator`, reported for the first bad line.
- `HashMap` iteration order is a parameter: `anyPskId` is the first key, and
  it must be in the map.

Behaviour of the code worth knowing, which the model keeps as written:
- `publish` aborts through `assert!` when its remaining length would be 255
  or more; it has no error return for an oversized packet.
- `connect` puts no lower bound on the client id. It aborts only when the
  id is longer than 242 bytes.
- A CONNACK stream that ends after three bytes fails while reading byte 3.
  The length check looks only at byte 1.
- A reason code that is not one of the 22 known ones is `Err(byte)` from
  `try_from`, and the connection is refused.
- The retry loop makes up to six reads (`attempt > 5` ends it).
- No bound on the key length is enforced: the intended 256-byte check at
  `src/psk.rs:30` compares the identity's length. `ParseFormatLine` proves
  that a valid entry round-trips with a key of any length.
- The code has no reconnect or backoff: `main` connects once and exits on
  error.

## Model

| member | source | states |
|---|---|---|
| `Mqtt.Connect` | src/mqtt.rs:7-36 | defined only when 13 + id length ≤ 255; output is 15 + id length bytes; byte 0 is 0x10; byte 1 is total − 2; bytes 2..13 are `00 04 'M' 'Q' 'T' 'T' 05 02 00 3C 00`; bytes 13-14 are the big-endian id length; the rest is the id; `ConnectClientId` recovers the id |
| `Mqtt.ConnectClientIdDeterminesPacket` | src/mqtt.rs:12-31 | the layout leaves no free byte: two CONNECT packets with the same client id are identical |
| `Mqtt.TryFrom` | src/mqtt.rs:89-155 | succeeds exactly on the 22 listed discriminants, returning the variant whose discriminant is the byte; any other byte is returned unchanged as the error |
| `Mqtt.TryFromCode` | src/mqtt.rs:62-87 | every variant's discriminant is listed and converts back to that same variant |
| `Mqtt.TryFromUnlisted` | src/mqtt.rs:152 | `try_from(b) == Err(b)` exactly when no variant has discriminant b |
| `Mqtt.CodeInjective` | src/mqtt.rs:64-86 | distinct variants have distinct discriminants |
| `Mqtt.Publish` | src/mqtt.rs:158-169 | requires packet_len = topic + payload + 5 < 255; the buffer has 2 + packet_len bytes: 0x30, packet_len, big-endian topic length, topic, `02 01 01`, payload; `ParsePublish` recovers topic and payload exactly |
| `Mqtt.ParsePublish` | src/mqtt.rs:159-160 | anything the parser accepts has topic + payload + 5 < 255, the limit the encoder asserts |
| `Mqtt.ParsePublishExact` | src/mqtt.rs:162-169 | every buffer the parser accepts is exactly the PUBLISH encoding of what it returns |
| `Hex.Decode` | src/psk.rs:27 | a decoded key has half as many bytes as its hex text, which has even length |
| `Hex.DecodeMeaning` | src/psk.rs:27 | decoding succeeds iff the text has even length and only `[0-9a-fA-F]` digits; byte i is the digit pair at 2i, high nibble first |
| `Hex.DecodeEncode` | src/psk.rs:27 | decoding inverts lower-case encoding |
| `Utf8.LeadWidth` | src/main.rs:50 | the UTF-8 check behind `str::from_utf8`, `String::from_utf8` and `lines()`: a character is at most 4 bytes, an ASCII byte is a one-byte character, and a multi-byte character never starts below 0xC2 (no overlong two-byte form) |
| `Utf8.LeadWidthContinuation` | src/main.rs:103 | every byte of a character after its first is a continuation byte (0x80 to 0xBF) |
| `Utf8.WellFormedExamples` | src/psk.rs:16 | two-, three- and four-byte characters are accepted; a stray continuation byte, 0xFF, overlong forms, an encoded surrogate, a value above U+10FFFF and a truncated character are rejected |
| `Utf8.PrefixBeforeAsciiIsValid` | src/psk.rs:17-19 | the text of a valid UTF-8 line before a `:` is valid UTF-8, so every loaded identity is a valid Rust string |
| `Psk.Field` | src/psk.rs:17-21 | the first `split(':')` item is the longest colon-free prefix; a `:` follows it unless it is the whole line |
| `Psk.ParseLine` | src/psk.rs:16-32 | an accepted line yields an identity of 1 to 23 bytes of valid UTF-8 without `:`, and a non-empty key |
| `Psk.ParseLineAccepts` | src/psk.rs:16-32 | a line is accepted iff it is UTF-8 text, its identity has 1 to 23 bytes, a `:` follows, and the segment up to the next `:` hex-decodes to at least one byte; later segments are ignored |
| `Psk.ParseFormatLine` | src/psk.rs:17-32 | every valid entry written as `identity:hexkey` parses back to itself, whatever the key length (no key-length bound is enforced) |
| `Psk.BadLines` | src/psk.rs:23-28 | an empty line fails the identity check; `alice:xyz` fails hex decoding |
| `Psk.TableKeys` | src/psk.rs:34 | the map's domain is exactly the set of the lines' identities |
| `Psk.TableLastWins` | src/psk.rs:34 | for a duplicated identity, the key of its last line is kept |
| `Psk.TableIsCredentialSet` | src/psk.rs:23-34 | a table of accepted lines, at least one, is non-empty, and each entry has a valid identity and a non-empty key |
| `Psk.ParsedAt` | src/psk.rs:15-34 | record i of the loaded sequence is what line i parses to |
| `Psk.Load` | src/psk.rs:14-44 | succeeds iff there is at least one line and every line parses; otherwise it reports the first bad line and its reason, or NoPsks exactly when there are no lines; no partial map; on success the result is the insert-in-order table, a non-empty credential set |
| `Psk.HelloWorld` | src/psk.rs:57-69 | the line `helloworld:deadbeef` loads to {helloworld ↦ de ad be ef} |
| `Relay.SelectCredential` | src/main.rs:49-57 | the chosen pair is an entry of the map; the identity is the hint when the hint is valid UTF-8 and known, and the first entry in every other case |
| `Relay.HintUsedIffKnown` | src/main.rs:49-57 | for a loaded credential set the UTF-8 test never matters: the hint is used iff it is a known identity |
| `Relay.CopyPrefix` | src/main.rs:79-82 | `copy_from_slice` writes the source into the front of the buffer and leaves the rest unchanged |
| `Relay.PskClientCallback` | src/main.rs:48-85 | fails with IdentityTooLong iff identity + NUL exceeds the identity buffer, else KeyTooLong iff the key exceeds the key buffer; on failure neither buffer changes; on success the identity is written NUL-terminated, the key is written, all other bytes are unchanged, and the key length is returned |
| `Relay.ClientId` | src/main.rs:100-104 | the client id is the negotiated identity when it is present and valid UTF-8; an absent identity, or one that is not valid UTF-8, gives the first PSK identity |
| `Relay.UpToNul` | src/main.rs:79-80 | the identity read back from the NUL-terminated buffer is the longest NUL-free prefix of what was written, followed by the NUL byte unless it is the whole identity |
| `Relay.ClientIdFitsConnect` | src/main.rs:100-105 | with a loaded credential set, the client id is the reported identity (the presented one up to its first NUL byte) or, if none is reported, the first entry; it always satisfies `Connect`'s length precondition, so `connect` never aborts; it is the presented identity and a known one whenever that identity has no NUL byte |
| `Relay.NulIdentityIsTruncated` | src/main.rs:79-80 | an identity `a\0b`, which the loader admits, is reported as `a`, so the client id is then not a known identity |
| `Relay.CheckConnack` | src/main.rs:131-152 | accepted iff at least 4 bytes arrive, byte 0's high nibble is 2, byte 1 ≥ 4 and byte 3 is Success (0x00); a read failure names the missing byte; a refusal carries `try_from` of byte 3 |
| `Relay.ConnackCheckOrder` | src/main.rs:131-142 | the checks run in order: a wrong packet type is reported before anything else is read, and a short length before byte 2 is read |
| `Relay.ConnackIgnoresByte2` | src/main.rs:144-145 | only bytes 0, 1 and 3 decide the outcome; byte 2 is read and ignored |
| `Relay.ConnackExamples` | src/main.rs:131-152 | `20 04 00 00` is accepted; `20 04 00 87` is refused as NotAuthorized; type 3 is not a CONNACK; three bytes fail reading byte 3 |
| `Relay.RetryCallsShape` | src/main.rs:164-181 | n reads make n `input_power` calls and n − 1 rounds of the three probes, and the last call is a read |
| `Relay.SampleRetryLoop` | src/main.rs:161-182 | makes 1 to 6 reads; returns the first successful read, with all earlier reads failed; fails iff all 6 reads fail, with the 6th read's error; probes follow each failed read except the 6th |

## Left out

- TLS context set-up, TLS 1.2 pinning and the handshake (`src/main.rs:37-46`, `87-98`) are a foreign library. The callback is modelled as a method over the map, the hint and two buffers. The server's hint is a parameter. The TLS library is taken to report the presented identity up to its first NUL byte (`Relay.UpToNul`), or none.
- The TCP connection with its 2-second timeout, the stream writes and the flushes (`src/main.rs:89-98`, `106-111`, `src/mqtt.rs:170-172`) are I/O. `Mqtt.Publish` builds the buffer only.
- `read_byte` and its 5-second clock loop (`src/main.rs:113-129`) depend on a clock and I/O. The CONNACK input is the byte sequence that arrives before a read fails, so it may be shorter than 4.
- `sample_loop` (`src/main.rs:184-206`) is left out: it does `f32` summation, takes a mean, formats with `{:.0}` and sleeps.
- `psu_connect` and the `corsairmi` calls (`src/main.rs:155-159`) are a hardware library. `Relay.SampleRetryLoop`'s answers come from an oracle indexed by attempt number, so the model does not capture any effect the probes have on later answers.
- `main` (`src/main.rs:208-248`) is left out: argument handling, journald logging, the Ctrl-C handler and JSON configuration loading.
- Opening the PSK file and splitting it into lines (`src/psk.rs:10-12`) are I/O. `Psk.Load` takes the lines. A line that is not valid UTF-8 (the `lines()` read error) is the `NotUtf8` rejection.
- All `log::` calls are left out, including the duplicate-identity warning.
- `usize` overflow (`saturating_add`, `saturating_sub`) cannot occur at these sizes. Integers are unbounded.
- Reconnect and backoff are absent from the code: `main` connects once and exits on error.
