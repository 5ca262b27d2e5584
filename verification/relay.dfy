/** The relay's connection logic around the codec: the TLS-PSK client
    callback (credential choice and bounded copy into the caller's
    buffers), the choice of MQTT client id, the CONNACK acceptance check and
    the per-sample retry loop. The TLS library, sockets, clocks and the
    power-supply driver are outside the model: the server's hint, the
    negotiated identity, the CONNACK bytes and the sensor's answers are
    parameters. */
module Relay {
  import opened Base
  import Utf8
  import Mqtt
  import Psk

  // ------------------------------------------------------ PSK client callback

  /** The (identity, key) pair the callback presents. A hint that is valid
      UTF-8 and names a known identity selects that identity; anything else
      falls back to `anyPskId`, the first entry in the map's iteration
      order. */
  function SelectCredential(psks: map<Bytes, Bytes>, anyPskId: Bytes, hint: Option<Bytes>): (c: (Bytes, Bytes))
    requires anyPskId in psks
    ensures c.0 in psks && c.1 == psks[c.0]
    ensures c.0 == anyPskId || hint == Some(c.0)
    ensures hint.Some? && Utf8.Valid(hint.value) && hint.value in psks ==> c.0 == hint.value
    ensures !(hint.Some? && Utf8.Valid(hint.value) && hint.value in psks) ==> c.0 == anyPskId
  {
    match hint
    case Some(h) => if Utf8.Valid(h) && h in psks then (h, psks[h]) else (anyPskId, psks[anyPskId])
    case None => (anyPskId, psks[anyPskId])
  }

  /** For a table the loader produced every identity is valid UTF-8, so the
      UTF-8 test on the hint never changes the choice: a hint is used
      exactly when it is a known identity. */
  lemma HintUsedIffKnown(psks: map<Bytes, Bytes>, anyPskId: Bytes, hint: Option<Bytes>)
    requires Psk.CredentialSet(psks) && anyPskId in psks
    ensures SelectCredential(psks, anyPskId, hint).0
            == if hint.Some? && hint.value in psks then hint.value else anyPskId
  {
    if hint.Some? && hint.value in psks {
      assert Psk.ValidEntry(Psk.Entry(hint.value, psks[hint.value]));
    }
  }

  /** Why the callback refused: the identity plus its NUL terminator, or
      the key, does not fit the buffer the TLS library supplied. */
  datatype CallbackError = IdentityTooLong | KeyTooLong

  /** `copy_from_slice` into the front of `dst`. */
  method CopyPrefix(dst: array<Byte>, src: Bytes)
    requires |src| <= dst.Length
    modifies dst
    ensures dst[..|src|] == src
    ensures dst[|src|..] == old(dst[|src|..])
  {
    for i := 0 to |src|
      invariant dst[..i] == src[..i]
      invariant dst[i..] == old(dst[i..])
    {
      dst[i] := src[i];
      assert dst[..i + 1] == dst[..i] + [src[i]];
    }
  }

  /** The PSK client callback. Both size checks run before anything is
      written, so a refusal leaves both buffers untouched; on success the
      identity is written NUL-terminated, the key is written, nothing else
      changes and the key length is returned. */
  method PskClientCallback(psks: map<Bytes, Bytes>, anyPskId: Bytes, hint: Option<Bytes>,
                           identityDst: array<Byte>, pskDst: array<Byte>)
    returns (r: Result<nat, CallbackError>)
    requires anyPskId in psks
    requires identityDst != pskDst
    modifies identityDst, pskDst
    ensures var (identity, key) := SelectCredential(psks, anyPskId, hint);
      && (r == Err(IdentityTooLong) <==> |identity| + 1 > identityDst.Length)
      && (r == Err(KeyTooLong) <==> |identity| + 1 <= identityDst.Length && |key| > pskDst.Length)
    ensures r.Err? ==> unchanged(identityDst) && unchanged(pskDst)
    ensures var (identity, key) := SelectCredential(psks, anyPskId, hint);
      r.Ok? ==>
        && r.value == |key|
        && identityDst[..|identity|] == identity
        && identityDst[|identity|] == 0
        && identityDst[|identity| + 1..] == old(identityDst[|identity| + 1..])
        && pskDst[..|key|] == key
        && pskDst[|key|..] == old(pskDst[|key|..])
  {
    var (identity, key) := SelectCredential(psks, anyPskId, hint);
    if |identity| + 1 > identityDst.Length {
      return Err(IdentityTooLong);
    }
    if |key| > pskDst.Length {
      return Err(KeyTooLong);
    }
    CopyPrefix(identityDst, identity);
    ghost var copied := identityDst[..];
    identityDst[|identity|] := 0;
    assert identityDst[..|identity|] == copied[..|identity|];
    CopyPrefix(pskDst, key);
    r := Ok(|key|);
  }

  // ------------------------------------------------------------- client id

  /** The CONNECT client id: the identity the TLS session negotiated when it
      is present and valid UTF-8, otherwise `anyPskId`. */
  function ClientId(negotiated: Option<Bytes>, anyPskId: Bytes): (id: Bytes)
    ensures id == anyPskId || negotiated == Some(id)
    ensures negotiated.Some? && Utf8.Valid(negotiated.value) ==> id == negotiated.value
    ensures !(negotiated.Some? && Utf8.Valid(negotiated.value)) ==> id == anyPskId
  {
    match negotiated
    case Some(b) => if Utf8.Valid(b) then b else anyPskId
    case None => anyPskId
  }

  /** The identity as the TLS library reads it back from the callback's
      NUL-terminated buffer: the bytes before the first 0x00, or all of `s`
      when it has none. */
  function UpToNul(s: Bytes): (p: Bytes)
    ensures |p| <= |s| && p == s[..|p|]
    ensures 0 !in p
    ensures |p| < |s| ==> s[|p|] == 0
  {
    if s == [] || s[0] == 0 then [] else [s[0]] + UpToNul(s[1..])
  }

  /** With a loaded credential set, the client id is the identity the
      session reports (the presented identity up to its first NUL byte) or,
      if it reports none, `anyPskId`. It is always short enough for
      `Mqtt.Connect`, which therefore never aborts, and it is a known
      identity unless the presented identity contains a NUL byte (which the
      loader admits): then only its prefix before that byte is reported. */
  lemma ClientIdFitsConnect(psks: map<Bytes, Bytes>, anyPskId: Bytes, hint: Option<Bytes>, reported: bool)
    requires Psk.CredentialSet(psks) && anyPskId in psks
    ensures var presented := SelectCredential(psks, anyPskId, hint).0;
      var id := ClientId(if reported then Some(UpToNul(presented)) else None, anyPskId);
      && id == (if reported then UpToNul(presented) else anyPskId)
      && (!reported || 0 !in presented ==> id == (if reported then presented else anyPskId) && id in psks)
      && 13 + |id| <= 255
  {
    var presented := SelectCredential(psks, anyPskId, hint).0;
    assert Psk.ValidEntry(Psk.Entry(presented, psks[presented]));
    assert Psk.ValidEntry(Psk.Entry(anyPskId, psks[anyPskId]));
    var p := UpToNul(presented);
    if |p| < |presented| {
      Utf8.PrefixBeforeAsciiIsValid(presented, |p|);
      assert presented[..|p|] == p;
    } else {
      assert p == presented;
    }
  }

  /** The loader admits the identity `a\0b`; the session reports it only up
      to the NUL byte, so with the credential set {`a\0b` ↦ de} the client
      id is `a`, which is not a known identity. */
  lemma NulIdentityIsTruncated()
    ensures var id: Bytes := [0x61, 0x00, 0x62];
      var psks := map[id := [0xDE]];
      && Psk.CredentialSet(psks)
      && ClientId(Some(UpToNul(id)), id) == [0x61]
      && [0x61] !in psks
  {
    var id: Bytes := [0x61, 0x00, 0x62];
    Utf8.AsciiIsValid(id);
    assert Psk.ValidEntry(Psk.Entry(id, [0xDE]));
    var psks := map[id := [0xDE]];
    assert id in psks;
    assert id[1..] == [0x00, 0x62];
    assert UpToNul(id) == [0x61];
    Utf8.AsciiIsValid([0x61]);
    assert [0x61] != id;
  }

  // ---------------------------------------------------------------- CONNACK

  /** Minimum CONNACK remaining length the relay accepts. */
  const MIN_CONNACK_LEN: Byte := 4

  /** Why the broker's answer was refused. `ReadFailed(i)` means byte `i`
      never arrived (the stream failed or the read timed out). */
  datatype ConnackError =
    | ReadFailed(index: nat)
    | NotConnack(byte0: Byte)
    | TooShort(byte1: Byte)
    | Refused(code: Result<Mqtt.ReasonCode, Byte>)

  /** Reads the CONNACK one byte at a time from `input` (the bytes that
      arrive before a read fails or times out) and accepts the connection
      only if the packet type is CONNACK, the remaining length is at least 4
      and the reason code is Success; byte 2 is read and ignored. */
  function CheckConnack(input: Bytes): (r: Result<(), ConnackError>)
    ensures r.Ok? <==>
      |input| >= 4 && input[0] / 16 == Mqtt.CONNACK && input[1] >= MIN_CONNACK_LEN && input[3] == 0x00
    ensures r.Err? && r.error.ReadFailed? ==> r.error.index == |input| < 4
    ensures r.Err? && r.error.Refused? ==> |input| >= 4 && r.error.code == Mqtt.TryFrom(input[3])
  {
    if |input| < 1 then Err(ReadFailed(0))
    else if input[0] / 16 != Mqtt.CONNACK then Err(NotConnack(input[0]))
    else if |input| < 2 then Err(ReadFailed(1))
    else if input[1] < MIN_CONNACK_LEN then Err(TooShort(input[1]))
    else if |input| < 3 then Err(ReadFailed(2))
    else if |input| < 4 then Err(ReadFailed(3))
    else
      match Mqtt.TryFrom(input[3])
      case Ok(Success) => Ok(())
      case code => Err(Refused(code))
  }

  /** The checks run in order and the first failing one decides: a wrong
      packet type is reported even if the stream then stalls, and so is a
      short remaining length. */
  lemma ConnackCheckOrder(input: Bytes)
    ensures |input| >= 1 && input[0] / 16 != Mqtt.CONNACK ==> CheckConnack(input) == Err(NotConnack(input[0]))
    ensures |input| >= 2 && input[0] / 16 == Mqtt.CONNACK && input[1] < MIN_CONNACK_LEN
            ==> CheckConnack(input) == Err(TooShort(input[1]))
  {
  }

  /** Only bytes 0, 1 and 3 matter: byte 2 and anything after byte 3 are
      ignored. */
  lemma ConnackIgnoresByte2(a: Bytes, b: Bytes)
    requires |a| >= 4 && |b| >= 4 && a[0] == b[0] && a[1] == b[1] && a[3] == b[3]
    ensures CheckConnack(a) == CheckConnack(b)
  {
  }

  /** Sample answers: a Success CONNACK is accepted, a Not-authorized one is
      refused with that code, and a stream that stops after three bytes
      fails on reading the fourth. */
  lemma ConnackExamples()
    ensures CheckConnack([0x20, 0x04, 0x00, 0x00]) == Ok(())
    ensures CheckConnack([0x20, 0x04, 0x00, 0x87]) == Err(Refused(Ok(Mqtt.NotAuthorized)))
    ensures CheckConnack([0x30, 0x04, 0x00, 0x00]) == Err(NotConnack(0x30))
    ensures CheckConnack([0x20, 0x04, 0x00]) == Err(ReadFailed(3))
  {
  }

  // ------------------------------------------------------ sample retry loop

  /** The loop gives up when a failed read is attempt number
      MAX_ATTEMPTS + 1. */
  const MAX_ATTEMPTS: nat := 5

  /** The calls the loop makes on the power supply: the reading itself and
      the three recovery probes whose results are ignored. */
  datatype SensorCall = InputPower | PcUptime | Uptime | Name

  /** The calls made by `n` reads: a read, and before every read after the
      first the three probes that follow the failure before it. */
  function RetryCalls(n: nat): (calls: seq<SensorCall>)
    requires n >= 1
  {
    if n == 1 then [InputPower] else RetryCalls(n - 1) + [PcUptime, Uptime, Name, InputPower]
  }

  /** `n` reads make `n` calls to `input_power`, `n - 1` rounds of recovery
      probes, and end with a read: no probe follows the last read. */
  lemma {:induction false} RetryCallsShape(n: nat)
    requires n >= 1
    ensures |RetryCalls(n)| == 4 * n - 3
    ensures RetryCalls(n)[|RetryCalls(n)| - 1] == InputPower
    ensures multiset(RetryCalls(n))[InputPower] == n
    ensures multiset(RetryCalls(n))[PcUptime] == n - 1
    ensures multiset(RetryCalls(n))[Uptime] == n - 1
    ensures multiset(RetryCalls(n))[Name] == n - 1
  {
    if n > 1 {
      RetryCallsShape(n - 1);
    }
  }

  /** Samples the power supply, retrying a failed read after the recovery
      probes. `inputPower(k)` is the answer of the k-th read. The result is
      the first successful read; the loop makes at most MAX_ATTEMPTS + 1
      reads and fails, with the last read's error, only when all of them
      fail. */
  method SampleRetryLoop<P, E>(inputPower: nat -> Result<P, E>)
    returns (r: Result<P, E>, attempts: nat, calls: seq<SensorCall>)
    ensures 1 <= attempts <= MAX_ATTEMPTS + 1
    ensures r == inputPower(attempts)
    ensures forall k :: 1 <= k < attempts ==> inputPower(k).Err?
    ensures r.Err? <==> forall k :: 1 <= k <= MAX_ATTEMPTS + 1 ==> inputPower(k).Err?
    ensures r.Err? ==> attempts == MAX_ATTEMPTS + 1
    ensures calls == RetryCalls(attempts)
  {
    attempts := 0;
    calls := [];
    while true
      invariant attempts <= MAX_ATTEMPTS
      invariant forall k :: 1 <= k <= attempts ==> inputPower(k).Err?
      invariant attempts == 0 ==> calls == []
      invariant attempts > 0 ==> calls == RetryCalls(attempts) + [PcUptime, Uptime, Name]
      decreases MAX_ATTEMPTS - attempts
    {
      attempts := attempts + 1;
      r := inputPower(attempts);
      calls := calls + [InputPower];
      if r.Ok? {
        return;
      }
      if attempts > MAX_ATTEMPTS {
        return;
      }
      calls := calls + [PcUptime, Uptime, Name];
    }
  }

  /** A sensor that fails four times and then answers is read five times
      and its answer is returned; one that keeps failing is given up on
      after six reads. */
  method SampleRetryScenarios()
  {
    var failsFourTimes := (k: nat) => if k < 5 then Err(0) else Ok(100);
    var r, n, calls := SampleRetryLoop(failsFourTimes);
    assert failsFourTimes(5) == Ok(100);
    assert r == Ok(100) && n == 5;
    var failsSixTimes := (k: nat) => if k < 7 then Err(k) else Ok(100);
    r, n, calls := SampleRetryLoop(failsSixTimes);
    assert forall k :: 1 <= k <= MAX_ATTEMPTS + 1 ==> failsSixTimes(k).Err?;
    assert r == Err(6) && n == 6;
  }
}
