/** The application-data channel: sequence numbers, key generations, KeyUpdate. */
module Channel {
  import opened Bytes
  import opened Consts
  import opened Aead
  import opened KeySchedule
  import R = Rfc8446

  datatype Suite = Suite(kdf: Kdf, cipher: Cipher)

  ghost predicate Good(su: Suite) {
    Sound(su.cipher) && Sized(su.kdf) && su.cipher.keyLen <= HASH_LEN
  }

  /** One direction of the channel: traffic secret, its record keys, next sequence number. */
  datatype Side = Side(secret: Bytes, keys: RecordKeys, seqNo: nat) {
    predicate Valid() {
      |keys.iv| == IV_LEN && seqNo < TWO64
    }

    /** The 64-bit counter wraps. */
    function Bump(): (s: Side) {
      this.(seqNo := (seqNo + 1) % TWO64)
    }
  }

  datatype ChannelError = Encrypt(enc: EncryptError) | Decrypt(dec: DecryptError) | Hkdf(hkdf: HkdfError)

  function KeyUpdateMessage(requested: bool): (m: Bytes) {
    [HS_KEY_UPDATE, 0, 0, 1, if requested then 1 else 0]
  }

  // ---- Value-level steps of one direction ----

  function Send(su: Suite, side: Side, content: Bytes, ct: Byte, room: nat): (r: Result<(Bytes, Side), ChannelError>)
    requires side.Valid()
    ensures r.Ok? ==> r.value.1.Valid()
  {
    match SealError(|content|, room)
    case Some(e) => Err(Encrypt(e))
    case None => Ok((SealRecord(su.cipher, side.keys, side.seqNo, content, ct), side.Bump()))
  }

  function Receive(su: Suite, side: Side, record: Bytes): (r: Result<((Bytes, Byte), Side), ChannelError>)
    requires side.Valid()
    ensures r.Ok? ==> r.value.1.Valid()
  {
    match OpenAndSplit(su.cipher, side.keys, side.seqNo, record)
    case Err(e) => Err(Decrypt(e))
    case Ok(p) => Ok((p, side.Bump()))
  }

  function Rotate(su: Suite, side: Side): (r: Result<Side, ChannelError>)
    ensures Good(su) && r.Ok? ==> r.value.Valid()
    ensures su.cipher.keyLen <= HASH_LEN && r.Err? ==> r.error.Hkdf? && (r.error.hkdf == Expand || r.error.hkdf == Backend)
  {
    match NextTrafficSecret(su.kdf, side.secret)
    case Err(e) => Err(Hkdf(e))
    case Ok(next) =>
      match TrafficKeys(su.kdf, su.cipher.keyLen, next)
      case Err(e) => Err(Hkdf(e))
      case Ok(keys) => Ok(Side(next, keys, 0))
  }

  /** A record sent on a direction is received on its mirror, and both advance together. */
  lemma ReceiveUndoesSend(su: Suite, side: Side, content: Bytes, ct: Byte, room: nat)
    requires Good(su) && side.Valid() && ct != 0
    requires Send(su, side, content, ct, room).Ok?
    ensures var (record, next) := Send(su, side, content, ct, room).value;
            && |record| == RecordLen(|content|)
            && Receive(su, side, record) == Ok(((content, ct), next))
  {
    OpenUndoesSeal(su.cipher, side.keys, side.seqNo, content, ct);
    RecordRoundTrip(su.cipher, side.keys, side.seqNo, content, ct);
  }

  /** A rotation is the KeyUpdate derivation of section 7.2 of RFC 8446, its keys, and the count from zero. */
  lemma RotateExactly(su: Suite, side: Side, next: Side)
    requires su.cipher.keyLen <= 32
    ensures Rotate(su, side) == Ok(next) <==>
            && R.NextSecret(su.kdf.expand, side.secret, next.secret)
            && R.TrafficKey(su.kdf.expand, next.secret, su.cipher.keyLen, next.keys.key, next.keys.iv)
            && next.seqNo == 0
  {
    hide NextTrafficSecret, TrafficKeys, R.NextSecret, R.TrafficKey;
    NextSecretExactly(su.kdf, side.secret, next.secret);
    TrafficKeysExactly(su.kdf, su.cipher.keyLen, next.secret, next.keys);
  }

  // ---- The connection object ----

  class Connection {
    const suite: Suite
    var sendSecret: Bytes
    var recvSecret: Bytes
    var sendKeys: RecordKeys
    var recvKeys: RecordKeys
    var seqOut: nat
    var seqIn: nat

    ghost function Outgoing(): Side
      reads this
    {
      Side(sendSecret, sendKeys, seqOut)
    }

    ghost function Incoming(): Side
      reads this
    {
      Side(recvSecret, recvKeys, seqIn)
    }

    ghost predicate Valid()
      reads this
    {
      Good(suite) && Outgoing().Valid() && Incoming().Valid()
    }

    constructor (su: Suite, outgoing: Side, incoming: Side)
      requires Good(su) && outgoing.Valid() && incoming.Valid()
      ensures suite == su && Outgoing() == outgoing && Incoming() == incoming && Valid()
    {
      suite := su;
      sendSecret, sendKeys, seqOut := outgoing.secret, outgoing.keys, outgoing.seqNo;
      recvSecret, recvKeys, seqIn := incoming.secret, incoming.keys, incoming.seqNo;
    }

    method EncryptRecord(content: Bytes, ct: Byte, out: array<Byte>) returns (r: Result<nat, ChannelError>)
      requires Valid()
      modifies this`seqOut, out
      ensures Valid()
      ensures match old(Send(suite, Outgoing(), content, ct, out.Length))
              case Err(e) => r == Err(e) && Outgoing() == old(Outgoing()) && out[..] == old(out[..])
              case Ok((record, next)) =>
                && r == Ok(|record|) && Outgoing() == next
                && |record| <= out.Length && out[..] == Splice(old(out[..]), 0, record)
    {
      var n := Aead.EncryptRecord(suite.cipher, sendKeys, content, ct, seqOut, out, 0);
      if n.Err? {
        return Err(Encrypt(n.error));
      }
      seqOut := (seqOut + 1) % TWO64;
      r := Ok(n.value);
    }

    method DecryptRecordInPlace(record: array<Byte>) returns (r: Result<(nat, Byte), ChannelError>)
      requires Valid()
      modifies this`seqIn, record
      ensures Valid()
      ensures match old(Receive(suite, Incoming(), record[..]))
              case Err(e) => r == Err(e) && Incoming() == old(Incoming())
              case Ok(((content, ct), next)) =>
                && r == Ok((|content|, ct)) && Incoming() == next
                && RECORD_HEADER + |content| <= record.Length
                && record[RECORD_HEADER..RECORD_HEADER + |content|] == content
    {
      hide OpenRecord, SplitInner, Sound, FramingError;
      ghost var before := record[..];
      var n := Aead.DecryptRecordInPlace(suite.cipher, recvKeys, record, seqIn);
      if n.Err? {
        return Err(Decrypt(n.error));
      }
      var inner := record[RECORD_HEADER..RECORD_HEADER + n.value];
      ghost var plain := OpenRecord(suite.cipher, recvKeys, seqIn, before).value;
      SpliceReads(before, RECORD_HEADER, plain);
      hide Splice;
      assert inner == plain;
      var split := SplitInnerPlaintext(inner);
      if split.Err? {
        return Err(Decrypt(split.error));
      }
      SplitInvertsPadding(inner, split.value.0, split.value.1);
      assert inner[..|split.value.0|] == split.value.0;
      seqIn := (seqIn + 1) % TWO64;
      r := Ok((|split.value.0|, split.value.1));
    }

    method EncryptKeyUpdate(requested: bool, out: array<Byte>) returns (r: Result<nat, ChannelError>)
      requires Valid()
      modifies this`seqOut, out
      ensures Valid()
      ensures match old(Send(suite, Outgoing(), KeyUpdateMessage(requested), CT_HANDSHAKE, out.Length))
              case Err(e) => r == Err(e) && Outgoing() == old(Outgoing()) && out[..] == old(out[..])
              case Ok((record, next)) =>
                && r == Ok(|record|) && Outgoing() == next
                && |record| <= out.Length && out[..] == Splice(old(out[..]), 0, record)
    {
      r := EncryptRecord([HS_KEY_UPDATE, 0, 0, 1, if requested then 1 else 0], CT_HANDSHAKE, out);
    }

    method ApplyRecvKeyUpdate() returns (r: Result<(), ChannelError>)
      requires Valid()
      modifies this`recvKeys, this`recvSecret, this`seqIn
      ensures Valid()
      ensures match old(Rotate(suite, Incoming()))
              case Err(e) => r == Err(e) && Incoming() == old(Incoming())
              case Ok(next) => r == Ok(()) && Incoming() == next
    {
      var next := NextTrafficSecret(suite.kdf, recvSecret);
      if next.Err? {
        return Err(Hkdf(next.error));
      }
      var keys := TrafficKeys(suite.kdf, suite.cipher.keyLen, next.value);
      if keys.Err? {
        return Err(Hkdf(keys.error));
      }
      recvKeys := keys.value;
      recvSecret := next.value;
      seqIn := 0;
      r := Ok(());
    }

    method ApplySendKeyUpdate() returns (r: Result<(), ChannelError>)
      requires Valid()
      modifies this`sendKeys, this`sendSecret, this`seqOut
      ensures Valid()
      ensures match old(Rotate(suite, Outgoing()))
              case Err(e) => r == Err(e) && Outgoing() == old(Outgoing())
              case Ok(next) => r == Ok(()) && Outgoing() == next
    {
      var next := NextTrafficSecret(suite.kdf, sendSecret);
      if next.Err? {
        return Err(Hkdf(next.error));
      }
      var keys := TrafficKeys(suite.kdf, suite.cipher.keyLen, next.value);
      if keys.Err? {
        return Err(Hkdf(keys.error));
      }
      sendKeys := keys.value;
      sendSecret := next.value;
      seqOut := 0;
      r := Ok(());
    }
  }

  // ---- Nonces over whole runs ----

  /** What a caller may do to the outgoing direction, in any order. */
  datatype Op = Seal(content: Bytes, ct: Byte, room: nat) | Update

  // The mirrored receiver reads every record in order and rotates exactly where the sender did.

  datatype Event = Record(record: Bytes) | Rekey

  /** What a run puts in front of the receiver; failed calls emit nothing and change nothing. */
  function Transmit(su: Suite, side: Side, ops: seq<Op>): (r: (seq<Event>, Side))
    requires Good(su) && side.Valid()
    ensures r.1.Valid()
    decreases |ops|
  {
    if ops == [] then ([], side)
    else
      match ops[0]
      case Seal(content, ct, room) =>
        (match Send(su, side, content, ct, room)
         case Err(_) => Transmit(su, side, ops[1..])
         case Ok((record, next)) =>
           var (events, end) := Transmit(su, next, ops[1..]);
           ([Record(record)] + events, end))
      case Update =>
        (match Rotate(su, side)
         case Err(_) => Transmit(su, side, ops[1..])
         case Ok(next) =>
           var (events, end) := Transmit(su, next, ops[1..]);
           ([Rekey] + events, end))
  }

  function Mirror(su: Suite, side: Side, events: seq<Event>): (r: Result<(seq<(Bytes, Byte)>, Side), ChannelError>)
    requires Good(su) && side.Valid()
    decreases |events|
  {
    if events == [] then Ok(([], side))
    else
      match events[0]
      case Record(record) =>
        var (pair, next) :- Receive(su, side, record);
        var (pairs, end) :- Mirror(su, next, events[1..]);
        Ok(([pair] + pairs, end))
      case Rekey =>
        var next :- Rotate(su, side);
        Mirror(su, next, events[1..])
  }

  /** The (content, type) pairs a run seals: those that fit their buffer. */
  function Sealed(ops: seq<Op>): (pairs: seq<(Bytes, Byte)>) {
    if ops == [] then []
    else if ops[0].Seal? && SealError(|ops[0].content|, ops[0].room).None?
    then [(ops[0].content, ops[0].ct)] + Sealed(ops[1..])
    else Sealed(ops[1..])
  }

  predicate AllTyped(pairs: seq<(Bytes, Byte)>) {
    forall i :: 0 <= i < |pairs| ==> pairs[i].1 != 0
  }

  /** Over every run, across any number of generations, the mirror recovers exactly the pairs that
      were sealed and ends on the sender's side, if and only if none of them has type zero. */
  lemma {:induction false} RunRoundTrip(su: Suite, side: Side, ops: seq<Op>)
    requires Good(su) && side.Valid()
    ensures var (events, end) := Transmit(su, side, ops);
            Mirror(su, side, events) == Ok((Sealed(ops), end)) <==> AllTyped(Sealed(ops))
    decreases |ops|
  {
    hide Good, SealRecord, OpenAndSplit;
    if ops != [] {
      var rest := ops[1..];
      match ops[0]
      case Seal(content, ct, room) =>
        if Send(su, side, content, ct, room).Ok? {
          var (record, next) := Send(su, side, content, ct, room).value;
          RunRoundTrip(su, next, rest);
          SealedStep(su, side, content, ct, record, next, Transmit(su, next, rest).0);
          assert Sealed(ops)[0] == (content, ct) && Sealed(ops)[1..] == Sealed(rest);
          assert forall i :: 0 <= i < |Sealed(rest)| ==> Sealed(ops)[i + 1] == Sealed(rest)[i];
        } else {
          RunRoundTrip(su, side, rest);
        }
      case Update =>
        if Rotate(su, side).Ok? {
          var next := Rotate(su, side).value;
          RunRoundTrip(su, next, rest);
          var events := Transmit(su, next, rest).0;
          assert ([Rekey] + events)[1..] == events;
        } else {
          RunRoundTrip(su, side, rest);
        }
    }
  }

  lemma SealedStep(su: Suite, side: Side, content: Bytes, ct: Byte, record: Bytes, next: Side, events: seq<Event>)
    requires Good(su) && side.Valid() && |content| <= TLS_PLAINTEXT_MAX && next == side.Bump()
    requires record == SealRecord(su.cipher, side.keys, side.seqNo, content, ct)
    ensures Receive(su, side, record) == Ok(((content, ct), next)) <==> ct != 0
    ensures next.Valid()
    ensures var whole, tail := Mirror(su, side, [Record(record)] + events), Mirror(su, next, events);
            && (whole.Ok? <==> Receive(su, side, record).Ok? && tail.Ok?)
            && (whole.Ok? ==> whole.value == ([Receive(su, side, record).value.0] + tail.value.0, tail.value.1))
    ensures Receive(su, side, record).Ok? ==> Receive(su, side, record).value.1 == next
  {
    RecordRoundTrip(su.cipher, side.keys, side.seqNo, content, ct);
    assert ([Record(record)] + events)[1..] == events;
  }

  /** A record put on the wire: its key generation, its place in that generation's count,
      and the side it was sealed under. */
  datatype Emission = Emission(generation: nat, index: nat, under: Side, record: Bytes)

  function Nonce(e: Emission): Bytes
    requires e.under.Valid()
  {
    RecordNonce(e.under.keys.iv, e.under.seqNo)
  }

  function Wrap(n: nat): nat {
    n % TWO64
  }

  lemma WrapStep(n: nat)
    ensures (Wrap(n) + 1) % TWO64 == Wrap(n + 1)
  {
  }

  /** Counts less than 2^64 apart wrap apart; counts 2^64 apart wrap together. */
  lemma WrapCollides(m: nat, n: nat)
    requires m < n
    ensures n - m < TWO64 ==> Wrap(m) != Wrap(n)
    ensures n - m == TWO64 ==> Wrap(m) == Wrap(n)
  {
  }

  /** The records a run emits; failed calls emit nothing and change nothing. */
  ghost function Emissions(su: Suite, side: Side, generation: nat, index: nat, ops: seq<Op>): (es: seq<Emission>)
    requires Good(su) && side.Valid()
    ensures forall j :: 0 <= j < |es| ==> es[j].under.Valid()
    decreases |ops|
  {
    if ops == [] then []
    else
      match ops[0]
      case Seal(content, ct, room) =>
        (match Send(su, side, content, ct, room)
         case Err(_) => Emissions(su, side, generation, index, ops[1..])
         case Ok((record, next)) =>
           [Emission(generation, index, side, record)] + Emissions(su, next, generation, index + 1, ops[1..]))
      case Update =>
        (match Rotate(su, side)
         case Err(_) => Emissions(su, side, generation, index, ops[1..])
         case Ok(next) => Emissions(su, next, generation + 1, 0, ops[1..]))
  }

  /** Every counter is its index wrapped; emissions still in `generation` continue from
      `side` and `index`. */
  ghost predicate Continues(es: seq<Emission>, side: Side, generation: nat, index: nat) {
    forall j :: 0 <= j < |es| ==>
      && es[j].generation >= generation
      && es[j].under.seqNo == Wrap(es[j].index)
      && (es[j].generation == generation ==> es[j].under.keys == side.keys && es[j].index == index + j)
  }

  /** Generations never go back; inside one, the keys stay and indices are consecutive. */
  ghost predicate InStep(es: seq<Emission>) {
    forall i, j :: 0 <= i <= j < |es| ==>
      && es[i].generation <= es[j].generation
      && (es[i].generation == es[j].generation ==>
            es[i].under.keys == es[j].under.keys && es[j].index == es[i].index + (j - i))
  }

  lemma InStepCons(e: Emission, rest: seq<Emission>)
    requires e.under.seqNo == Wrap(e.index)
    requires InStep(rest) && Continues(rest, e.under, e.generation, e.index + 1)
    ensures InStep([e] + rest) && Continues([e] + rest, e.under, e.generation, e.index)
  {
    var es := [e] + rest;
    assert forall j :: 1 <= j < |es| ==> es[j] == rest[j - 1];
  }

  lemma {:induction false} EmissionsInStep(su: Suite, side: Side, generation: nat, index: nat, ops: seq<Op>)
    requires Good(su) && side.Valid() && side.seqNo == Wrap(index)
    ensures InStep(Emissions(su, side, generation, index, ops))
    ensures Continues(Emissions(su, side, generation, index, ops), side, generation, index)
    decreases |ops|
  {
    if ops != [] {
      var rest := ops[1..];
      match ops[0]
      case Seal(content, ct, room) =>
        var sent := Send(su, side, content, ct, room);
        if sent.Ok? {
          WrapStep(index);
          EmissionsInStep(su, sent.value.1, generation, index + 1, rest);
          InStepCons(Emission(generation, index, side, sent.value.0),
                     Emissions(su, sent.value.1, generation, index + 1, rest));
        } else {
          EmissionsInStep(su, side, generation, index, rest);
        }
      case Update =>
        var next := Rotate(su, side);
        if next.Ok? {
          EmissionsInStep(su, next.value, generation + 1, 0, rest);
        } else {
          EmissionsInStep(su, side, generation, index, rest);
        }
    }
  }

  ghost predicate NonceReused(es: seq<Emission>)
    requires forall j :: 0 <= j < |es| ==> es[j].under.Valid()
  {
    exists i, j :: 0 <= i < j < |es| && es[i].generation == es[j].generation && Nonce(es[i]) == Nonce(es[j])
  }

  /** Some generation carries more than 2^64 records. */
  ghost predicate GenerationExhausted(es: seq<Emission>) {
    exists i, j :: 0 <= i < j < |es| && j - i == TWO64 && es[i].generation == es[j].generation
  }

  lemma ReuseExhausts(es: seq<Emission>, i: nat, j: nat)
    requires forall k :: 0 <= k < |es| ==> es[k].under.Valid() && es[k].under.seqNo == Wrap(es[k].index)
    requires InStep(es) && i < j < |es|
    requires es[i].generation == es[j].generation && Nonce(es[i]) == Nonce(es[j])
    ensures GenerationExhausted(es)
  {
    assert es[i].under.keys == es[j].under.keys;
    NonceInjective(es[i].under.keys.iv, es[i].under.seqNo, es[j].under.seqNo);
    WrapCollides(es[i].index, es[j].index);
    var k := i + TWO64;
    assert es[i].generation <= es[k].generation <= es[j].generation;
  }

  lemma ExhaustionReuses(es: seq<Emission>, i: nat, j: nat)
    requires forall k :: 0 <= k < |es| ==> es[k].under.Valid() && es[k].under.seqNo == Wrap(es[k].index)
    requires InStep(es) && i < j < |es| && j - i == TWO64 && es[i].generation == es[j].generation
    ensures NonceReused(es)
  {
    WrapCollides(es[i].index, es[j].index);
    assert Nonce(es[i]) == Nonce(es[j]);
  }

  /** Over every run from any state, a (generation, nonce) pair repeats if and only if some
      generation carries more than 2^64 records. */
  lemma NonceReuseExactly(su: Suite, side: Side, ops: seq<Op>)
    requires Good(su) && side.Valid()
    ensures var es := Emissions(su, side, 0, side.seqNo, ops);
            NonceReused(es) <==> GenerationExhausted(es)
  {
    hide Emissions, InStep, Good, Nonce;
    var es := Emissions(su, side, 0, side.seqNo, ops);
    EmissionsInStep(su, side, 0, side.seqNo, ops);
    if NonceReused(es) {
      var i, j :| 0 <= i < j < |es| && es[i].generation == es[j].generation && Nonce(es[i]) == Nonce(es[j]);
      ReuseExhausts(es, i, j);
    }
    if GenerationExhausted(es) {
      var i, j :| 0 <= i < j < |es| && j - i == TWO64 && es[i].generation == es[j].generation;
      ExhaustionReuses(es, i, j);
    }
  }
}
