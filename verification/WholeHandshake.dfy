/** A whole handshake as the engine drives it, from the ClientHello to application data. */
module WholeHandshake {
  import opened Bytes
  import opened Consts
  import opened Wire
  import opened Aead
  import opened KeySchedule
  import opened Transcript
  import opened Features
  import opened FlightCheck
  import opened Handshake
  import CF = ClientFlight
  import CH = ClientHello
  import Ch = Channel
  import E = Engine
  import FR = FlightRecords
  import L = Lockstep
  import R = Reassembler
  import Rfc8446
  import SF = ServerFlight
  import SH = ServerHello

  datatype HandshakeError =
    | Connection(c: ConnectionError)
    | Feeding(f: FR.FeedError)
    | RecordTooLarge(limit: nat, got: nat)
    | InvalidRecordSizeLimit(got: nat)
    | StrategyRejected
    | StrategyPubkeyMismatch
    | HostnameMismatch
    | NeedMoreRecords

  /** The leaf's key and the verifier the trust strategy prepared. */
  datatype Leaf = Leaf(key: LeafKey, prepared: Prepared)

  /** The trust strategy, the leaf parser, the comparison of a prepared verifier with a leaf's key and the
      hostname rule. */
  datatype Identity = Identity(trust: seq<Bytes> -> Option<Prepared>, leafKey: Bytes -> Option<LeafKey>,
                               matches: (Prepared, LeafKey) -> bool, hostname: Bytes -> bool)

  datatype Config = Config(f: Features, b: Backend, w: CF.RsaWidth, policy: CF.Policy,
                           id: Identity, maxChain: nat,
                           recvLimit: nat, capacity: nat, scratch: nat, room: nat) {
    ghost predicate Valid() {
      f.Valid() && GoodBackend(b) && CF.PolicyTyped(w, policy)
    }
  }

  function Wrap<T>(r: Result<T, ConnectionError>): (out: Result<T, HandshakeError>) {
    match r case Ok(x) => Ok(x) case Err(e) => Err(Connection(e))
  }

  function WrapFlight<T>(r: Result<T, SF.FlightError>): (out: Result<T, HandshakeError>) {
    match r case Ok(x) => Ok(x) case Err(e) => Err(Connection(Flight(e)))
  }

  // ---- Collecting the server flight ----

  function FeedStep(limit: nat, cipher: Cipher, keys: RecordKeys, capacity: nat, f: FR.Feed, record: Bytes)
    : (r: Result<FR.Feed, HandshakeError>)
    requires |keys.iv| == 12
  {
    if |record| >= RECORD_HEADER && record[0] == CT_APPLICATION_DATA && |record| - RECORD_HEADER > limit + AEAD_TAG_LEN
    then Err(HandshakeError.RecordTooLarge(limit, (|record| - RECORD_HEADER) % 0x1_0000))
    else
      match FR.FeedRecord(cipher, keys, capacity, f, record)
      case Err(e) => Err(Feeding(e))
      case Ok(next) => Ok(next)
  }

  /** Records are fed until the flight is complete; the rest belongs to the data phase. */
  function Collect(limit: nat, cipher: Cipher, keys: RecordKeys, capacity: nat, f: FR.Feed, wire: seq<Bytes>)
    : (r: Result<(FR.Feed, seq<Bytes>), HandshakeError>)
    requires |keys.iv| == 12
    decreases |wire|
  {
    if wire == [] then Err(NeedMoreRecords)
    else
      var next :- FeedStep(limit, cipher, keys, capacity, f, wire[0]);
      if R.FlightMsgs(next.buf).Some? then Ok((next, wire[1..]))
      else Collect(limit, cipher, keys, capacity, next, wire[1..])
  }

  /** A protected record over the receive limit is refused unread; everything else is the feeding step's. */
  lemma OverLimit(limit: nat, cipher: Cipher, keys: RecordKeys, capacity: nat, f: FR.Feed, record: Bytes)
    requires |keys.iv| == 12
    ensures |record| > limit + 21 && record[0] == 23 ==>
              FeedStep(limit, cipher, keys, capacity, f, record)
                == Err(HandshakeError.RecordTooLarge(limit, (|record| - 5) % 65536))
    ensures !(|record| > limit + 21 && record[0] == 23) ==>
            match FR.FeedRecord(cipher, keys, capacity, f, record)
            case Err(e) => FeedStep(limit, cipher, keys, capacity, f, record) == Err(Feeding(e))
            case Ok(next) => FeedStep(limit, cipher, keys, capacity, f, record) == Ok(next)
  {
    hide FR.FeedRecord;
  }

  /** Once the flight is complete the records behind it are left alone. */
  lemma {:induction false} CollectStops(limit: nat, cipher: Cipher, keys: RecordKeys, capacity: nat, f: FR.Feed,
                                        wire: seq<Bytes>, more: seq<Bytes>)
    requires |keys.iv| == 12 && Collect(limit, cipher, keys, capacity, f, wire).Ok?
    ensures var (fed, rest) := Collect(limit, cipher, keys, capacity, f, wire).value;
            && R.FlightMsgs(fed.buf).Some?
            && Collect(limit, cipher, keys, capacity, f, wire + more) == Ok((fed, rest + more))
    decreases |wire|
  {
    hide FeedStep, R.FlightMsgs;
    assert (wire + more)[0] == wire[0] && (wire + more)[1..] == wire[1..] + more;
    var next := FeedStep(limit, cipher, keys, capacity, f, wire[0]).value;
    if R.FlightMsgs(next.buf).None? {
      CollectStops(limit, cipher, keys, capacity, next, wire[1..], more);
    }
  }

  // ---- Finishing ----

  /** The peer's record_size_limit, or the protocol maximum when it names none. */
  function PeerLimit(buf: Bytes): (r: Result<nat, HandshakeError>) {
    var found :- WrapFlight(R.PeekLimit(buf));
    match found
    case None => Ok(PROTO_MAX_INNER_PLAINTEXT)
    case Some(n) => if FR.LegalLimit(n) then Ok(n) else Err(InvalidRecordSizeLimit(n))
  }

  /** Context and schemes of the server's request; a policy that answers none refuses one. */
  function RequestOf(p: CF.Policy, v: SF.FlightView): (r: Result<Option<(Bytes, Bytes)>, HandshakeError>)
    requires v.Valid()
  {
    match v.request
    case None => Ok(None)
    case Some(m) =>
      if p.NoClientAuth? then Err(Connection(ClientAuth(CF.CertificateRequested)))
      else
        var (ctx, _) :- WrapFlight(SF.RequestParts(m.Full()));
        var algs :- WrapFlight(SF.SigAlgs(m.Full()));
        Ok(Some((ctx, algs)))
  }

  function LeafOf(c: Config, v: SF.FlightView): (r: Result<Leaf, HandshakeError>) {
    var chain :- WrapFlight(SF.Chain(v.cert.body, c.maxChain));
    match c.id.trust(chain)
    case None => Err(StrategyRejected)
    case Some(prepared) =>
      if chain == [] then Err(Connection(Flight(SF.Truncated)))
      else
        match c.id.leafKey(chain[0])
        case None => Err(Connection(Flight(SF.BadCert)))
        case Some(key) =>
          if !c.id.matches(prepared, key) then Err(StrategyPubkeyMismatch)
          else if !c.id.hostname(chain[0]) then Err(HostnameMismatch)
          else Ok(Leaf(key, prepared))
  }

  /** The leaf is taken exactly when the strategy trusts the chain, and its first certificate parses to the key the
      prepared verifier matches and has the right name. */
  lemma LeafExactly(c: Config, v: SF.FlightView, leaf: Leaf)
    ensures LeafOf(c, v) == Ok(leaf) <==>
            exists chain :: && SF.Chain(v.cert.body, c.maxChain) == Ok(chain) && chain != []
                            && c.id.trust(chain) == Some(leaf.prepared) && c.id.leafKey(chain[0]) == Some(leaf.key)
                            && c.id.matches(leaf.prepared, leaf.key) && c.id.hostname(chain[0])
  {
    hide SF.Chain;
    if SF.Chain(v.cert.body, c.maxChain).Ok? {
      var chain := SF.Chain(v.cert.body, c.maxChain).value;
      assert SF.Chain(v.cert.body, c.maxChain) == Ok(chain);
    }
  }

  /** Each refusal of a chain, by its cause, in order. */
  lemma LeafRefused(c: Config, v: SF.FlightView)
    ensures match SF.Chain(v.cert.body, c.maxChain)
            case Err(e) => LeafOf(c, v) == Err(Connection(Flight(e)))
            case Ok(chain) =>
              && (c.id.trust(chain).None? ==> LeafOf(c, v) == Err(StrategyRejected))
              && (c.id.trust(chain).Some? && chain == [] ==> LeafOf(c, v) == Err(Connection(Flight(SF.Truncated))))
              && (c.id.trust(chain).Some? && chain != [] ==>
                    var prepared, key := c.id.trust(chain).value, c.id.leafKey(chain[0]);
                    && (key.None? ==> LeafOf(c, v) == Err(Connection(Flight(SF.BadCert))))
                    && (key.Some? && !c.id.matches(prepared, key.value) ==> LeafOf(c, v) == Err(StrategyPubkeyMismatch))
                    && (key.Some? && c.id.matches(prepared, key.value) && !c.id.hostname(chain[0]) ==>
                          LeafOf(c, v) == Err(HostnameMismatch)))
  {
    hide SF.Chain;
  }

  /** What finishing leaves behind. */
  datatype Done = Done(limit: nat, request: Option<(Bytes, Bytes)>, afterFlight: Bytes,
                       wire: Bytes, afterFinished: Bytes, app: AppData)

  /** The client's answer: Finished alone, or the policy's flight when the server asked. */
  function Respond(c: Config, st: WaitServerFlight, t: Bytes, limit: nat, request: Option<(Bytes, Bytes)>)
    : (r: Result<Done, HandshakeError>)
    requires c.Valid()
  {
    match request
    case None =>
      var (wire, app) :- Wrap(Finish(c.b.kdf, st.cipher, st.hs, st.cHs, t, c.room));
      Ok(Done(limit, None, t, wire, t, app))
    case Some((ctx, algs)) =>
      var (wire, t3, app) :- Wrap(FinishWithPolicy(c.b.kdf, st.cipher, c.w, c.policy, ctx, algs, limit,
                                                   st.hs, st.cHs, t, c.scratch, c.room));
      Ok(Done(limit, request, t, wire, t3, app))
  }

  function FinalizeAndFinish(c: Config, st: WaitServerFlight, t: Bytes, buf: Bytes): (r: Result<Done, HandshakeError>)
    requires c.Valid()
  {
    var limit :- PeerLimit(buf);
    match R.FlightBytes(buf)
    case None => Err(Connection(IncompleteFlight))
    case Some(flight) =>
      var v :- WrapFlight(SF.ParseFlight(flight));
      SF.ParsedExactly(flight, v);
      var request :- RequestOf(c.policy, v);
      var leaf :- LeafOf(c, v);
      var t2 :- Wrap(Finalize(c.f, c.b.kdf, st.sHs, t, buf, true, leaf.prepared, leaf.key));
      Respond(c, st, t2, limit, request)
  }

  /** Chain, trust, leaf, verifier and name, in the engine's order. */
  method CheckIdentity(c: Config, v: SF.FlightView) returns (r: Result<Leaf, HandshakeError>)
    ensures r == LeafOf(c, v)
  {
    hide SF.Chain;
    var chain := SF.ExtractChain(v.cert.body, c.maxChain);
    if chain.Err? {
      return Err(Connection(Flight(chain.error)));
    }
    var prepared := c.id.trust(chain.value);
    if prepared.None? {
      return Err(StrategyRejected);
    }
    if chain.value == [] {
      return Err(Connection(Flight(SF.Truncated)));
    }
    var key := c.id.leafKey(chain.value[0]);
    if key.None? {
      return Err(Connection(Flight(SF.BadCert)));
    }
    if !c.id.matches(prepared.value, key.value) {
      return Err(StrategyPubkeyMismatch);
    }
    if !c.id.hostname(chain.value[0]) {
      return Err(HostnameMismatch);
    }
    r := Ok(Leaf(key.value, prepared.value));
  }

  /** A request meets a policy that answers none with a refusal, and one that answers with its context and schemes. */
  lemma RequestExactly(p: CF.Policy, v: SF.FlightView)
    requires v.Valid()
    ensures v.request.None? ==> RequestOf(p, v) == Ok(None)
    ensures v.request.Some? && p.NoClientAuth? ==> RequestOf(p, v) == Err(Connection(ClientAuth(CF.CertificateRequested)))
    ensures v.request.Some? && !p.NoClientAuth? ==>
            forall ctx, algs :: RequestOf(p, v) == Ok(Some((ctx, algs))) <==>
              && SF.SigAlgs(v.request.value.Full()) == Ok(algs)
              && exists exts :: SF.RequestParts(v.request.value.Full()) == Ok((ctx, exts))
  {
    hide SF.RequestParts, SF.SigAlgs;
    if v.request.Some? && !p.NoClientAuth? {
      var parts := SF.RequestParts(v.request.value.Full());
      if parts.Ok? {
        assert parts == Ok((parts.value.0, parts.value.1));
      }
    }
  }

  /** The first step that fails decides: peer limit, flight, request, chain, verification, answer. */
  lemma FinishRefused(c: Config, st: WaitServerFlight, t: Bytes, buf: Bytes, flight: Bytes, v: SF.FlightView)
    requires c.Valid() && R.FlightBytes(buf) == Some(flight) && SF.ParseFlight(flight) == Ok(v) && v.Valid()
    ensures PeerLimit(buf).Err? ==> FinalizeAndFinish(c, st, t, buf) == Err(PeerLimit(buf).error)
    ensures PeerLimit(buf).Ok? && RequestOf(c.policy, v).Err? ==>
              FinalizeAndFinish(c, st, t, buf) == Err(RequestOf(c.policy, v).error)
    ensures PeerLimit(buf).Ok? && RequestOf(c.policy, v).Ok? && LeafOf(c, v).Err? ==>
              FinalizeAndFinish(c, st, t, buf) == Err(LeafOf(c, v).error)
    ensures PeerLimit(buf).Ok? && RequestOf(c.policy, v).Ok? && LeafOf(c, v).Ok? ==>
              var leaf := LeafOf(c, v).value;
              match Finalize(c.f, c.b.kdf, st.sHs, t, buf, true, leaf.prepared, leaf.key)
              case Err(e) => FinalizeAndFinish(c, st, t, buf) == Err(Connection(e))
              case Ok(t2) =>
                FinalizeAndFinish(c, st, t, buf) == Respond(c, st, t2, PeerLimit(buf).value, RequestOf(c.policy, v).value)
  {
    hide PeerLimit, R.FlightBytes, SF.ParseFlight, RequestOf, LeafOf, Finalize, Respond;
  }

  /** The engine's step, on the connection and its buffers. */
  method FinalizeAndFinishStep(c: Config, conn: Connecting, reassembler: R.ServerFlightReassembler,
                               scratch: array<Byte>, out: array<Byte>)
    returns (r: Result<nat, HandshakeError>)
    requires c.Valid() && conn.Valid() && conn.f == c.f && conn.b == c.b && conn.stage.WaitFlight?
    requires scratch != out && scratch.Length == c.scratch < TWO64 && out.Length == c.room
    modifies conn`stage, conn.transcript, scratch, out
    ensures var spec := FinalizeAndFinish(c, old(conn.stage).st, old(conn.transcript.fed), reassembler.buf);
            && (spec.Err? ==> r == Err(spec.error))
            && (spec.Ok? ==> && r == Ok(|spec.value.wire|) && |spec.value.wire| <= out.Length
                             && out[..|spec.value.wire|] == spec.value.wire
                             && conn.stage == Connected(spec.value.app)
                             && conn.transcript.fed == spec.value.afterFinished)
  {
    hide R.PeekLimit, R.FlightBytes, SF.ParseFlight, SF.RequestParts, SF.SigAlgs, LeafOf, Finalize, Finish,
         FinishWithPolicy, Sized, Sound;
    var found := reassembler.PeekEeRecordSizeLimit();
    if found.Err? {
      return Err(Connection(Flight(found.error)));
    }
    var limit := PROTO_MAX_INNER_PLAINTEXT;
    if found.value.Some? {
      limit := found.value.value;
      if !FR.LegalLimit(limit) {
        return Err(InvalidRecordSizeLimit(limit));
      }
    }
    var flight := reassembler.GetFlightBytes();
    if flight.None? {
      return Err(Connection(IncompleteFlight));
    }
    var parsed := SF.ParseServerFlight(flight.value);
    if parsed.Err? {
      return Err(Connection(Flight(parsed.error)));
    }
    var v := parsed.value;
    SF.ParsedExactly(flight.value, v);
    var request := RequestOf(c.policy, v);
    if request.Err? {
      return Err(request.error);
    }
    var leaf := CheckIdentity(c, v);
    if leaf.Err? {
      return Err(leaf.error);
    }
    var done := conn.FinalizeServerFlight(reassembler, true, leaf.value.prepared, leaf.value.key);
    if done.Err? {
      return Err(Connection(done.error));
    }
    var sent: Result<nat, ConnectionError>;
    if request.value.None? {
      sent := conn.FinishHandshake(out);
    } else {
      var (ctx, algs) := request.value.value;
      sent := conn.FinishHandshakeWithPolicy(c.w, c.policy, ctx, algs, limit, scratch, out);
    }
    if sent.Err? {
      return Err(Connection(sent.error));
    }
    return Ok(sent.value);
  }

  // ---- The whole run ----

  datatype Outcome = Outcome(afterHello: Bytes, state: WaitServerFlight, buf: Bytes, done: Done)

  /** ClientHello sent, ServerHello read, server records collected, flight verified and answered. */
  function Run(c: Config, hello: Bytes, o: CH.Options, record: Bytes, wire: seq<Bytes>): (r: Result<Outcome, HandshakeError>)
    requires c.Valid()
  {
    match RecordBody(hello)
    case None => Err(Connection(TranscriptFailed))
    case Some(t0) =>
      var (t1, st) :- Wrap(ReadHello(c.f, c.b, o, t0, record));
      ReadHelloState(c.f, c.b, o, t0, record);
      var (fed, _) :- Collect(c.recvLimit, st.cipher, st.sHsKeys, c.capacity, FR.Feed(0, []), wire);
      var done :- FinalizeAndFinish(c, st, t1, fed.buf);
      Ok(Outcome(t1, st, fed.buf, done))
  }

  lemma ReadHelloState(f: Features, b: Backend, o: CH.Options, t: Bytes, record: Bytes)
    requires GoodBackend(b) && ReadHello(f, b, o, t, record).Ok?
    ensures var st := ReadHello(f, b, o, t, record).value.1;
            st.cipher in {b.aes, b.chacha} && |st.sHsKeys.iv| == IV_LEN
  {
    hide RecordBody, AnswerOf, HandshakeKeys;
    var (v, ikm) := AnswerOf(f, b, o, record).value;
    var digest := b.kdf.hash(t + RecordBody(record).value).value;
    KeysKeepCipher(b.kdf, if v.suite == CIPHER_AES_128_GCM_SHA256 then b.aes else b.chacha, ikm, digest);
  }

  // ---- What a completed run went through ----

  /** The handshake state is the key schedule of the agreed secret at this transcript. */
  ghost predicate HandshakeKeysAt(f: Features, b: Backend, record: Bytes, t: Bytes, st: WaitServerFlight)
    requires GoodBackend(b)
  {
    && b.kdf.hash(t).Some? && |b.kdf.hash(t).value| == 32
    && SH.Parse(f, record).Ok?
    && var v := SH.Parse(f, record).value;
       && SH.SentKey(v.selected).Some?
       && var dhe := b.derive(v.selected.group, SH.SentKey(v.selected).value);
          dhe.Some? && HandshakeState(b.kdf, CipherFor(b, v.suite), dhe.value, b.kdf.hash(t).value, st)
  }

  function CipherFor(b: Backend, suite: nat): (cipher: Cipher) {
    if suite == 0x1301 then b.aes else b.chacha
  }

  /** The application state is the key schedule of the handshake secret at this transcript. */
  ghost predicate AppKeysAt(b: Backend, st: WaitServerFlight, t: Bytes, app: AppData) {
    && st.cipher.keyLen <= 32 && b.kdf.hash(t).Some? && |b.kdf.hash(t).value| == 32
    && ApplicationState(b.kdf, st.cipher, st.hs, b.kdf.hash(t).value, app)
  }

  /** Without a request the transcript stays and one record goes out: Finished over that transcript. */
  predicate PlainEnd(c: Config, st: WaitServerFlight, done: Done) {
    && done.request.None? && done.afterFinished == done.afterFlight
    && TrafficKeys(c.b.kdf, st.cipher.keyLen, st.cHs).Ok?
    && c.b.kdf.hash(done.afterFlight).Some?
    && var mac := FinishedMac(c.b.kdf, st.cHs, c.b.kdf.hash(done.afterFlight).value);
       var keys := TrafficKeys(c.b.kdf, st.cipher.keyLen, st.cHs).value;
       && mac.Ok? && |mac.value| == HASH_LEN && |keys.iv| == 12
       && done.wire == SealRecord(st.cipher, keys, 0, CF.FinishedMsg(mac.value).Full(), CT_HANDSHAKE)
  }

  /** With one, context and schemes are the request's own and the transcript grows by the flight sent. */
  ghost predicate PolicyEnd(c: Config, st: WaitServerFlight, v: SF.FlightView, done: Done)
    requires c.Valid() && v.Valid()
  {
    && done.request.Some? && v.request.Some?
    && SF.RequestParts(v.request.value.Full()).Ok?
    && SF.RequestParts(v.request.value.Full()).value.0 == done.request.value.0
    && SF.SigAlgs(v.request.value.Full()) == Ok(done.request.value.1)
    && TrafficKeys(c.b.kdf, st.cipher.keyLen, st.cHs).Ok?
    && var plain := CF.BuildFlight(c.b.kdf, c.w, c.policy, done.request.value.0, done.request.value.1, st.cHs,
                                   done.afterFlight, c.scratch);
       var keys := TrafficKeys(c.b.kdf, st.cipher.keyLen, st.cHs).value;
       && plain.Ok? && done.afterFinished == done.afterFlight + plain.value && |keys.iv| == 12
       && var chunks := FR.Chunks(plain.value, FR.MaxChunk(done.limit));
          FR.AllFit(chunks) && done.wire == Flatten(FR.Records(st.cipher, keys, chunks, 0))
  }

  /** The plain end on the wire, byte by byte: one record under the client's handshake keys and the nonce of number
      zero, around a Finished whose verify_data is that of the transcript. */
  ghost predicate SendsFinished(c: Config, st: WaitServerFlight, t: Bytes, wire: Bytes) {
    && st.cipher.keyLen <= 32 && c.b.kdf.hash(t).Some?
    && exists key, iv, nonce, mac ::
         && Rfc8446.TrafficKey(c.b.kdf.expand, st.cHs, st.cipher.keyLen, key, iv) && Rfc8446.IsNonce(iv, 0, nonce)
         && Rfc8446.VerifyData(c.b.kdf.extract, c.b.kdf.expand, st.cHs, c.b.kdf.hash(t).value, mac) && |mac| == 32
         && var h := Rfc8446.RecordHeader(53);
            var s := st.cipher.seal(key, nonce, h, [20, 0, 0, 32] + mac + [22]);
            wire == h + s.ct + s.tag
  }

  lemma PlainEndOnWire(c: Config, st: WaitServerFlight, done: Done)
    requires c.Valid() && st.cipher.keyLen <= HASH_LEN && PlainEnd(c, st, done)
    ensures SendsFinished(c, st, done.afterFlight, done.wire)
  {
    hide FinishedMac, TrafficKeys, SealRecord, RecordNonce, Sized, Sound, Rfc8446.TrafficKey, Rfc8446.VerifyData,
         Rfc8446.IsNonce;
    var keys := TrafficKeys(c.b.kdf, st.cipher.keyLen, st.cHs).value;
    var digest := c.b.kdf.hash(done.afterFlight).value;
    var mac := FinishedMac(c.b.kdf, st.cHs, digest).value;
    var nonce := RecordNonce(keys.iv, 0);
    TrafficKeysExactly(c.b.kdf, st.cipher.keyLen, st.cHs, keys);
    FinishedExactly(c.b.kdf, st.cHs, digest, mac);
    NonceExactly(keys.iv, 0, nonce);
    var msg := CF.FinishedMsg(mac).Full();
    assert msg == [20, 0, 0, 32] + mac;
    SealedExactly(st.cipher, keys, 0, msg, CT_HANDSHAKE, nonce);
    assert msg + [CT_HANDSHAKE] == [20, 0, 0, 32] + mac + [22];
  }

  lemma HelloKeys(f: Features, b: Backend, o: CH.Options, t: Bytes, record: Bytes)
    requires f.Valid() && GoodBackend(b) && ReadHello(f, b, o, t, record).Ok?
    ensures RecordBody(record).Some?
    ensures var (t1, st) := ReadHello(f, b, o, t, record).value;
            t1 == t + RecordBody(record).value && HandshakeKeysAt(f, b, record, t1, st)
  {
    hide RecordBody, HandshakeKeys, SH.Parse, SharedSecret, HandshakeState, SH.Genuine, SH.Written, SH.GenuineShare,
         SH.SentKey, SH.ValidShare, SH.Serialize, Sound;
    var (v, ikm) := AnswerOf(f, b, o, record).value;
    var (t1, st) := ReadHello(f, b, o, t, record).value;
    SH.ParsedExactly(f, record, v);
    SH.ShareExactly(f, v.selected);
    ShareFound(f, b, v.selected);
    HandshakeKeysExactly(b.kdf, CipherFor(b, v.suite), ikm, b.kdf.hash(t1).value, st);
  }

  lemma Responded(c: Config, st: WaitServerFlight, t: Bytes, limit: nat, v: SF.FlightView, request: Option<(Bytes, Bytes)>)
    requires c.Valid() && v.Valid() && RequestOf(c.policy, v) == Ok(request) && st.cipher.keyLen <= HASH_LEN
    requires Respond(c, st, t, limit, request).Ok?
    ensures var done := Respond(c, st, t, limit, request).value;
            && done.afterFlight == t && done.limit == limit && AppKeysAt(c.b, st, t, done.app)
            && (if v.request.None? then PlainEnd(c, st, done) else PolicyEnd(c, st, v, done))
  {
    hide AppKeys, CF.BuildFlight, FR.FlightFailure, FR.Chunks, FR.Records, FinishedMac, TrafficKeys, SealRecord,
         SF.RequestParts, SF.SigAlgs, Vec24, ApplicationState;
    AppKeysExactly(c.b.kdf, st.cipher, st.hs, c.b.kdf.hash(t).value, Respond(c, st, t, limit, request).value.app);
    if v.request.Some? {
      var (ctx, algs) := request.value;
      var plain := CF.BuildFlight(c.b.kdf, c.w, c.policy, ctx, algs, st.cHs, t, c.scratch).value;
      FR.NoFailureFits(FR.Chunks(plain, FR.MaxChunk(limit)), c.room);
    }
  }

  /**
   * The whole handshake, with or without client authentication. The hashed bytes are the messages on
   * the wire in order; the handshake secrets bind the agreed secret to ClientHello and ServerHello; the
   * application keys bind everything through the server's Finished; and the client ends in Finished
   * alone when the flight carries no CertificateRequest, in its policy's answer to that request when it
   * does.
   */
  lemma TranscriptIsTheWire(c: Config, random: Bytes, pub: Bytes, o: CH.Options, record: Bytes, wire: seq<Bytes>,
                            x: Outcome)
    requires c.Valid() && |random| == 32 && CH.Writable(c.f, pub, o)
    requires Run(c, CH.Serialize(c.f, random, pub, o), o, record, wire) == Ok(x)
    ensures RecordBody(record).Some? && R.FlightBytes(x.buf).Some? && SF.ParseFlight(R.FlightBytes(x.buf).value).Ok?
    ensures var hello := Msg(HS_CLIENT_HELLO, CH.HelloBody(c.f, random, pub, o)).Full();
            var answer, flight := RecordBody(record).value, R.FlightBytes(x.buf).value;
            var v := SF.ParseFlight(flight).value;
            && x.afterHello == hello + answer
            && HandshakeKeysAt(c.f, c.b, record, hello + answer, x.state)
            && x.done.afterFlight == hello + answer + flight
            && AppKeysAt(c.b, x.state, hello + answer + flight, x.done.app)
            && v.Valid() && FR.LegalLimit(x.done.limit)
            && (if v.request.None? then PlainEnd(c, x.state, x.done) else PolicyEnd(c, x.state, v, x.done))
            && (v.request.None? ==> SendsFinished(c, x.state, hello + answer + flight, x.done.wire))
  {
    hide RecordBody, HandshakeKeysAt, AppKeysAt, ReadHello, CH.HelloBody, CH.Writable, CH.Serialize, Collect,
         FinalizeAndFinish, PlainEnd, PolicyEnd, R.FlightBytes, SF.ParseFlight, SF.RequestParts;
    var hello := Msg(HS_CLIENT_HELLO, CH.HelloBody(c.f, random, pub, o)).Full();
    HelloRecord(c.f, random, pub, o);
    HelloKeys(c.f, c.b, o, hello, record);
    ReadHelloState(c.f, c.b, o, hello, record);
    Finalized(c, x.state, x.afterHello, x.buf);
    hide SendsFinished;
    if SF.ParseFlight(R.FlightBytes(x.buf).value).value.request.None? {
      PlainEndOnWire(c, x.state, x.done);
    }
  }

  /** The limit kept is the one EncryptedExtensions names once, between 64 and 16385, or 16385 when it names none. */
  lemma PeerLimitExactly(buf: Bytes, es: seq<Ext>, n: nat)
    requires AllValid(es) && |EncodeExts(es)| < 0x1_0000
    requires R.FlightMsgs(buf).Some? && R.FlightMsgs(buf).value != []
    requires R.FlightMsgs(buf).value[0] == Msg(8, Vec16(EncodeExts(es)))
    ensures PeerLimit(buf) == Ok(n) <==>
            || (R.Limits(es) == [] && n == 16385)
            || (64 <= n <= 16385 && R.Limits(es) == [U16(n)])
  {
    hide R.FlightMsgs, R.LimitOf, EncodeExts, Vec16;
    R.LimitExactly(es, None);
    R.LimitExactly(es, Some(n));
    var found := R.LimitOf(Vec16(EncodeExts(es)));
    if found.Ok? {
      R.LimitExactly(es, found.value);
      if found.value.Some? {
        R.LimitExactly(es, Some(found.value.value));
      }
    }
  }

  lemma PeerLimitLegal(buf: Bytes)
    ensures PeerLimit(buf).Ok? ==> FR.LegalLimit(PeerLimit(buf).value)
  {
  }

  lemma Finalized(c: Config, st: WaitServerFlight, t: Bytes, buf: Bytes)
    requires c.Valid() && FinalizeAndFinish(c, st, t, buf).Ok? && st.cipher.keyLen <= HASH_LEN
    ensures R.FlightBytes(buf).Some? && SF.ParseFlight(R.FlightBytes(buf).value).Ok?
    ensures var flight, done := R.FlightBytes(buf).value, FinalizeAndFinish(c, st, t, buf).value;
            var v := SF.ParseFlight(flight).value;
            && v.Valid() && done.afterFlight == t + flight && AppKeysAt(c.b, st, t + flight, done.app)
            && FR.LegalLimit(done.limit)
            && (if v.request.None? then PlainEnd(c, st, done) else PolicyEnd(c, st, v, done))
  {
    PeerLimitLegal(buf);
    hide PeerLimit, AppKeysAt, PlainEnd, PolicyEnd, R.FlightBytes, SF.ParseFlight, RequestOf, LeafOf, Respond, VerifyFlight,
         SF.RequestParts, CheckWith, KeyFits;
    var flight := R.FlightBytes(buf).value;
    var v := SF.ParseFlight(flight).value;
    SF.ParsedExactly(flight, v);
    var leaf := LeafOf(c, v).value;
    VerifiedExactly(c.b.kdf, CheckWith(c.f, leaf.prepared), st.sHs, t, flight);
    Responded(c, st, t + flight, PeerLimit(buf).value, v, RequestOf(c.policy, v).value);
  }

  // ---- An honest server gets through ----

  /** The hash and HKDF engines do not break down. Key agreement may still refuse a share. */
  ghost predicate AlwaysWorks(b: Backend) {
    && (forall m :: b.kdf.hash(m).Some?)
    && (forall s, i :: b.kdf.extract(s, i).Some?)
    && L.NeverFails(b.kdf)
  }

  lemma ExpandWorks(b: Backend, secret: Bytes, name: Bytes, context: Bytes, outLen: nat)
    requires AlwaysWorks(b) && outLen <= HASH_LEN && |name| <= 22 && |context| <= HASH_LEN
    ensures ExpandLabel(b.kdf, secret, name, context, outLen).Ok?
  {
  }

  lemma TrafficKeysWork(b: Backend, keyLen: nat, secret: Bytes)
    requires AlwaysWorks(b) && keyLen <= HASH_LEN
    ensures TrafficKeys(b.kdf, keyLen, secret).Ok?
  {
    hide ExpandLabel, AlwaysWorks;
    ExpandWorks(b, secret, Ascii("key"), [], keyLen);
    ExpandWorks(b, secret, Ascii("iv"), [], IV_LEN);
  }

  lemma HandshakeKeysWork(b: Backend, cipher: Cipher, ikm: Bytes, digest: Bytes)
    requires GoodBackend(b) && AlwaysWorks(b) && cipher.keyLen <= HASH_LEN && |digest| == HASH_LEN
    ensures HandshakeKeys(b.kdf, cipher, ikm, digest).Ok?
  {
    hide ExpandLabel, TrafficKeys;
    var early := b.kdf.extract(Zeros(HASH_LEN), Zeros(HASH_LEN)).value;
    ExpandWorks(b, early, Ascii("derived"), EMPTY_TRANSCRIPT_HASH, HASH_LEN);
    var hs := HandshakeSecret(b.kdf, ikm).value;
    ExpandWorks(b, hs, Ascii("c hs traffic"), digest, HASH_LEN);
    ExpandWorks(b, hs, Ascii("s hs traffic"), digest, HASH_LEN);
    var (c, s) := HandshakeTrafficSecrets(b.kdf, hs, digest).value;
    TrafficKeysWork(b, cipher.keyLen, s);
  }

  lemma AppKeysWork(b: Backend, cipher: Cipher, hs: Bytes, digest: Bytes)
    requires GoodBackend(b) && AlwaysWorks(b) && cipher.keyLen <= HASH_LEN && |digest| == HASH_LEN
    ensures AppKeys(b.kdf, cipher, hs, digest).Ok?
  {
    hide ExpandLabel, TrafficKeys;
    ExpandWorks(b, hs, Ascii("derived"), EMPTY_TRANSCRIPT_HASH, HASH_LEN);
    var ms := MasterSecret(b.kdf, hs).value;
    ExpandWorks(b, ms, Ascii("c ap traffic"), digest, HASH_LEN);
    ExpandWorks(b, ms, Ascii("s ap traffic"), digest, HASH_LEN);
    var (c, s) := ApplicationTrafficSecrets(b.kdf, ms, digest).value;
    TrafficKeysWork(b, cipher.keyLen, c);
    TrafficKeysWork(b, cipher.keyLen, s);
  }

  /** The parser leaves the key in the field the key agreement of that group reads. */
  lemma ShareFound(f: Features, b: Backend, s: SH.Selected)
    requires f.Valid() && SH.ValidShare(f, s)
    ensures SharedSecret(f, b, s)
         == match b.derive(s.group, SH.Key(s))
            case Some(ikm) => Ok(ikm)
            case None => Err(Parse(SH.DhAllZero))
  {
  }

  /** The ServerHello message of a view. */
  function AnswerMsg(f: Features, v: SH.View, first: bool): (b: Bytes)
    requires SH.ValidView(f, v)
  {
    Msg(HS_SERVER_HELLO, SH.Body(f, v, first)).Full()
  }

  lemma AnswerRecord(f: Features, v: SH.View, first: bool)
    requires SH.ValidView(f, v)
    ensures RecordBody(SH.Serialize(f, v, first)) == Some(AnswerMsg(f, v, first))
  {
    hide RecordBody, SH.Body, SH.ValidView, U16, Vec16, Vec24;
    var msg := AnswerMsg(f, v, first);
    var wire := [CT_HANDSHAKE] + U16(LEGACY_VERSION) + Vec16(msg);
    assert SH.Serialize(f, v, first) == wire == wire + [];
    RecordBodyReads(CT_HANDSHAKE, LEGACY_VERSION, msg, []);
  }

  /** Every legal answer to the ClientHello, in either order of its extensions, is read, and leads to the
      keys the server has. */
  lemma HonestHelloRead(f: Features, b: Backend, o: CH.Options, t: Bytes, v: SH.View, first: bool, st: WaitServerFlight)
    requires f.Valid() && o.Typed(f) && GoodBackend(b) && AlwaysWorks(b) && SH.ValidView(f, v)
    requires v.sessionId == CH.SessionId(o) && v.suite in CH.Suites(f, o.suites)
    requires ServerKeys(f, b, t, v, first, st)
    ensures ReadHello(f, b, o, t, SH.Serialize(f, v, first)) == Ok((t + AnswerMsg(f, v, first), st))
  {
    hide SH.Parse, SH.Serialize, SH.ValidShare, CH.Suites, RecordBody, HandshakeKeys, SharedSecret, Advertised,
         Sized, Sound, AnswerMsg, HandshakeState, SH.Genuine, SH.Written;
    var record := SH.Serialize(f, v, first);
    HandshakeKeysExactly(b.kdf, CipherFor(b, v.suite), b.derive(v.selected.group, SH.Key(v.selected)).value,
                         b.kdf.hash(t + AnswerMsg(f, v, first)).value, st);
    SH.ParsedExactly(f, record, v);
    AdvertisedExactly(f, o, v.suite);
    ShareFound(f, b, v.selected);
    AnswerRecord(f, v, first);
  }

  /** The server's key schedule after its ServerHello. */
  ghost predicate ServerKeys(f: Features, b: Backend, t: Bytes, v: SH.View, first: bool, st: WaitServerFlight)
    requires SH.ValidView(f, v)
  {
    var digest := b.kdf.hash(t + AnswerMsg(f, v, first));
    var ikm := b.derive(v.selected.group, SH.Key(v.selected));
    && digest.Some? && |digest.value| == 32 && ikm.Some? && CipherFor(b, v.suite).keyLen <= 32
    && HandshakeState(b.kdf, CipherFor(b, v.suite), ikm.value, digest.value, st)
  }

  // The server flight arrives.

  /** The last chunk, and no earlier one, completes the flight. */
  predicate Completes(buf: Bytes, chunks: seq<Bytes>) {
    && chunks != []
    && R.FlightMsgs(buf + Flatten(chunks)).Some?
    && R.FlightMsgs(buf + Flatten(chunks[..|chunks| - 1])).None?
  }

  predicate WithinLimit(limit: nat, chunks: seq<Bytes>) {
    forall i :: 0 <= i < |chunks| ==> |chunks[i]| + CONTENT_TYPE_LEN <= limit
  }

  lemma IncompletePrefix(buf: Bytes, more: Bytes)
    requires R.FlightMsgs(buf + more).None?
    ensures R.FlightMsgs(buf).None?
  {
    hide R.FlightMsgs;
    if R.FlightMsgs(buf).Some? {
      R.FlightIsStable(buf, more);
    }
  }

  lemma CompletesRest(buf: Bytes, chunks: seq<Bytes>)
    requires Completes(buf, chunks)
    ensures R.FlightMsgs(buf).None?
    ensures |chunks| == 1 ==> buf + chunks[0] == buf + Flatten(chunks)
    ensures |chunks| > 1 ==> Completes(buf + chunks[0], chunks[1..]) && R.FlightMsgs(buf + chunks[0]).None?
    ensures buf + chunks[0] + Flatten(chunks[1..]) == buf + Flatten(chunks)
  {
    hide R.FlightMsgs, Flatten;
    var n := |chunks| - 1;
    IncompletePrefix(buf, Flatten(chunks[..n]));
    FlattenHead(buf, chunks);
    if n > 0 {
      var rest := chunks[1..];
      assert chunks[..n][0] == chunks[0] && chunks[..n][1..] == rest[..n - 1];
      FlattenHead(buf, chunks[..n]);
      IncompletePrefix(buf + chunks[0], Flatten(rest[..n - 1]));
    } else {
      assert chunks == [chunks[0]];
      FlattenOne(chunks[0]);
    }
  }

  lemma FlattenHead(buf: Bytes, chunks: seq<Bytes>)
    requires chunks != []
    ensures buf + chunks[0] + Flatten(chunks[1..]) == buf + Flatten(chunks)
  {
    assert Flatten(chunks) == chunks[0] + Flatten(chunks[1..]);
  }

  lemma StepOfSealed(limit: nat, cipher: Cipher, keys: RecordKeys, capacity: nat, f: FR.Feed, chunk: Bytes)
    requires Sound(cipher) && |keys.iv| == 12 && |chunk| <= TLS_PLAINTEXT_MAX && |chunk| + CONTENT_TYPE_LEN <= limit
    requires f.seqIn + 1 < TWO64 && |f.buf| + |chunk| <= capacity
    ensures FeedStep(limit, cipher, keys, capacity, f, SealRecord(cipher, keys, f.seqIn, chunk, CT_HANDSHAKE))
         == Ok(FR.Feed(f.seqIn + 1, f.buf + chunk))
    ensures !FR.IsCcs(SealRecord(cipher, keys, f.seqIn, chunk, CT_HANDSHAKE))
  {
    OpenUndoesSeal(cipher, keys, f.seqIn, chunk, CT_HANDSHAKE);
    FR.SealedFeeds(cipher, keys, capacity, f, chunk);
    hide Sound, RecordNonce, FR.FeedRecord, OpenRecord;
    var record := SealRecord(cipher, keys, f.seqIn, chunk, CT_HANDSHAKE);
    assert record[0] == CT_APPLICATION_DATA;
  }

  lemma StepOfCcs(limit: nat, cipher: Cipher, keys: RecordKeys, capacity: nat, f: FR.Feed, record: Bytes)
    requires |keys.iv| == 12 && FR.IsCcs(record)
    ensures FeedStep(limit, cipher, keys, capacity, f, record) == Ok(f)
  {
  }

  lemma {:induction false} CollectReads(limit: nat, cipher: Cipher, keys: RecordKeys, capacity: nat, f: FR.Feed,
                                        chunks: seq<Bytes>, wire: seq<Bytes>)
    requires Sound(cipher) && |keys.iv| == 12 && FR.AllFit(chunks) && WithinLimit(limit, chunks)
    requires f.seqIn + |chunks| < TWO64 && |f.buf| + |Flatten(chunks)| <= capacity && Completes(f.buf, chunks)
    requires FR.DropCcs(wire) == FR.Records(cipher, keys, chunks, f.seqIn)
    ensures Collect(limit, cipher, keys, capacity, f, wire).Ok?
    ensures Collect(limit, cipher, keys, capacity, f, wire).value.0
         == FR.Feed(f.seqIn + |chunks|, f.buf + Flatten(chunks))
    decreases |wire|
  {
    hide Sound, SealRecord, FeedStep, Completes, R.FlightMsgs, FR.IsCcs;
    CompletesSome(f.buf, chunks);
    CompletesRest(f.buf, chunks);
    if FR.IsCcs(wire[0]) {
      StepOfCcs(limit, cipher, keys, capacity, f, wire[0]);
      CollectReads(limit, cipher, keys, capacity, f, chunks, wire[1..]);
    } else {
      StepOfSealed(limit, cipher, keys, capacity, f, chunks[0]);
      assert wire[0] == FR.DropCcs(wire)[0] && FR.DropCcs(wire[1..]) == FR.DropCcs(wire)[1..];
      assert FR.Records(cipher, keys, chunks, f.seqIn)[1..] == FR.Records(cipher, keys, chunks[1..], f.seqIn + 1);
      if |chunks| > 1 {
        CollectReads(limit, cipher, keys, capacity, FR.Feed(f.seqIn + 1, f.buf + chunks[0]), chunks[1..], wire[1..]);
      }
    }
  }

  lemma CompletesSome(buf: Bytes, chunks: seq<Bytes>)
    requires Completes(buf, chunks)
    ensures chunks != [] && R.FlightMsgs(buf + Flatten(chunks)).Some?
  {
  }

  /** The flight, cut anywhere, with bytes after its Finished only in the record that completes it. */
  predicate CutsInto(flight: Bytes, after: Bytes, chunks: seq<Bytes>) {
    chunks != [] && Flatten(chunks) == flight + after && |Flatten(chunks[..|chunks| - 1])| < |flight|
  }

  lemma CutCompletes(ms: seq<Msg>, after: Bytes, chunks: seq<Bytes>)
    requires R.IsFlight(ms) && CutsInto(SF.EncodeMsgs(ms), after, chunks)
    ensures Completes([], chunks)
  {
    hide R.FlightMsgs, SF.EncodeMsgs, Flatten;
    var flight, n := SF.EncodeMsgs(ms), |chunks| - 1;
    var early := Flatten(chunks[..n]);
    R.FlightMsgsComplete(ms, after);
    assert [] + Flatten(chunks) == flight + after && [] + early == early;
    if R.FlightMsgs(early).Some? {
      FlattenPrefix(chunks, n);
      R.FlightMsgsComplete(ms, []);
      assert flight + [] == flight && flight[..|early|] == early && flight == early + flight[|early|..];
      R.FlightExactly(flight, ms);
      R.FlightIsStable(early, flight[|early|..]);
      R.FlightMsgsSound(early);
      assert false;
    }
  }

  lemma FlattenPrefix(chunks: seq<Bytes>, n: nat)
    requires n <= |chunks|
    ensures Flatten(chunks[..n]) <= Flatten(chunks)
  {
    FlattenAppend(chunks[..n], chunks[n..]);
    assert chunks[..n] + chunks[n..] == chunks;
  }

  lemma FlightCollected(c: Config, st: WaitServerFlight, ms: seq<Msg>, after: Bytes, chunks: seq<Bytes>,
                        wire: seq<Bytes>)
    requires Sound(st.cipher) && |st.sHsKeys.iv| == 12 && R.IsFlight(ms) && CutsInto(SF.EncodeMsgs(ms), after, chunks)
    requires FR.AllFit(chunks) && WithinLimit(c.recvLimit, chunks) && |chunks| < TWO64
    requires |SF.EncodeMsgs(ms) + after| <= c.capacity
    requires FR.DropCcs(wire) == FR.Records(st.cipher, st.sHsKeys, chunks, 0)
    ensures var r := Collect(c.recvLimit, st.cipher, st.sHsKeys, c.capacity, FR.Feed(0, []), wire);
            && r.Ok? && r.value.0.buf == SF.EncodeMsgs(ms) + after
            && R.FlightMsgs(r.value.0.buf) == Some(ms)
            && R.FlightBytes(r.value.0.buf) == Some(SF.EncodeMsgs(ms))
  {
    hide Sound, Collect, R.FlightMsgs, SF.EncodeMsgs, R.FlightBytes, VerifyFlight, CheckWith, FR.Records, FR.DropCcs,
         KeyFits, Completes, Flatten, WithinLimit, FR.AllFit;
    CutCompletes(ms, after, chunks);
    CollectReads(c.recvLimit, st.cipher, st.sHsKeys, c.capacity, FR.Feed(0, []), chunks, wire);
    assert [] + (SF.EncodeMsgs(ms) + after) == SF.EncodeMsgs(ms) + after;
    R.FlightMsgsComplete(ms, after);
    R.FlightExactly(SF.EncodeMsgs(ms) + after, ms);
  }

  /**
   * Whatever the fragmentation, with ChangeCipherSpec records among the others and bytes after
   * Finished, what is collected has the flight as its flight bytes, and finalizing gives the verdict on
   * the flight.
   */
  lemma ServerFlightArrives(c: Config, st: WaitServerFlight, t: Bytes, ms: seq<Msg>, after: Bytes, chunks: seq<Bytes>,
                            wire: seq<Bytes>, p: Prepared, key: LeafKey)
    requires Sound(st.cipher) && |st.sHsKeys.iv| == 12 && R.IsFlight(ms) && CutsInto(SF.EncodeMsgs(ms), after, chunks)
    requires FR.AllFit(chunks) && WithinLimit(c.recvLimit, chunks) && |chunks| < TWO64
    requires |SF.EncodeMsgs(ms) + after| <= c.capacity
    requires FR.DropCcs(wire) == FR.Records(st.cipher, st.sHsKeys, chunks, 0)
    ensures var r := Collect(c.recvLimit, st.cipher, st.sHsKeys, c.capacity, FR.Feed(0, []), wire);
            && r.Ok? && r.value.0.buf == SF.EncodeMsgs(ms) + after
            && R.FlightMsgs(r.value.0.buf) == Some(ms)
            && R.FlightBytes(r.value.0.buf) == Some(SF.EncodeMsgs(ms))
            && (Finalize(c.f, c.b.kdf, st.sHs, t, r.value.0.buf, true, p, key).Ok? <==>
                  VerifyFlight(c.b.kdf, CheckWith(c.f, p), st.sHs, t, SF.EncodeMsgs(ms)).Ok? && KeyFits(key))
  {
    hide Sound, Collect, R.FlightMsgs, SF.EncodeMsgs, R.FlightBytes, VerifyFlight, CheckWith, FR.Records, FR.DropCcs,
         KeyFits, CutsInto, WithinLimit, FR.AllFit;
    FlightCollected(c, st, ms, after, chunks, wire);
  }

  lemma HashWorks(b: Backend, t: Bytes)
    requires GoodBackend(b) && AlwaysWorks(b)
    ensures b.kdf.hash(t).Some? && |b.kdf.hash(t).value| == HASH_LEN
  {
  }

  // The client can answer.

  /** What a policy needs to answer a request: a signer that signs, under a scheme the server offered, and a
      certificate within the caps. */
  ghost predicate CanAnswer(w: CF.RsaWidth, p: CF.Policy, algs: Bytes) {
    && !p.NoClientAuth?
    && (p.WithClientAuth? ==>
          && CF.Offers(algs, p.signer.scheme)
          && 0 < |p.signer.certDer| <= CF.MaxCertDer(w)
          && forall content :: p.signer.sign(content).Some?)
  }

  lemma FinishedMacWorks(b: Backend, secret: Bytes, digest: Bytes)
    requires AlwaysWorks(b)
    ensures FinishedMac(b.kdf, secret, digest).Ok?
  {
    hide ExpandLabel;
    ExpandWorks(b, secret, Ascii("finished"), [], HASH_LEN);
  }

  lemma AppendWorks(b: Backend, secret: Bytes, t: Bytes, head: Bytes, room: nat)
    requires GoodBackend(b) && AlwaysWorks(b) && |head| + CF.FINISHED_MSG <= room
    ensures CF.AppendFinished(b.kdf, secret, t, head, room).Ok?
  {
    hide FinishedMac, Sized, Sound;
    HashWorks(b, t + head);
    FinishedMacWorks(b, secret, b.kdf.hash(t + head).value);
  }

  lemma PolicyBuilds(c: Config, ctx: Bytes, algs: Bytes, secret: Bytes, t: Bytes)
    requires c.Valid() && AlwaysWorks(c.b) && CanAnswer(c.w, c.policy, algs) && |ctx| <= 255
    requires c.scratch >= CF.MaxFlightLen(c.w, c.policy)
    ensures CF.BuildFlight(c.b.kdf, c.w, c.policy, ctx, algs, secret, t, c.scratch).Ok?
  {
    hide CF.AppendFinished, CF.Offers, CF.SignedContent, Sized, Sound, AlwaysWorks, Vec8, Vec24;
    if c.policy.DeclineClientAuth? {
      AppendWorks(c.b, secret, t, CF.EmptyMsg(ctx).Full(), c.scratch);
    } else {
      var signer := c.policy.signer;
      var cert := CF.LeafMsg(ctx, signer.certDer).Full();
      HashWorks(c.b, t + cert);
      var content := CF.SignedContent(CF.CLIENT_CV_CTX, c.b.kdf.hash(t + cert).value);
      var sig := signer.sign(content).value;
      AppendWorks(c.b, secret, t, cert + CF.VerifyMsg(signer.scheme, sig).Full(), c.scratch);
    }
  }

  const FINISHED_RECORD := 58

  lemma PlainResponds(c: Config, st: WaitServerFlight, t: Bytes, limit: nat)
    requires c.Valid() && AlwaysWorks(c.b) && st.cipher in {c.b.aes, c.b.chacha} && c.room >= FINISHED_RECORD
    ensures Respond(c, st, t, limit, None).Ok?
  {
    hide FinishedMac, TrafficKeys, AppKeys, SealRecord, Sized, Sound, AlwaysWorks;
    HashWorks(c.b, t);
    FinishedMacWorks(c.b, st.cHs, c.b.kdf.hash(t).value);
    TrafficKeysWork(c.b, st.cipher.keyLen, st.cHs);
    AppKeysWork(c.b, st.cipher, st.hs, c.b.kdf.hash(t).value);
  }

  lemma PolicyResponds(c: Config, st: WaitServerFlight, t: Bytes, limit: nat, ctx: Bytes, algs: Bytes)
    requires c.Valid() && AlwaysWorks(c.b) && st.cipher in {c.b.aes, c.b.chacha} && FR.LegalLimit(limit)
    requires CanAnswer(c.w, c.policy, algs) && |ctx| <= 255
    requires c.scratch >= CF.MaxFlightLen(c.w, c.policy)
    requires c.room >= FR.ClientAuthSendFloor(CF.MaxFlightLen(c.w, c.policy))
    ensures Respond(c, st, t, limit, Some((ctx, algs))).Ok?
  {
    hide CF.BuildFlight, FR.FlightFailure, FR.Chunks, FR.Records, TrafficKeys, AppKeys, Sized, Sound, AlwaysWorks, CanAnswer;
    HashWorks(c.b, t);
    PolicyBuilds(c, ctx, algs, st.cHs, t);
    FlightAlwaysSent(c.b.kdf, c.w, c.policy, ctx, algs, limit, st.cHs, t, c.scratch, c.room);
    TrafficKeysWork(c.b, st.cipher.keyLen, st.cHs);
    AppKeysWork(c.b, st.cipher, st.hs, c.b.kdf.hash(t).value);
  }

  // The server, in its own terms.

  /** What a server sends: its hello, the parts of its flight, and how it cuts them into records. */
  datatype Server = Server(view: SH.View, versionFirst: bool,
                           ees: seq<Ext>, limit: Option<nat>, request: Option<(Bytes, seq<Ext>)>,
                           certCtx: Bytes, entries: seq<SF.Entry>, cv: Bytes, fin: Bytes,
                           after: Bytes, chunks: seq<Bytes>, wire: seq<Bytes>) {
    /** Every vector fits its length field. */
    predicate Framed() {
      && AllValid(ees) && |EncodeExts(ees)| < 0x1_0000
      && (request.Some? ==> && |request.value.0| < 256 && AllValid(request.value.1)
                            && |EncodeExts(request.value.1)| < 0x1_0000)
      && |certCtx| < 256 && SF.AllEntriesValid(entries) && |SF.EncodeEntries(entries)| < 0xFF_0000
      && |cv| < 0x100_0000 && |fin| < 0x100_0000
    }

    function RequestMsg(): (m: Option<Msg>)
      requires Framed()
    {
      match request
      case None => None
      case Some((ctx, es)) => Some(Msg(HS_CERTIFICATE_REQUEST, Vec8(ctx) + Vec16(EncodeExts(es))))
    }

    function Flight(): (v: SF.FlightView)
      requires Framed()
      ensures v.Valid()
    {
      SF.FlightView(Msg(HS_ENCRYPTED_EXTENSIONS, Vec16(EncodeExts(ees))), RequestMsg(),
                    Msg(HS_CERTIFICATE, Vec8(certCtx) + Vec24(SF.EncodeEntries(entries))),
                    Msg(HS_CERTIFICATE_VERIFY, cv), Msg(HS_FINISHED, fin))
    }

    function Plain(): (b: Bytes)
      requires Framed()
    {
      SF.EncodeMsgs(Flight().Messages())
    }
  }

  lemma MessagesAreFlight(v: SF.FlightView)
    requires v.Valid()
    ensures R.IsFlight(v.Messages())
  {
  }

  /** EncryptedExtensions names at most one limit, a legal one. */
  predicate LimitLegal(s: Server) {
    R.Single(R.Limits(s.ees), s.limit) && (s.limit.Some? ==> FR.LegalLimit(s.limit.value))
  }

  /** No request, or one the client's policy can answer. */
  ghost predicate RequestMet(c: Config, s: Server) {
    s.request.Some? ==> SF.Offered(s.request.value.1).Ok? && CanAnswer(c.w, c.policy, SF.Offered(s.request.value.1).value)
  }

  /** The chain fits, the strategy trusts it, and its first certificate has the leaf's key and the right name. */
  ghost predicate ChainTrusted(c: Config, s: Server, leaf: Leaf) {
    && 1 <= |s.entries| <= c.maxChain && c.id.trust(SF.Certs(s.entries)) == Some(leaf.prepared)
    && c.id.leafKey(s.entries[0].cert) == Some(leaf.key) && c.id.matches(leaf.prepared, leaf.key)
    && c.id.hostname(s.entries[0].cert)
  }

  /** The flight reaches the client: cut within its limit, sealed in order, small enough to collect. */
  ghost predicate Sent(c: Config, s: Server, st: WaitServerFlight)
    requires s.Framed()
  {
    var flight := s.Plain();
    && CutsInto(flight, s.after, s.chunks) && FR.AllFit(s.chunks) && WithinLimit(c.recvLimit, s.chunks)
    && |s.chunks| < TWO64 && |flight + s.after| <= c.capacity && |st.sHsKeys.iv| == 12
    && FR.DropCcs(s.wire) == FR.Records(st.cipher, st.sHsKeys, s.chunks, 0)
  }

  /** The client's own buffers are as large as its policy announces. */
  predicate Roomy(c: Config) {
    && c.scratch >= CF.MaxFlightLen(c.w, c.policy)
    && c.room >= FINISHED_RECORD && c.room >= FR.ClientAuthSendFloor(CF.MaxFlightLen(c.w, c.policy))
  }

  lemma LimitPeeked(s: Server, buf: Bytes)
    requires s.Framed() && LimitLegal(s) && R.FlightMsgs(buf) == Some(s.Flight().Messages())
    ensures PeerLimit(buf) == Ok(match s.limit case None => PROTO_MAX_INNER_PLAINTEXT case Some(n) => n)
  {
    hide R.FlightMsgs, R.LimitOf, EncodeExts, Vec16, Vec8, Vec24, SF.EncodeEntries;
    R.LimitExactly(s.ees, s.limit);
  }

  lemma RequestRead(c: Config, s: Server)
    requires s.Framed() && RequestMet(c, s)
    ensures RequestOf(c.policy, s.Flight())
         == Ok(match s.request
               case None => None
               case Some((ctx, es)) => Some((ctx, SF.Offered(es).value)))
  {
    hide SF.RequestParts, SF.SigAlgs, EncodeExts, Vec16, Vec8, Vec24, SF.EncodeEntries, SF.Offered, CanAnswer;
    if s.request.Some? {
      var (ctx, es) := s.request.value;
      AnswersAtAll(c.w, c.policy, SF.Offered(es).value);
      SF.RequestReads(ctx, es);
    }
  }

  lemma AnswersAtAll(w: CF.RsaWidth, p: CF.Policy, algs: Bytes)
    requires CanAnswer(w, p, algs)
    ensures !p.NoClientAuth?
  {
  }

  lemma LeafTrusted(c: Config, s: Server, leaf: Leaf)
    requires s.Framed() && ChainTrusted(c, s, leaf)
    ensures LeafOf(c, s.Flight()) == Ok(leaf)
  {
    hide SF.Chain, Vec8, Vec24, Vec16, EncodeExts, SF.EncodeEntries;
    SF.ChainReads(s.certCtx, s.entries, [], c.maxChain);
    assert Vec24(SF.EncodeEntries(s.entries)) + [] == Vec24(SF.EncodeEntries(s.entries));
  }

  lemma HonestFlightFinishes(c: Config, s: Server, t: Bytes, st: WaitServerFlight, leaf: Leaf, buf: Bytes)
    requires c.Valid() && AlwaysWorks(c.b) && st.cipher in {c.b.aes, c.b.chacha} && s.Framed()
    requires LimitLegal(s) && RequestMet(c, s) && ChainTrusted(c, s, leaf) && Roomy(c)
    requires R.FlightMsgs(buf) == Some(s.Flight().Messages())
    requires R.FlightBytes(buf) == Some(s.Plain())
    requires Authentic(c.b.kdf, CheckWith(c.f, leaf.prepared), st.sHs, t, s.Plain(), s.Flight())
    ensures FinalizeAndFinish(c, st, t, buf).Ok? <==> KeyFits(leaf.key)
  {
    hide R.FlightMsgs, R.FlightBytes, SF.ParseFlight, SF.EncodeMsgs, VerifyFlight, CheckWith, Respond, RequestOf, LeafOf,
         PeerLimit, KeyFits, Authentic, CanAnswer, LimitLegal, ChainTrusted, SF.Offered, Sized, Sound;
    var v := s.Flight();
    var flight := SF.EncodeMsgs(v.Messages());
    SF.ParseUndoesFlight(v);
    LimitPeeked(s, buf);
    RequestRead(c, s);
    LeafTrusted(c, s, leaf);
    VerifiedExactly(c.b.kdf, CheckWith(c.f, leaf.prepared), st.sHs, t, flight);
    LimitIsLegal(s);
    var limit := PeerLimit(buf).value;
    if s.request.None? {
      PlainResponds(c, st, t + flight, limit);
    } else {
      PolicyResponds(c, st, t + flight, limit, s.request.value.0, SF.Offered(s.request.value.1).value);
    }
  }

  lemma LimitIsLegal(s: Server)
    requires LimitLegal(s)
    ensures FR.LegalLimit(match s.limit case None => PROTO_MAX_INNER_PLAINTEXT case Some(n) => n)
  {
  }

  /** A legal ServerHello that echoes the session id and picks an offered suite. */
  predicate AnswersHello(c: Config, o: CH.Options, s: Server) {
    SH.ValidView(c.f, s.view) && s.view.sessionId == CH.SessionId(o) && s.view.suite in CH.Suites(c.f, o.suites)
  }

  /** A flight under the server's own key schedule, sent so that the client can take it. */
  ghost predicate FlightArrives(c: Config, s: Server, hello: Bytes, st: WaitServerFlight)
    requires SH.ValidView(c.f, s.view)
  {
    && s.Framed() && LimitLegal(s) && RequestMet(c, s) && Sent(c, s, st)
    && ServerKeys(c.f, c.b, hello, s.view, s.versionFirst, st)
  }

  /** Its signature and MAC hold under this verifier. */
  ghost predicate Proves(c: Config, s: Server, hello: Bytes, st: WaitServerFlight, prepared: Prepared)
    requires SH.ValidView(c.f, s.view) && s.Framed()
  {
    Authentic(c.b.kdf, CheckWith(c.f, prepared), st.sHs, hello + AnswerMsg(c.f, s.view, s.versionFirst), s.Plain(), s.Flight())
  }

  /** A flight signed and authenticated under the server's own key schedule, with a chain the client trusts. */
  ghost predicate HonestFlight(c: Config, s: Server, hello: Bytes, st: WaitServerFlight, leaf: Leaf)
    requires SH.ValidView(c.f, s.view)
  {
    FlightArrives(c, s, hello, st) && ChainTrusted(c, s, leaf) && Proves(c, s, hello, st, leaf.prepared)
  }

  /** What the client collects is the flight, and finishing decides the run. */
  lemma RunCollects(c: Config, random: Bytes, pub: Bytes, o: CH.Options, s: Server, st: WaitServerFlight)
    requires c.Valid() && AlwaysWorks(c.b) && |random| == 32 && CH.Writable(c.f, pub, o)
    requires AnswersHello(c, o, s)
    requires FlightArrives(c, s, Msg(HS_CLIENT_HELLO, CH.HelloBody(c.f, random, pub, o)).Full(), st)
    ensures st.cipher in {c.b.aes, c.b.chacha}
    ensures R.FlightMsgs(s.Plain() + s.after) == Some(s.Flight().Messages())
    ensures R.FlightBytes(s.Plain() + s.after) == Some(s.Plain())
    ensures var r := Run(c, CH.Serialize(c.f, random, pub, o), o, SH.Serialize(c.f, s.view, s.versionFirst), s.wire);
            var t := Msg(HS_CLIENT_HELLO, CH.HelloBody(c.f, random, pub, o)).Full() + AnswerMsg(c.f, s.view, s.versionFirst);
            && (r.Ok? <==> FinalizeAndFinish(c, st, t, s.Plain() + s.after).Ok?)
            && (r.Ok? ==> r.value.state == st && r.value.buf == s.Plain() + s.after)
  {
    hide CH.Serialize, SH.Serialize, CH.HelloBody, AnswerMsg, SF.EncodeMsgs, Collect, FinalizeAndFinish, ReadHello, RecordBody,
         CheckWith, SH.ValidView, CH.Suites, LimitLegal, RequestMet, ServerKeys, KeyFits, AlwaysWorks,
         R.FlightMsgs, R.FlightBytes, CutsInto, FR.AllFit, WithinLimit, FR.DropCcs, FR.Records, Sized, Sound, CH.OptionsError;
    var hello := Msg(HS_CLIENT_HELLO, CH.HelloBody(c.f, random, pub, o)).Full();
    HelloRecord(c.f, random, pub, o);
    HonestHelloRead(c.f, c.b, o, hello, s.view, s.versionFirst, st);
    ReadHelloState(c.f, c.b, o, hello, SH.Serialize(c.f, s.view, s.versionFirst));
    MessagesAreFlight(s.Flight());
    FlightCollected(c, st, s.Flight().Messages(), s.after, s.chunks, s.wire);
  }

  /**
   * An honest server gets through, with a request or without, under every policy that can answer it,
   * however it cuts its flight into records, if and only if the leaf's key fits the connection's copy:
   * an RSA modulus of more than 2048 bits never completes.
   */
  lemma HonestHandshakeCompletes(c: Config, random: Bytes, pub: Bytes, o: CH.Options, s: Server,
                                 st: WaitServerFlight, leaf: Leaf)
    requires c.Valid() && AlwaysWorks(c.b) && |random| == 32 && CH.Writable(c.f, pub, o) && Roomy(c)
    requires AnswersHello(c, o, s)
    requires HonestFlight(c, s, Msg(HS_CLIENT_HELLO, CH.HelloBody(c.f, random, pub, o)).Full(), st, leaf)
    ensures Run(c, CH.Serialize(c.f, random, pub, o), o, SH.Serialize(c.f, s.view, s.versionFirst), s.wire).Ok?
       <==> KeyFits(leaf.key)
    ensures var r := Run(c, CH.Serialize(c.f, random, pub, o), o, SH.Serialize(c.f, s.view, s.versionFirst), s.wire);
            r.Ok? ==> && r.value.state == st && r.value.buf == s.Plain() + s.after
                      && R.FlightBytes(r.value.buf) == Some(s.Plain())
  {
    hide CH.Serialize, SH.Serialize, CH.HelloBody, AnswerMsg, SF.EncodeMsgs, FinalizeAndFinish, Run, FlightArrives, Authentic,
         CheckWith, SH.ValidView, CH.Suites, ChainTrusted, KeyFits, AlwaysWorks, R.FlightMsgs, R.FlightBytes, Sized, Sound,
         CH.OptionsError;
    var hello := Msg(HS_CLIENT_HELLO, CH.HelloBody(c.f, random, pub, o)).Full();
    RunCollects(c, random, pub, o, s, st);
    FlightParts(c, s, hello, st);
    HonestFlightFinishes(c, s, hello + AnswerMsg(c.f, s.view, s.versionFirst), st, leaf, s.Plain() + s.after);
  }

  lemma FlightParts(c: Config, s: Server, hello: Bytes, st: WaitServerFlight)
    requires SH.ValidView(c.f, s.view) && FlightArrives(c, s, hello, st)
    ensures s.Framed() && LimitLegal(s) && RequestMet(c, s)
  {
  }

  /** In every run that completes, honest server or not, the trusted leaf's key fits. */
  lemma CompletedKeyFits(c: Config, hello: Bytes, o: CH.Options, record: Bytes, wire: seq<Bytes>)
    requires c.Valid() && Run(c, hello, o, record, wire).Ok?
    ensures var flight := R.FlightBytes(Run(c, hello, o, record, wire).value.buf);
            && flight.Some? && SF.ParseFlight(flight.value).Ok?
            && LeafOf(c, SF.ParseFlight(flight.value).value).Ok?
            && KeyFits(LeafOf(c, SF.ParseFlight(flight.value).value).value.key)
  {
    hide RecordBody, ReadHello, Collect, PeerLimit, R.FlightBytes, SF.ParseFlight, RequestOf, LeafOf, Respond, VerifyFlight,
         KeyFits;
  }

  // ---- On to application data ----

  /** The engine at the start of application data. */
  function Fresh(app: AppData): (st: E.State) {
    E.State(app.client, app.server, E.IDLE, false, [], [])
  }

  /**
   * From handshake to data: two endpoints that finished on the same transcript are in lockstep from
   * the first record on, so whatever legal script the server sends is delivered, exactly.
   */
  lemma ConnectedInLockstep(b: Backend, st: WaitServerFlight, t: Bytes, client: AppData, server: AppData,
                            limit: nat, room: nat, items: seq<L.Item>)
    requires GoodBackend(b) && L.NeverFails(b.kdf) && st.cipher in {b.aes, b.chacha}
    requires AppKeysAt(b, st, t, client) && AppKeysAt(b, st, t, server)
    requires L.AllLegal(limit, items) && room >= RecordLen(5)
    ensures var su := Ch.Suite(b.kdf, st.cipher);
            && Ch.Good(su) && server.server.Valid() && Fresh(client).Valid()
            && L.SendScript(su, limit, server.server, items).Ok?
            && var (records, end) := L.SendScript(su, limit, server.server, items).value;
               L.Locked(su, limit, room, Fresh(client), records, items, end)
  {
    hide AppKeys, L.SendScript, L.Locked, Sound, Sized, L.NeverFails, ApplicationState;
    AppKeysExactly(b.kdf, st.cipher, st.hs, b.kdf.hash(t).value, client);
    AppKeysExactly(b.kdf, st.cipher, st.hs, b.kdf.hash(t).value, server);
    L.ReceiverInLockstep(Ch.Suite(b.kdf, st.cipher), limit, room, Fresh(client), items);
  }
}
