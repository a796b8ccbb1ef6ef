/** The handshake from ClientHello to application keys, with the transcript each step binds. */
module Handshake {
  import opened Bytes
  import opened Consts
  import opened Wire
  import opened Aead
  import opened KeySchedule
  import opened Transcript
  import opened Features
  import Ch = Channel
  import CF = ClientFlight
  import opened FlightCheck
  import CH = ClientHello
  import FR = FlightRecords
  import HW = HelloWriter
  import R = Reassembler
  import Rfc8446
  import SF = ServerFlight
  import SH = ServerHello

  datatype ConnectionError =
    | ClientHelloFailed(hello: CH.HelloError)
    | Parse(parse: SH.ParseError)
    | UnexpectedSuite(suite: nat)
    | TranscriptFailed
    | Hkdf(hkdf: HkdfError)
    | IncompleteFlight
    | Flight(flight: SF.FlightError)
    | ClientAuth(auth: CF.AuthError)
    | Encrypt(enc: EncryptError)

  // ---- Reading the ServerHello ----

  /** The backends: key derivation, the two ciphers, and the key agreement of the selected group. */
  datatype Backend = Backend(kdf: Kdf, aes: Cipher, chacha: Cipher, derive: (nat, Bytes) -> Option<Bytes>)

  ghost predicate GoodBackend(b: Backend) {
    && Sized(b.kdf) && Sound(b.aes) && Sound(b.chacha)
    && b.aes.keyLen <= HASH_LEN && b.chacha.keyLen <= HASH_LEN
  }

  datatype WaitServerFlight = WaitServerFlight(hs: Bytes, cHs: Bytes, sHs: Bytes, sHsKeys: RecordKeys, cipher: Cipher)

  /** The selected suite was in the list sent. */
  predicate Advertised(f: Features, suites: CH.SuiteList, suite: nat) {
    if f.aes && suite == CIPHER_AES_128_GCM_SHA256 then !f.chacha || !suites.ChaChaOnly?
    else f.chacha && suite == CIPHER_CHACHA20_POLY1305_SHA256 && !suites.AesOnly?
  }

  function Agree(derive: (nat, Bytes) -> Option<Bytes>, group: nat, share: Option<Bytes>)
    : (r: Result<Bytes, ConnectionError>)
  {
    match share
    case None => Err(Parse(SH.BadKeyShare))
    case Some(key) =>
      match derive(group, key)
      case None => Err(Parse(SH.DhAllZero))
      case Some(ikm) => Ok(ikm)
  }

  function SharedSecret(f: Features, b: Backend, s: SH.Selected): (r: Result<Bytes, ConnectionError>) {
    if f.p256 && s.group == GROUP_SECP256R1 then Agree(b.derive, s.group, s.p256Share)
    else if !f.x25519 then Err(Parse(SH.BadKeyShare))
    else if f.mlkem then Agree(b.derive, s.group, s.hybridShare)
    else Agree(b.derive, s.group, s.x25519Share)
  }

  function Lift<T>(r: Result<T, HkdfError>): (out: Result<T, ConnectionError>)
    ensures out.Ok? <==> r.Ok?
    ensures out.Ok? ==> out.value == r.value
    ensures out.Err? ==> out.error == Hkdf(r.error)
  {
    match r case Ok(x) => Ok(x) case Err(e) => Err(Hkdf(e))
  }

  /** The handshake secrets and the server's record keys at a transcript digest. */
  function HandshakeKeys(k: Kdf, cipher: Cipher, ikm: Bytes, digest: Bytes): (r: Result<WaitServerFlight, ConnectionError>)
    requires |digest| == HASH_LEN
  {
    var hs :- Lift(HandshakeSecret(k, ikm));
    var (c, s) :- Lift(HandshakeTrafficSecrets(k, hs, digest));
    var keys :- Lift(TrafficKeys(k, cipher.keyLen, s));
    Ok(WaitServerFlight(hs, c, s, keys, cipher))
  }

  /** The state section 7.1 of RFC 8446 gives for an agreed secret and the digest of both hellos. */
  ghost predicate HandshakeState(k: Kdf, cipher: Cipher, dhe: Bytes, digest: Bytes, st: WaitServerFlight)
    requires |digest| == 32 && cipher.keyLen <= 32
  {
    exists s :: && Rfc8446.HandshakeSchedule(k.extract, k.expand, dhe, digest, s)
                && st.hs == s.handshake && st.cHs == s.clientHandshake && st.sHs == s.serverHandshake
                && st.cipher == cipher
                && Rfc8446.TrafficKey(k.expand, s.serverHandshake, cipher.keyLen, st.sHsKeys.key, st.sHsKeys.iv)
  }

  lemma HandshakeKeysExactly(k: Kdf, cipher: Cipher, dhe: Bytes, digest: Bytes, st: WaitServerFlight)
    requires |digest| == HASH_LEN && cipher.keyLen <= HASH_LEN
    ensures HandshakeKeys(k, cipher, dhe, digest) == Ok(st) <==> HandshakeState(k, cipher, dhe, digest, st)
  {
    hide HandshakeTrafficSecrets, TrafficKeys, Rfc8446.HandshakeSchedule, Rfc8446.TrafficKey, DeriveSecret;
    TrafficKeysExactly(k, cipher.keyLen, st.sHs, st.sHsKeys);
    forall s
      ensures Rfc8446.HandshakeSchedule(k.extract, k.expand, dhe, digest, s) ==>
              && HandshakeSecret(k, dhe) == Ok(s.handshake)
              && HandshakeTrafficSecrets(k, s.handshake, digest) == Ok((s.clientHandshake, s.serverHandshake))
    {
      HandshakeScheduleExactly(k, dhe, digest, s);
    }
    if HandshakeKeys(k, cipher, dhe, digest) == Ok(st) {
      var early := Extract(k, Zeros(HASH_LEN), Zeros(HASH_LEN)).value;
      var salt := DeriveSecret(k, early, Ascii("derived"), EMPTY_TRANSCRIPT_HASH).value;
      var s := Rfc8446.Secrets(early, salt, st.hs, st.cHs, st.sHs, [], [], [], []);
      HandshakeScheduleExactly(k, dhe, digest, s);
      var pair := HandshakeTrafficSecrets(k, st.hs, digest).value;
      assert pair == (pair.0, pair.1);
      assert Rfc8446.HandshakeSchedule(k.extract, k.expand, dhe, digest, s);
    }
  }

  /** The ServerHello checks that do not touch the transcript. */
  function AnswerOf(f: Features, b: Backend, o: CH.Options, record: Bytes): (r: Result<(SH.View, Bytes), ConnectionError>) {
    match SH.Parse(f, record)
    case Err(e) => Err(Parse(e))
    case Ok(v) =>
      if v.sessionId != CH.SessionId(o) then Err(Parse(SH.UnexpectedSessionIdEcho))
      else if !Advertised(f, o.suites, v.suite) then Err(UnexpectedSuite(v.suite))
      else
        var ikm :- SharedSecret(f, b, v.selected);
        Ok((v, ikm))
  }

  function ReadHello(f: Features, b: Backend, o: CH.Options, t: Bytes, record: Bytes)
    : (r: Result<(Bytes, WaitServerFlight), ConnectionError>)
    requires GoodBackend(b)
  {
    var (v, ikm) :- AnswerOf(f, b, o, record);
    match RecordBody(record)
    case None => Err(TranscriptFailed)
    case Some(msg) =>
      match b.kdf.hash(t + msg)
      case None => Err(TranscriptFailed)
      case Some(digest) =>
        var cipher := if v.suite == CIPHER_AES_128_GCM_SHA256 then b.aes else b.chacha;
        var st :- HandshakeKeys(b.kdf, cipher, ikm, digest);
        Ok((t + msg, st))
  }

  /** An answer is refused for the first of: a session id that is not ours, a suite we did not send, a share the
      agreement rejects. */
  lemma AnswerRefused(f: Features, b: Backend, o: CH.Options, record: Bytes)
    requires f.Valid() && o.Typed(f) && SH.Parse(f, record).Ok?
    ensures var v := SH.Parse(f, record).value;
            && SH.SentKey(v.selected).Some?
            && AnswerOf(f, b, o, record)
               == if v.sessionId != CH.SessionId(o) then Err(Parse(SH.UnexpectedSessionIdEcho))
                  else if v.suite !in CH.Suites(f, o.suites) then Err(UnexpectedSuite(v.suite))
                  else match b.derive(v.selected.group, SH.SentKey(v.selected).value)
                       case None => Err(Parse(SH.DhAllZero))
                       case Some(dhe) => Ok((v, dhe))
  {
    hide SH.Parse, CH.Suites, Advertised, SH.ValidView, SH.Serialize, SH.Written, SharedSecret, SH.Genuine, SH.GenuineShare,
         SH.SentKey;
    var v := SH.Parse(f, record).value;
    SH.ParsedExactly(f, record, v);
    GenuineHasShare(f, v);
    AdvertisedExactly(f, o, v.suite);
    SecretOfShare(f, b, v.selected);
  }

  lemma GenuineHasShare(f: Features, v: SH.View)
    requires SH.Genuine(f, v)
    ensures SH.GenuineShare(f, v.selected) && SH.SentKey(v.selected).Some?
  {
  }

  lemma SecretOfShare(f: Features, b: Backend, s: SH.Selected)
    requires f.Valid() && SH.GenuineShare(f, s) && SH.SentKey(s).Some?
    ensures SharedSecret(f, b, s)
         == match b.derive(s.group, SH.SentKey(s).value)
            case None => Err(Parse(SH.DhAllZero))
            case Some(dhe) => Ok(dhe)
  {
  }

  /** A ServerHello is refused for its answer first, then for a hash that fails, and the transcript grows by its
      message. */
  lemma HelloRefused(f: Features, b: Backend, o: CH.Options, t: Bytes, record: Bytes)
    requires GoodBackend(b)
    ensures AnswerOf(f, b, o, record).Err? ==> ReadHello(f, b, o, t, record) == Err(AnswerOf(f, b, o, record).error)
    ensures AnswerOf(f, b, o, record).Ok? ==>
              && RecordBody(record).Some?
              && (b.kdf.hash(t + RecordBody(record).value).None? ==> ReadHello(f, b, o, t, record) == Err(TranscriptFailed))
  {
    hide HandshakeKeys, RecordBody, SH.Parse, SharedSecret, Advertised, Vec24;
    if AnswerOf(f, b, o, record).Ok? {
      AcceptedBody(f, record);
    }
  }

  /** The suite test is membership in the list the ClientHello carried. */
  lemma AdvertisedExactly(f: Features, o: CH.Options, suite: nat)
    requires f.Valid() && o.Typed(f)
    ensures Advertised(f, o.suites, suite) <==> suite in CH.Suites(f, o.suites)
  {
  }

  lemma SelectedOffered(f: Features, group: nat, key: Bytes)
    requires SH.SelectShare(f, group, key).Ok?
    ensures group in CH.Groups(f)
  {
  }

  /** An accepted record is one message, and that message is what it adds to the transcript. */
  lemma AcceptedBody(f: Features, record: Bytes)
    requires SH.Parse(f, record).Ok?
    ensures exists body :: |body| < 3000 && RecordBody(record) == Some(Msg(HS_SERVER_HELLO, body).Full())
  {
    hide SH.Parse, SH.Body, SH.ValidView, RecordBody, U16, Vec16, Vec24;
    var v := SH.Parse(f, record).value;
    SH.ParsedExactly(f, record, v);
    var first := record == SH.Serialize(f, v, true);
    var body := SH.Body(f, v, first);
    var msg := Msg(HS_SERVER_HELLO, body).Full();
    assert record == [CT_HANDSHAKE] + U16(LEGACY_VERSION) + Vec16(msg) + [];
    RecordBodyReads(CT_HANDSHAKE, LEGACY_VERSION, msg, []);
  }

  /**
   * A ServerHello that is accepted answers the ClientHello that was sent: decoded from the wire,
   * that message offers the selected suite and group and carries the echoed session id.
   */
  lemma HelloAnswersHello(f: Features, b: Backend, random: Bytes, pub: Bytes, o: CH.Options, t: Bytes, record: Bytes)
    requires GoodBackend(b) && |random| == 32 && CH.Writable(f, pub, o)
    requires ReadHello(f, b, o, t, record).Ok?
    ensures SH.Parse(f, record).Ok? && CH.Decode(CH.Serialize(f, random, pub, o)).Some?
    ensures var v, sent := SH.Parse(f, record).value, CH.Decode(CH.Serialize(f, random, pub, o)).value;
            && v.suite in sent.suites && v.selected.group in sent.groups && v.sessionId == sent.sessionId
            && RecordBody(record).Some? && ReadHello(f, b, o, t, record).value.0 == t + RecordBody(record).value
            && exists body :: |body| < 3000 && RecordBody(record) == Some(Msg(HS_SERVER_HELLO, body).Full())
  {
    hide SH.Parse, CH.Decode, CH.Serialize, CH.Suites, CH.Groups, CH.Schemes, CH.Shares, RecordBody, SharedSecret,
         HandshakeKeys, Advertised, SH.ValidView, SH.Serialize, CH.OptionsError, Sized, Sound, SH.Genuine, SH.Written,
         CH.Offers, CH.Order;
    var v := SH.Parse(f, record).value;
    CH.DecodeUndoesSerialize(f, random, pub, o);
    AdvertisedExactly(f, o, v.suite);
    SH.ParsedExactly(f, record, v);
    GroupOf(f, v);
    AcceptedBody(f, record);
  }

  lemma GroupOf(f: Features, v: SH.View)
    requires SH.ValidView(f, v)
    ensures v.selected.group in CH.Groups(f)
  {
    hide CH.Groups, SH.SelectShare;
    SelectedOffered(f, v.selected.group, SH.Key(v.selected));
  }

  // ---- The leaf's key ----

  datatype LeafKey =
    | Ed25519Key(pk: Bytes)
    | RsaKey(modulus: Bytes, exponent: nat)
    | MlDsaKey(pk: Bytes)
    | P256Key(pk: Bytes)
    | P384Key(pk: Bytes)

  const OWNED_MODULUS := 256
  const OWNED_MLDSA := 2592
  const P384_POINT := 97

  /** Whether the connection's own copy of the key can hold it: moduli up to 2048 bits only. */
  predicate KeyFits(k: LeafKey) {
    match k
    case Ed25519Key(_) => true
    case RsaKey(modulus, _) => |modulus| <= OWNED_MODULUS
    case MlDsaKey(pk) => |pk| <= OWNED_MLDSA
    case P256Key(pk) => |pk| == P256_SHARE
    case P384Key(pk) => |pk| == P384_POINT
  }

  /** Up to 256 bytes of RSA modulus and 2592 of ML-DSA key; uncompressed P-256 and P-384 points. */
  lemma KeyFitsExactly(k: LeafKey)
    ensures KeyFits(k) <==> match k
                            case Ed25519Key(_) => true
                            case RsaKey(modulus, _) => |modulus| * 8 <= 2048
                            case MlDsaKey(pk) => |pk| <= 2592
                            case P256Key(pk) => |pk| == 1 + 2 * 32
                            case P384Key(pk) => |pk| == 1 + 2 * 48
  {
  }

  function CheckWith(f: Features, p: Prepared): (check: CvCheck) {
    (scheme: nat, content: Bytes, sig: Bytes) => Dispatch(f, p, scheme, content, sig)
  }

  /** A complete flight, verified, its key kept: the transcript after it. */
  function Finalize(f: Features, k: Kdf, secret: Bytes, t: Bytes, buf: Bytes, matches: bool, p: Prepared, key: LeafKey)
    : (r: Result<Bytes, ConnectionError>)
  {
    if !matches then Err(Flight(SF.CertVerifyInvalid))
    else
      match R.FlightBytes(buf)
      case None => Err(IncompleteFlight)
      case Some(flight) =>
        match VerifyFlight(k, CheckWith(f, p), secret, t, flight)
        case Err(e) => Err(Flight(e))
        case Ok(t2) => if KeyFits(key) then Ok(t2) else Err(Flight(SF.InternalEncoding))
  }

  /** A flight is taken exactly when it is complete, authentic under the prepared verifier, and its key can be kept;
      the transcript then ends in it. */
  lemma FinalizedExactly(f: Features, k: Kdf, secret: Bytes, t: Bytes, buf: Bytes, matches: bool, p: Prepared, key: LeafKey,
                         t2: Bytes)
    ensures Finalize(f, k, secret, t, buf, matches, p, key) == Ok(t2) <==>
            && matches && KeyFits(key) && R.FlightBytes(buf).Some? && t2 == t + R.FlightBytes(buf).value
            && exists v :: Authentic(k, CheckWith(f, p), secret, t, R.FlightBytes(buf).value, v)
  {
    hide R.FlightBytes, VerifyFlight, CheckWith, Authentic, KeyFits;
    if R.FlightBytes(buf).Some? {
      VerifiedExactly(k, CheckWith(f, p), secret, t, R.FlightBytes(buf).value);
    }
  }

  // ---- Application keys ----

  datatype AppData = AppData(client: Ch.Side, server: Ch.Side)

  /** Application secrets and keys at the digest through the server's Finished. */
  function AppKeys(k: Kdf, cipher: Cipher, hs: Bytes, digest: Bytes): (r: Result<AppData, ConnectionError>)
    requires |digest| == HASH_LEN
    ensures Sized(k) && r.Ok? ==> r.value.client.Valid() && r.value.server.Valid()
  {
    var ms :- Lift(MasterSecret(k, hs));
    var (c, s) :- Lift(ApplicationTrafficSecrets(k, ms, digest));
    var ck :- Lift(TrafficKeys(k, cipher.keyLen, c));
    var sk :- Lift(TrafficKeys(k, cipher.keyLen, s));
    Ok(AppData(Ch.Side(c, ck, 0), Ch.Side(s, sk, 0)))
  }

  /** One direction at the start: a secret, its keys and the count at zero. */
  predicate Starts(k: Kdf, cipher: Cipher, secret: Bytes, side: Ch.Side)
    requires cipher.keyLen <= 32
  {
    && side.secret == secret && side.seqNo == 0
    && Rfc8446.TrafficKey(k.expand, secret, cipher.keyLen, side.keys.key, side.keys.iv)
  }

  /** The two directions section 7.1 gives for a handshake secret and the digest through the server's Finished:
      the client sends under its own application secret, the server under its own. */
  ghost predicate ApplicationState(k: Kdf, cipher: Cipher, hs: Bytes, digest: Bytes, app: AppData)
    requires |digest| == 32 && cipher.keyLen <= 32
  {
    exists s: Rfc8446.Secrets :: && s.handshake == hs && Rfc8446.ApplicationSchedule(k.extract, k.expand, digest, s)
                && Starts(k, cipher, s.clientApplication, app.client) && Starts(k, cipher, s.serverApplication, app.server)
  }

  lemma AppKeysExactly(k: Kdf, cipher: Cipher, hs: Bytes, digest: Bytes, app: AppData)
    requires |digest| == HASH_LEN && cipher.keyLen <= HASH_LEN
    ensures AppKeys(k, cipher, hs, digest) == Ok(app) <==> ApplicationState(k, cipher, hs, digest, app)
  {
    hide ApplicationTrafficSecrets, TrafficKeys, Rfc8446.ApplicationSchedule, Rfc8446.TrafficKey, DeriveSecret;
    TrafficKeysExactly(k, cipher.keyLen, app.client.secret, app.client.keys);
    TrafficKeysExactly(k, cipher.keyLen, app.server.secret, app.server.keys);
    forall s
      ensures Rfc8446.ApplicationSchedule(k.extract, k.expand, digest, s) ==>
              && MasterSecret(k, s.handshake) == Ok(s.master)
              && ApplicationTrafficSecrets(k, s.master, digest) == Ok((s.clientApplication, s.serverApplication))
    {
      ApplicationScheduleExactly(k, digest, s);
    }
    if AppKeys(k, cipher, hs, digest) == Ok(app) {
      var salt := DeriveSecret(k, hs, Ascii("derived"), EMPTY_TRANSCRIPT_HASH).value;
      var s := Rfc8446.Secrets([], [], hs, [], [], salt, MasterSecret(k, hs).value, app.client.secret, app.server.secret);
      ApplicationScheduleExactly(k, digest, s);
      var pair := ApplicationTrafficSecrets(k, s.master, digest).value;
      assert pair == (pair.0, pair.1);
      assert Rfc8446.ApplicationSchedule(k.extract, k.expand, digest, s);
    }
  }

  /** Finished alone, in one record under the client's handshake keys. */
  function Finish(k: Kdf, cipher: Cipher, hs: Bytes, cHs: Bytes, t: Bytes, room: nat)
    : (r: Result<(Bytes, AppData), ConnectionError>)
    requires Sized(k)
  {
    match k.hash(t)
    case None => Err(TranscriptFailed)
    case Some(digest) =>
      var mac :- Lift(FinishedMac(k, cHs, digest));
      var keys :- Lift(TrafficKeys(k, cipher.keyLen, cHs));
      var msg := CF.FinishedMsg(mac).Full();
      match SealError(|msg|, room)
      case Some(e) => Err(Encrypt(e))
      case None =>
        var app :- AppKeys(k, cipher, hs, digest);
        Ok((SealRecord(cipher, keys, 0, msg, CT_HANDSHAKE), app))
  }

  /** Finished needs a digest, and 58 bytes of room before the application keys are derived. */
  lemma FinishRefused(k: Kdf, cipher: Cipher, hs: Bytes, cHs: Bytes, t: Bytes, room: nat)
    requires Sized(k)
    ensures k.hash(t).None? ==> Finish(k, cipher, hs, cHs, t, room) == Err(TranscriptFailed)
    ensures k.hash(t).Some? && FinishedMac(k, cHs, k.hash(t).value).Ok? && TrafficKeys(k, cipher.keyLen, cHs).Ok? && room < 58 ==>
              Finish(k, cipher, hs, cHs, t, room) == Err(Encrypt(BufferTooSmall(58, room)))
  {
    hide FinishedMac, TrafficKeys, AppKeys, SealRecord, Vec24;
  }

  /** The policy's flight, cut to the peer's limit; the transcript moves on, the keys do not. */
  function FinishWithPolicy(k: Kdf, cipher: Cipher, w: CF.RsaWidth, p: CF.Policy, ctx: Bytes, sigAlgs: Bytes, rsl: nat,
                            hs: Bytes, cHs: Bytes, t: Bytes, scratch: nat, room: nat)
    : (r: Result<(Bytes, Bytes, AppData), ConnectionError>)
    requires Sized(k) && CF.PolicyTyped(w, p)
  {
    match k.hash(t)
    case None => Err(TranscriptFailed)
    case Some(digest) =>
      match CF.BuildFlight(k, w, p, ctx, sigAlgs, cHs, t, scratch)
      case Err(e) => Err(ClientAuth(e))
      case Ok(plain) =>
        var keys :- Lift(TrafficKeys(k, cipher.keyLen, cHs));
        var chunks := FR.Chunks(plain, FR.MaxChunk(rsl));
        match FR.FlightFailure(chunks, room)
        case Some(e) => Err(Encrypt(e))
        case None =>
          FR.NoFailureFits(chunks, room);
          var app :- AppKeys(k, cipher, hs, digest);
          Ok((Flatten(FR.Records(cipher, keys, chunks, 0)), t + plain, app))
  }

  /**
   * With the scratch and send buffers sized as the policy announces, a flight that is built is
   * always sent, under every legal limit of the peer.
   */
  lemma FlightAlwaysSent(k: Kdf, w: CF.RsaWidth, p: CF.Policy, ctx: Bytes, sigAlgs: Bytes, rsl: nat,
                         cHs: Bytes, t: Bytes, scratch: nat, room: nat)
    requires Sized(k) && CF.PolicyTyped(w, p) && FR.LegalLimit(rsl)
    requires scratch >= CF.MaxFlightLen(w, p) && room >= FR.ClientAuthSendFloor(CF.MaxFlightLen(w, p))
    ensures var r := CF.BuildFlight(k, w, p, ctx, sigAlgs, cHs, t, scratch);
            && r != Err(CF.BufferTooSmall)
            && (r.Ok? ==> FR.FlightFailure(FR.Chunks(r.value, FR.MaxChunk(rsl)), room).None?)
  {
    hide CF.BuildFlight, FR.FlightFailure, FR.Chunks;
    CF.FlightBounded(k, w, p, ctx, sigAlgs, cHs, t, scratch);
    var r := CF.BuildFlight(k, w, p, ctx, sigAlgs, cHs, t, scratch);
    if r.Ok? {
      FR.FloorSuffices(r.value, CF.MaxFlightLen(w, p), rsl, room);
    }
  }

  lemma HelloRecord(f: Features, random: Bytes, pub: Bytes, o: CH.Options)
    requires |random| == 32 && CH.Writable(f, pub, o)
    ensures RecordBody(CH.Serialize(f, random, pub, o))
         == Some(Msg(HS_CLIENT_HELLO, CH.HelloBody(f, random, pub, o)).Full())
  {
    hide RecordBody, CH.HelloBody, CH.Writable, U16, Vec16, Vec24;
    var hello := Msg(HS_CLIENT_HELLO, CH.HelloBody(f, random, pub, o)).Full();
    var wire := [CT_HANDSHAKE] + U16(LEGACY_VERSION) + Vec16(hello);
    assert CH.Serialize(f, random, pub, o) == wire == wire + [];
    RecordBodyReads(CT_HANDSHAKE, LEGACY_VERSION, hello, []);
  }

  lemma KeysKeepCipher(k: Kdf, cipher: Cipher, ikm: Bytes, digest: Bytes)
    requires |digest| == HASH_LEN
    ensures HandshakeKeys(k, cipher, ikm, digest).Ok? ==> HandshakeKeys(k, cipher, ikm, digest).value.cipher == cipher
    ensures Sized(k) && HandshakeKeys(k, cipher, ikm, digest).Ok? ==>
              |HandshakeKeys(k, cipher, ikm, digest).value.sHsKeys.iv| == IV_LEN
  {
  }

  // ---- What the server makes of it ----

  /** The one-record Finished opens under the client's handshake keys and carries the right MAC. */
  lemma FinishReachesServer(k: Kdf, cipher: Cipher, hs: Bytes, cHs: Bytes, t: Bytes, room: nat)
    requires Sized(k) && Sound(cipher) && Finish(k, cipher, hs, cHs, t, room).Ok?
    ensures TrafficKeys(k, cipher.keyLen, cHs).Ok?
    ensures var keys := TrafficKeys(k, cipher.keyLen, cHs).value;
            var got := OpenAndSplit(cipher, keys, 0, Finish(k, cipher, hs, cHs, t, room).value.0);
            got.Ok? && got.value.1 == CT_HANDSHAKE && CF.FinishedChecks(k, cHs, t, got.value.0)
  {
    hide AppKeys, FinishedMac, TrafficKeys, SealRecord, OpenAndSplit, NextMsg, Vec24;
    var digest := k.hash(t).value;
    var fin := CF.FinishedMsg(FinishedMac(k, cHs, digest).value);
    RecordRoundTrip(cipher, TrafficKeys(k, cipher.keyLen, cHs).value, 0, fin.Full(), CT_HANDSHAKE);
    MsgReads(fin, []);
    assert fin.Full() + [] == fin.Full();
    FinishedExactly(k, cHs, digest, fin.body);
  }

  /**
   * The policy's records, with any ChangeCipherSpec among them, rebuild at the server a flight that
   * passes its context, signature and MAC checks.
   */
  lemma FlightReachesServer(k: Kdf, cipher: Cipher, w: CF.RsaWidth, p: CF.Policy, ctx: Bytes, sigAlgs: Bytes, rsl: nat,
                            keys: RecordKeys, cHs: Bytes, t: Bytes, scratch: nat, capacity: nat,
                            verify: (Bytes, nat, Bytes, Bytes) -> bool, wire: seq<Bytes>)
    requires Sized(k) && Sound(cipher) && CF.PolicyTyped(w, p) && FR.LegalLimit(rsl) && |keys.iv| == 12
    requires p.WithClientAuth? ==> CF.Honest(p.signer, verify)
    requires capacity >= CF.MaxFlightLen(w, p)
    requires var r := CF.BuildFlight(k, w, p, ctx, sigAlgs, cHs, t, scratch);
             && r.Ok? && FR.AllFit(FR.Chunks(r.value, FR.MaxChunk(rsl)))
             && FR.DropCcs(wire) == FR.Records(cipher, keys, FR.Chunks(r.value, FR.MaxChunk(rsl)), 0)
    ensures var fed := FR.FeedAll(cipher, keys, capacity, FR.Feed(0, []), wire);
            && fed.Ok? && CF.ServerAccepts(k, cHs, t, ctx, fed.value.buf, verify)
            && fed.value.seqIn == FR.DivCeil(|fed.value.buf|, FR.MaxChunk(rsl))
  {
    hide CF.BuildFlight, CF.ServerAccepts, FR.FeedAll, FR.Records, FR.Chunks, FR.DropCcs, FR.DivCeil, Sized, Sound, CF.Honest;
    var plain := CF.BuildFlight(k, w, p, ctx, sigAlgs, cHs, t, scratch).value;
    CF.FlightBounded(k, w, p, ctx, sigAlgs, cHs, t, scratch);
    CF.FlightAccepted(k, w, p, ctx, sigAlgs, cHs, t, scratch, verify);
    FR.FlightRoundTrip(cipher, keys, capacity, plain, rsl, wire);
  }

  // ---- The connection, step by step ----

  function HelloScratch(f: Features): (n: nat) {
    if f.mlkem then 2048 else 768
  }

  datatype Stage =
    | Init
    | WaitHello(o: CH.Options)
    | WaitFlight(st: WaitServerFlight)
    | FlightDone(hs: Bytes, cHs: Bytes, cipher: Cipher)
    | Connected(app: AppData)

  /** The connection before application data; each step needs the stage its predecessor left. */
  class Connecting {
    const f: Features
    const b: Backend
    const transcript: TranscriptHash
    var stage: Stage

    ghost predicate Valid()
      reads this
    {
      && f.Valid() && GoodBackend(b) && transcript.kdf == b.kdf
      && (stage.WaitFlight? ==> stage.st.cipher in {b.aes, b.chacha} && |stage.st.sHsKeys.iv| == IV_LEN)
      && (stage.FlightDone? ==> stage.cipher in {b.aes, b.chacha})
    }

    constructor (f: Features, b: Backend)
      requires f.Valid() && GoodBackend(b)
      ensures Valid() && this.f == f && this.b == b && stage == Init && transcript.fed == [] && fresh(transcript)
    {
      this.f := f;
      this.b := b;
      this.transcript := new TranscriptHash(b.kdf);
      this.stage := Init;
    }

    /** Into a scratch first, then out, then, without its header, into the transcript. */
    method WriteClientHello(random: Bytes, pub: Bytes, o: CH.Options, out: HW.Sink)
      returns (r: Result<Bytes, ConnectionError>)
      requires Valid() && stage == Init && o.Typed(f) && |random| == 32 && |pub| == CH.PrimaryPubLen(f) && out.Valid()
      modifies this`stage, transcript, out
      ensures Valid() && out.Valid()
      ensures r.Ok? <==>
        && CH.OptionsError(f, o).None? && CH.KeysPresent(f, o) && CH.ClientHelloLen(f, o) <= HelloScratch(f)
        && |old(out.buf)| + CH.ClientHelloLen(f, o) <= out.capacity
      ensures r.Ok? ==>
        && r.value == CH.Serialize(f, random, pub, o) && out.buf == old(out.buf) + r.value
        && stage == WaitHello(o)
        && transcript.fed == old(transcript.fed) + Msg(HS_CLIENT_HELLO, CH.HelloBody(f, random, pub, o)).Full()
      ensures r.Err? ==> transcript.fed == old(transcript.fed) && stage == Init
      ensures CH.OptionsError(f, o).Some? ==> r == Err(ClientHelloFailed(CH.OptionsError(f, o).value))
    {
      hide CH.OptionsError, CH.Serialize, CH.ClientHelloLen, CH.HelloBody, RecordBody, Sized, Sound;
      var scratch := new HW.Sink(HelloScratch(f));
      var n := HW.WriteClientHello(f, random, pub, o, scratch);
      NoSuchOptionsError(f, o);
      if n.Err? {
        return Err(ClientHelloFailed(if n.error == CH.Full then CH.MessageTooLong else n.error));
      }
      var record := scratch.buf;
      assert record == CH.Serialize(f, random, pub, o);
      HelloRecord(f, random, pub, o);
      var written := out.WriteAll(record);
      if written.Err? {
        return Err(ClientHelloFailed(written.error));
      }
      var ok := transcript.UpdateRecord(record);
      stage := WaitHello(o);
      return Ok(record);
    }

    method ReadServerHello(record: Bytes) returns (r: Result<(), ConnectionError>)
      requires Valid() && stage.WaitHello?
      modifies this`stage, transcript
      ensures Valid()
      ensures var spec := ReadHello(f, b, old(stage).o, old(transcript.fed), record);
              && (spec.Err? ==> r == Err(spec.error))
              && (spec.Ok? ==> r == Ok(()) && transcript.fed == spec.value.0 && stage == WaitFlight(spec.value.1))
    {
      hide SH.Parse, RecordBody, SharedSecret, Advertised, HandshakeKeys;
      var parsed := SH.ParseServerHello(f, record);
      if parsed.Err? {
        return Err(Parse(parsed.error));
      }
      var v := parsed.value;
      if v.sessionId != CH.SessionId(stage.o) {
        return Err(Parse(SH.UnexpectedSessionIdEcho));
      }
      if !Advertised(f, stage.o.suites, v.suite) {
        return Err(UnexpectedSuite(v.suite));
      }
      var ikm := SharedSecret(f, b, v.selected);
      if ikm.Err? {
        return Err(ikm.error);
      }
      var ok := transcript.UpdateRecord(record);
      if !ok {
        return Err(TranscriptFailed);
      }
      var digest := transcript.Snapshot();
      if digest.None? {
        return Err(TranscriptFailed);
      }
      var cipher := if v.suite == CIPHER_AES_128_GCM_SHA256 then b.aes else b.chacha;
      KeysKeepCipher(b.kdf, cipher, ikm.value, digest.value);
      var st := HandshakeKeys(b.kdf, cipher, ikm.value, digest.value);
      if st.Err? {
        return Err(st.error);
      }
      stage := WaitFlight(st.value);
      return Ok(());
    }

    /** `matches` says whether the prepared verifier belongs to the leaf certificate. */
    method FinalizeServerFlight(reassembler: R.ServerFlightReassembler, matches: bool, p: Prepared, key: LeafKey)
      returns (r: Result<(), ConnectionError>)
      requires Valid() && stage.WaitFlight?
      modifies this`stage, transcript
      ensures Valid()
      ensures var spec := Finalize(f, b.kdf, old(stage).st.sHs, old(transcript.fed), reassembler.buf, matches, p, key);
              && (spec.Err? ==> r == Err(spec.error))
              && (spec.Ok? ==> && r == Ok(())
                               && transcript.fed == spec.value
                               && stage == FlightDone(old(stage).st.hs, old(stage).st.cHs, old(stage).st.cipher))
    {
      hide VerifyFlight, R.FlightBytes, Sized, Sound, CheckWith;
      if !matches {
        return Err(Flight(SF.CertVerifyInvalid));
      }
      var plain := reassembler.GetFlightBytes();
      if plain.None? {
        return Err(IncompleteFlight);
      }
      var verified := VerifyServerFlight(b.kdf, CheckWith(f, p), stage.st.sHs, transcript, plain.value);
      if verified.Err? {
        return Err(Flight(verified.error));
      }
      if !KeyFits(key) {
        return Err(Flight(SF.InternalEncoding));
      }
      stage := FlightDone(stage.st.hs, stage.st.cHs, stage.st.cipher);
      return Ok(());
    }

    /** Without client authentication: Finished in one record. The transcript is not moved on. */
    method FinishHandshake(out: array<Byte>) returns (r: Result<nat, ConnectionError>)
      requires Valid() && stage.FlightDone?
      modifies this`stage, out
      ensures Valid()
      ensures var spec := Finish(b.kdf, old(stage).cipher, old(stage).hs, old(stage).cHs, transcript.fed, out.Length);
              && (spec.Err? ==> r == Err(spec.error))
              && (spec.Ok? ==> r == Ok(|spec.value.0|) && |spec.value.0| <= out.Length
                               && out[..|spec.value.0|] == spec.value.0 && stage == Connected(spec.value.1))
    {
      hide FinishedMac, AppKeys, SealRecord, TrafficKeys, Splice;
      var digest := transcript.Snapshot();
      if digest.None? {
        return Err(TranscriptFailed);
      }
      var mac := FinishedMac(b.kdf, stage.cHs, digest.value);
      if mac.Err? {
        return Err(Hkdf(mac.error));
      }
      var keys := TrafficKeys(b.kdf, stage.cipher.keyLen, stage.cHs);
      if keys.Err? {
        return Err(Hkdf(keys.error));
      }
      ghost var before := out[..];
      var n := EncryptRecord(stage.cipher, keys.value, CF.FinishedMsg(mac.value).Full(), CT_HANDSHAKE, 0, out, 0);
      if n.Err? {
        return Err(Encrypt(n.error));
      }
      ghost var record := SealRecord(stage.cipher, keys.value, 0, CF.FinishedMsg(mac.value).Full(), CT_HANDSHAKE);
      FR.SpliceExtends(before, out[..], 0, record);
      assert out[..n.value] == record;
      var app := AppKeys(b.kdf, stage.cipher, stage.hs, digest.value);
      if app.Err? {
        return Err(app.error);
      }
      stage := Connected(app.value);
      return Ok(n.value);
    }

    /** With a policy: its flight in records cut to the peer's limit. */
    method FinishHandshakeWithPolicy(w: CF.RsaWidth, p: CF.Policy, ctx: Bytes, sigAlgs: Bytes, rsl: nat,
                                     scratch: array<Byte>, out: array<Byte>)
      returns (r: Result<nat, ConnectionError>)
      requires Valid() && stage.FlightDone? && CF.PolicyTyped(w, p) && rsl < 0x1_0000 && scratch != out
      requires scratch.Length < TWO64
      modifies this`stage, transcript, scratch, out
      ensures Valid()
      ensures var spec := FinishWithPolicy(b.kdf, old(stage).cipher, w, p, ctx, sigAlgs, rsl, old(stage).hs,
                                           old(stage).cHs, old(transcript.fed), scratch.Length, out.Length);
              && (spec.Err? ==> r == Err(spec.error))
              && (spec.Ok? ==> r == Ok(|spec.value.0|) && |spec.value.0| <= out.Length
                               && out[..|spec.value.0|] == spec.value.0
                               && transcript.fed == spec.value.1 && stage == Connected(spec.value.2))
    {
      hide FinishedMac, AppKeys, TrafficKeys, CF.BuildFlight, FR.Chunks, FR.Records, FR.FlightFailure, Sound, Sized;
      DigestSized(b);
      var digest := transcript.Snapshot();
      if digest.None? {
        return Err(TranscriptFailed);
      }
      assert |digest.value| == HASH_LEN;
      ghost var t := transcript.fed;
      var built := CF.BuildClientFlight(b.kdf, w, p, ctx, sigAlgs, stage.cHs, transcript, scratch);
      if built.Err? {
        return Err(ClientAuth(built.error));
      }
      var plain := scratch[..built.value];
      var keys := TrafficKeys(b.kdf, stage.cipher.keyLen, stage.cHs);
      if keys.Err? {
        return Err(Hkdf(keys.error));
      }
      var n := FR.EncryptHandshakeFlight(stage.cipher, keys.value, plain, rsl, out);
      if n.Err? {
        return Err(Encrypt(n.error));
      }
      var app := AppKeys(b.kdf, stage.cipher, stage.hs, digest.value);
      if app.Err? {
        return Err(app.error);
      }
      stage := Connected(app.value);
      return Ok(n.value);
    }
  }

  /**
   * Two connections at the same stage with the same transcript, one finished plainly and one through
   * a policy that moves its transcript on: the same application state.
   */
  method SameApplicationKeys(one: Connecting, other: Connecting, w: CF.RsaWidth, p: CF.Policy, ctx: Bytes, sigAlgs: Bytes,
                             rsl: nat, scratch: array<Byte>, out1: array<Byte>, out2: array<Byte>)
    returns (r1: Result<nat, ConnectionError>, r2: Result<nat, ConnectionError>)
    requires one != other && one.transcript != other.transcript && one.b == other.b
    requires one.Valid() && other.Valid() && one.stage.FlightDone? && one.stage == other.stage
    requires one.transcript.fed == other.transcript.fed && CF.PolicyTyped(w, p) && rsl < 0x1_0000
    requires scratch != out2 && scratch.Length < TWO64
    modifies one`stage, out1, other`stage, other.transcript, scratch, out2
    ensures r1.Ok? && r2.Ok? ==> one.stage == other.stage
    ensures r1.Ok? ==> one.transcript.fed == old(one.transcript.fed)
    ensures r2.Ok? ==> |other.transcript.fed| > |old(other.transcript.fed)|
  {
    hide AppKeys, CF.BuildFlight, FR.FlightFailure, FR.Chunks, FR.Records, FinishedMac, TrafficKeys, SealRecord, Sized, Sound;
    r1 := one.FinishHandshake(out1);
    CF.FlightBounded(other.b.kdf, w, p, ctx, sigAlgs, other.stage.cHs, other.transcript.fed, scratch.Length);
    r2 := other.FinishHandshakeWithPolicy(w, p, ctx, sigAlgs, rsl, scratch, out2);
  }

  lemma DigestSized(b: Backend)
    requires GoodBackend(b)
    ensures forall m :: b.kdf.hash(m).Some? ==> |b.kdf.hash(m).value| == HASH_LEN
  {
  }

  lemma NoSuchOptionsError(f: Features, o: CH.Options)
    ensures CH.OptionsError(f, o).Some? ==> CH.OptionsError(f, o).value != CH.Full
  {
  }
}
