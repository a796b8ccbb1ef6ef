/** The whole connection, both ends of it: an honest handshake and the conversation it opens. */
module EndToEnd {
  import opened Bytes
  import opened Consts
  import opened Wire
  import opened Aead
  import opened KeySchedule
  import opened Transcript
  import opened Features
  import opened FlightCheck
  import opened Handshake
  import opened WholeHandshake
  import CF = ClientFlight
  import CH = ClientHello
  import Ch = Channel
  import D = Duplex
  import E = Engine
  import FR = FlightRecords
  import L = Lockstep
  import R = Reassembler
  import Rfc8446
  import SF = ServerFlight
  import SH = ServerHello

  // ---- The server takes the answer ----

  /** The server opens the one record under the client's handshake keys and finds the right MAC. */
  ghost predicate TakesFinished(b: Backend, st: WaitServerFlight, t: Bytes, wire: Bytes) {
    && st.cipher.keyLen <= 32
    && exists key, iv ::
         && Rfc8446.TrafficKey(b.kdf.expand, st.cHs, st.cipher.keyLen, key, iv) && |iv| == 12
         && var inner := OpenAndSplit(st.cipher, RecordKeys(key, iv), 0, wire);
            inner.Ok? && inner.value.1 == 22 && CF.FinishedChecks(b.kdf, st.cHs, t, inner.value.0)
  }

  /** The server, reading the records with any ChangeCipherSpec among them, rebuilds a flight that passes its
      context, signature and MAC checks. */
  ghost predicate TakesFlight(c: Config, st: WaitServerFlight, t: Bytes, ctx: Bytes, wire: Bytes,
                              verify: (Bytes, nat, Bytes, Bytes) -> bool)
  {
    && st.cipher.keyLen <= 32
    && exists key, iv, records: seq<Bytes> ::
         && Rfc8446.TrafficKey(c.b.kdf.expand, st.cHs, st.cipher.keyLen, key, iv) && |iv| == 12 && Flatten(records) == wire
         && forall seen: seq<Bytes>, capacity: nat ::
              FR.DropCcs(seen) == records && capacity >= CF.MaxFlightLen(c.w, c.policy) ==>
                var fed := FR.FeedAll(st.cipher, RecordKeys(key, iv), capacity, FR.Feed(0, []), seen);
                fed.Ok? && CF.ServerAccepts(c.b.kdf, st.cHs, t, ctx, fed.value.buf, verify)
  }

  lemma PlainEndTaken(c: Config, st: WaitServerFlight, done: Done)
    requires c.Valid() && Sound(st.cipher) && st.cipher.keyLen <= HASH_LEN && PlainEnd(c, st, done)
    ensures TakesFinished(c.b, st, done.afterFlight, done.wire)
  {
    hide FinishedMac, TrafficKeys, SealRecord, OpenAndSplit, NextMsg, Vec24, Sized, Sound, Rfc8446.TrafficKey,
         Rfc8446.VerifyData;
    var keys := TrafficKeys(c.b.kdf, st.cipher.keyLen, st.cHs).value;
    TrafficKeysExactly(c.b.kdf, st.cipher.keyLen, st.cHs, keys);
    var fin := CF.FinishedMsg(FinishedMac(c.b.kdf, st.cHs, c.b.kdf.hash(done.afterFlight).value).value);
    RecordRoundTrip(st.cipher, keys, 0, fin.Full(), CT_HANDSHAKE);
    MsgReads(fin, []);
    assert fin.Full() + [] == fin.Full();
    FinishedExactly(c.b.kdf, st.cHs, c.b.kdf.hash(done.afterFlight).value, fin.body);
    assert RecordKeys(keys.key, keys.iv) == keys;
  }

  lemma PolicyEndTaken(c: Config, st: WaitServerFlight, v: SF.FlightView, done: Done,
                       verify: (Bytes, nat, Bytes, Bytes) -> bool)
    requires c.Valid() && v.Valid() && Sound(st.cipher) && FR.LegalLimit(done.limit) && PolicyEnd(c, st, v, done)
    requires st.cipher.keyLen <= HASH_LEN
    requires c.policy.WithClientAuth? ==> CF.Honest(c.policy.signer, verify)
    ensures TakesFlight(c, st, done.afterFlight, done.request.value.0, done.wire, verify)
  {
    hide TrafficKeys, CF.BuildFlight, FR.Chunks, FR.Records, FR.DropCcs, FR.FeedAll, CF.ServerAccepts, Sized, Sound, CF.Honest,
         SF.RequestParts, SF.SigAlgs, Flatten, Rfc8446.TrafficKey;
    var (ctx, algs) := done.request.value;
    var t := done.afterFlight;
    var keys := TrafficKeys(c.b.kdf, st.cipher.keyLen, st.cHs).value;
    var plain := CF.BuildFlight(c.b.kdf, c.w, c.policy, ctx, algs, st.cHs, t, c.scratch).value;
    var records := FR.Records(st.cipher, keys, FR.Chunks(plain, FR.MaxChunk(done.limit)), 0);
    forall seen: seq<Bytes>, capacity: nat | FR.DropCcs(seen) == records && capacity >= CF.MaxFlightLen(c.w, c.policy)
      ensures var fed := FR.FeedAll(st.cipher, keys, capacity, FR.Feed(0, []), seen);
              fed.Ok? && CF.ServerAccepts(c.b.kdf, st.cHs, t, ctx, fed.value.buf, verify)
    {
      FlightReachesServer(c.b.kdf, st.cipher, c.w, c.policy, ctx, algs, done.limit, keys, st.cHs, t, c.scratch, capacity,
                          verify, seen);
    }
    TrafficKeysExactly(c.b.kdf, st.cipher.keyLen, st.cHs, keys);
    assert RecordKeys(keys.key, keys.iv) == keys;
    assert Flatten(records) == done.wire;
  }

  // ---- Both ends open the conversation ----

  /** The server's engine at the start of application data. */
  function Peer(app: AppData): (st: E.State) {
    E.State(app.server, app.client, E.IDLE, false, [], [])
  }

  /** Under these keys every schedule of sends and deliveries runs and delivers exactly what was sent; it can still
      settle at its end. */
  ghost predicate Converses(net: D.Net, client: AppData, server: AppData, steps: seq<D.Step>)
    requires net.Valid() && D.AllStepsLegal(net, steps)
  {
    && Fresh(client).Valid() && Peer(server).Valid()
    && var end := D.Converse(net, D.System(Fresh(client), Peer(server), [], [], [], []), steps);
       end.Ok? && D.Faithful(end.value) && D.Inv(net, end.value)
  }

  /** Client and server that each derive application keys from one transcript are in step. */
  lemma KeysConverse(b: Backend, st: WaitServerFlight, t: Bytes, client: AppData, server: AppData, net: D.Net,
                     steps: seq<D.Step>)
    requires GoodBackend(b) && st.cipher in {b.aes, b.chacha} && AppKeysAt(b, st, t, client) && AppKeysAt(b, st, t, server)
    requires net.Valid() && net.su == Ch.Suite(b.kdf, st.cipher) && D.AllStepsLegal(net, steps)
    ensures Converses(net, client, server, steps)
  {
    hide AppKeys, Sound, Sized, L.NeverFails, D.Converse, D.Faithful, D.LegalStep, D.Inv, ApplicationState;
    AppSidesValid(b, st, t, client, server);
    var s := D.System(Fresh(client), Peer(server), [], [], [], []);
    D.OpeningHolds(net, s);
    D.Conversation(net, s, steps);
  }

  lemma AppSidesValid(b: Backend, st: WaitServerFlight, t: Bytes, client: AppData, server: AppData)
    requires GoodBackend(b) && AppKeysAt(b, st, t, client) && AppKeysAt(b, st, t, server)
    ensures client == server && Fresh(client).Valid() && Peer(server).Valid()
  {
    hide AppKeys, ApplicationState, Sound;
    AppKeysExactly(b.kdf, st.cipher, st.hs, b.kdf.hash(t).value, client);
    AppKeysExactly(b.kdf, st.cipher, st.hs, b.kdf.hash(t).value, server);
  }

  // ---- The whole connection ----

  lemma StateIsSound(f: Features, b: Backend, t: Bytes, v: SH.View, first: bool, st: WaitServerFlight)
    requires GoodBackend(b) && SH.ValidView(f, v) && ServerKeys(f, b, t, v, first, st)
    ensures st.cipher in {b.aes, b.chacha} && Sound(st.cipher)
  {
    hide SH.ValidView, AnswerMsg, Sized, Sound, Rfc8446.HandshakeSchedule, Rfc8446.TrafficKey;
  }

  /** The context answered is the one the server asked with. */
  lemma RequestContext(c: Config, st: WaitServerFlight, s: Server, done: Done)
    requires c.Valid() && s.Framed() && s.request.Some? && PolicyEnd(c, st, s.Flight(), done)
    ensures done.request.Some? && done.request.value.0 == s.request.value.0
  {
    hide SF.RequestParts, SF.SigAlgs, EncodeExts, Vec16, Vec8, Vec24, SF.EncodeEntries, CF.BuildFlight, FR.Chunks, FR.Records,
         TrafficKeys;
    SF.RequestReads(s.request.value.0, s.request.value.1);
  }

  /** The client's answer passes the server's checks, whichever the server asked for. */
  ghost predicate Taken(c: Config, st: WaitServerFlight, t: Bytes, s: Server, wire: Bytes,
                        verify: (Bytes, nat, Bytes, Bytes) -> bool) {
    match s.request
    case None => TakesFinished(c.b, st, t, wire)
    case Some((ctx, _)) => TakesFlight(c, st, t, ctx, wire, verify)
  }

  lemma AnswerTaken(c: Config, st: WaitServerFlight, s: Server, done: Done, verify: (Bytes, nat, Bytes, Bytes) -> bool)
    requires c.Valid() && s.Framed() && Sound(st.cipher) && st.cipher.keyLen <= HASH_LEN && FR.LegalLimit(done.limit)
    requires if s.Flight().request.None? then PlainEnd(c, st, done) else PolicyEnd(c, st, s.Flight(), done)
    requires c.policy.WithClientAuth? ==> CF.Honest(c.policy.signer, verify)
    ensures Taken(c, st, done.afterFlight, s, done.wire, verify)
  {
    hide TakesFinished, TakesFlight, PlainEnd, PolicyEnd, Sound, CF.Honest, EncodeExts, Vec16, Vec8, Vec24, SF.EncodeEntries;
    if s.request.None? {
      PlainEndTaken(c, st, done);
    } else {
      PolicyEndTaken(c, st, s.Flight(), done, verify);
      RequestContext(c, st, s, done);
    }
  }

  /**
   * From the first byte to the last. An honest server and a client whose key copy holds the leaf's key
   * complete the handshake over the transcript of every message sent; the server takes the client's answer;
   * the application keys are those of that transcript; and every conversation with a server that derives its
   * own from it, in both directions at once, delivers exactly what each side sends.
   */
  lemma Connection(c: Config, random: Bytes, pub: Bytes, o: CH.Options, s: Server, st: WaitServerFlight, leaf: Leaf,
                   verify: (Bytes, nat, Bytes, Bytes) -> bool, net: D.Net, steps: seq<D.Step>)
    requires c.Valid() && AlwaysWorks(c.b) && |random| == 32 && CH.Writable(c.f, pub, o) && Roomy(c)
    requires AnswersHello(c, o, s)
    requires HonestFlight(c, s, Msg(HS_CLIENT_HELLO, CH.HelloBody(c.f, random, pub, o)).Full(), st, leaf)
    requires KeyFits(leaf.key) && (c.policy.WithClientAuth? ==> CF.Honest(c.policy.signer, verify))
    requires net.Valid() && net.su == Ch.Suite(c.b.kdf, st.cipher) && D.AllStepsLegal(net, steps)
    ensures var r := Run(c, CH.Serialize(c.f, random, pub, o), o, SH.Serialize(c.f, s.view, s.versionFirst), s.wire);
            var t := Msg(HS_CLIENT_HELLO, CH.HelloBody(c.f, random, pub, o)).Full()
                     + AnswerMsg(c.f, s.view, s.versionFirst) + s.Plain();
            && r.Ok? && r.value.done.afterFlight == t && Taken(c, st, t, s, r.value.done.wire, verify)
            && AppKeysAt(c.b, st, t, r.value.done.app)
            && (forall server :: AppKeysAt(c.b, st, t, server) ==> Converses(net, r.value.done.app, server, steps))
  {
    hide CH.Serialize, SH.Serialize, CH.HelloBody, AnswerMsg, SF.EncodeMsgs, Run, CH.Suites, SH.ValidView, RecordBody,
         AlwaysWorks, KeyFits, Taken, R.FlightBytes, SF.ParseFlight, PlainEnd, PolicyEnd, LimitLegal, HandshakeKeysAt,
         RequestMet, ChainTrusted, ServerKeys, Sent, Authentic, Sized, Sound, CH.OptionsError, AppKeysAt, Converses, CF.Honest,
         D.LegalStep, L.NeverFails, EncodeExts, Vec16, Vec8, Vec24, SF.EncodeEntries, Roomy, FR.LegalLimit;
    var hello := Msg(HS_CLIENT_HELLO, CH.HelloBody(c.f, random, pub, o)).Full();
    var record := SH.Serialize(c.f, s.view, s.versionFirst);
    HonestHandshakeCompletes(c, random, pub, o, s, st, leaf);
    var x := Run(c, CH.Serialize(c.f, random, pub, o), o, record, s.wire).value;
    TranscriptIsTheWire(c, random, pub, o, record, s.wire, x);
    AnswerRecord(c.f, s.view, s.versionFirst);
    SF.ParseUndoesFlight(s.Flight());
    StateIsSound(c.f, c.b, hello, s.view, s.versionFirst, st);
    AnswerTaken(c, st, s, x.done, verify);
    forall server | AppKeysAt(c.b, st, x.done.afterFlight, server)
      ensures Converses(net, x.done.app, server, steps)
    {
      KeysConverse(c.b, st, x.done.afterFlight, x.done.app, server, net, steps);
    }
  }
}
