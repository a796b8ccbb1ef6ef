/** A complete honest handshake, given out in full, that fails on its 3072-bit RSA leaf alone. */
module LargeModulus {
  import opened Bytes
  import opened Consts
  import opened Wire
  import opened Aead
  import opened KeySchedule
  import opened Features
  import opened FlightCheck
  import opened Handshake
  import opened WholeHandshake
  import CF = ClientFlight
  import CH = ClientHello
  import FR = FlightRecords
  import L = Lockstep
  import R = Reassembler
  import Rfc8446
  import SF = ServerFlight
  import SH = ServerHello

  const BUILD := Features(true, false, false, true, false, true, false, false)
  const ZERO_KDF := Kdf(_ => Some(Zeros(HASH_LEN)), (_, _) => Some(Zeros(HASH_LEN)), (_, _, n: nat) => Some(Zeros(n)))
  const PLAIN_CIPHER := Cipher(16, (_, _, _, p) => Sealed(p, Zeros(AEAD_TAG_LEN)), (_, _, _, x, _) => Some(x))
  const BACKEND := Backend.Backend(ZERO_KDF, PLAIN_CIPHER, PLAIN_CIPHER, (_, _) => Some(Zeros(32)))
  const LEAF := Leaf(RsaKey(Zeros(384), 65537), Prepared.Rsa((_, _) => true))
  const TRUST := Identity(_ => Some(LEAF.prepared), _ => Some(LEAF.key), (_, _) => true, _ => true)
  const CLIENT := Config(BUILD, BACKEND, CF.Rsa3072, CF.NoClientAuth, TRUST, 4, PROTO_MAX_INNER_PLAINTEXT,
                         0x4000, 0, FINISHED_RECORD)
  const OPTIONS := CH.Options(None, None, None, None, CH.Default, None, None)
  const VIEW := SH.View(Zeros(32), [], CIPHER_AES_128_GCM_SHA256,
                        SH.Selected(GROUP_X25519, Some(Zeros(32)), None, None))

  /** The server's messages: no extensions, one certificate, a one-byte signature and a zero MAC. */
  function Flight(chunks: seq<Bytes>, wire: seq<Bytes>): (s: Server)
    ensures s.Framed()
  {
    assert SF.EncodeEntries([SF.Entry([0x30], [])]) == Vec24([0x30]) + Vec16([]) + [] by {
      assert [SF.Entry([0x30], [])][1..] == [];
    }
    Server(VIEW, true, [], None, None, [], [SF.Entry([0x30], [])], U16(SIG_RSA_PSS) + Vec16([1]), Zeros(HASH_LEN),
           [], chunks, wire)
  }

  lemma ClientWorks()
    ensures CLIENT.Valid() && AlwaysWorks(BACKEND) && Roomy(CLIENT)
  {
    assert forall k, n, a, p :: PLAIN_CIPHER.seal(k, n, a, p) == Sealed(p, Zeros(AEAD_TAG_LEN));
  }

  lemma HelloWritable()
    ensures CH.Writable(BUILD, Zeros(32), OPTIONS)
  {
  }

  lemma ViewAnswers(s: Server)
    requires s.view == VIEW
    ensures AnswersHello(CLIENT, OPTIONS, s)
  {
    assert VIEW.random[24..][0] == 0 && VIEW.random[0] == 0;
    assert CIPHER_AES_128_GCM_SHA256 in CH.Suites(BUILD, OPTIONS.suites);
  }

  /** The flight is short. */
  lemma FlightIsShort(chunks: seq<Bytes>, wire: seq<Bytes>)
    ensures 0 < |Flight(chunks, wire).Plain()| < 200
    ensures Flight(chunks, wire).Plain() == Flight([], []).Plain()
  {
    hide U24, U16;
    var v := Flight(chunks, wire).Flight();
    assert |SF.EncodeEntries([SF.Entry([0x30], [])])| == 6 by {
      assert [SF.Entry([0x30], [])][1..] == [];
    }
    SF.ViewEncodes(v);
    SF.TailEncodes(v.cert, v.cv, v.fin);
  }

  lemma FlightAuthentic(s: Server, t: Bytes, st: WaitServerFlight)
    requires s == Flight(s.chunks, s.wire)
    ensures Authentic(ZERO_KDF, CheckWith(BUILD, LEAF.prepared), st.sHs, t, s.Plain(), s.Flight())
  {
    hide SF.EncodeMsgs, U16, U24, Vec24;
    var v := s.Flight();
    PrefixesAgree(t, s.Plain(), v);
    var t1 := t + s.Plain()[..|s.Plain()| - |v.fin.Full()| - |v.cv.Full()|];
    var t2 := t + s.Plain()[..|s.Plain()| - |v.fin.Full()|];
    SignatureFits(t1, v.cv.body);
    MacFits(st.sHs, t2);
  }

  lemma SignatureFits(t: Bytes, body: Bytes)
    requires body == U16(SIG_RSA_PSS) + Vec16([1])
    ensures SignatureOk(ZERO_KDF, CheckWith(BUILD, LEAF.prepared), t, body)
  {
    hide U16, Vec16, CF.SignedContent, Rfc8446.IsSignedContent;
    var check := CheckWith(BUILD, LEAF.prepared);
    var content := CF.SignedContent(CF.SERVER_CV_CTX, ZERO_KDF.hash(t).value);
    CF.SignedContentExactly(ZERO_KDF.hash(t).value, []);
    assert Rfc8446.IsSignedContent(content, Rfc8446.SERVER_CONTEXT, ZERO_KDF.hash(t).value);
    assert check(SIG_RSA_PSS, content, [1]).None?;
  }

  lemma MacFits(secret: Bytes, t: Bytes)
    ensures MacOk(ZERO_KDF, secret, t, Zeros(HASH_LEN))
  {
    ClientWorks();
    ExpandWorks(BACKEND, secret, Ascii("finished"), [], HASH_LEN);
    FinishedExactly(ZERO_KDF, secret, ZERO_KDF.hash(t).value, Zeros(HASH_LEN));
  }

  /** One record carries it. */
  lemma FlightSent(st: WaitServerFlight) returns (s: Server)
    requires st.cipher == PLAIN_CIPHER && |st.sHsKeys.iv| == 12
    ensures s == Flight(s.chunks, s.wire) && Sent(CLIENT, s, st)
  {
    FlightIsShort([], []);
    var plain := Flight([], []).Plain();
    var chunks := [plain];
    var wire := FR.Records(PLAIN_CIPHER, st.sHsKeys, chunks, 0);
    s := Flight(chunks, wire);
    FlightIsShort(chunks, wire);
    FlattenOne(plain);
    assert chunks[..0] == [] && plain + [] == plain;
    RecordIsNoCcs(st.sHsKeys, plain);
    assert wire == [SealRecord(PLAIN_CIPHER, st.sHsKeys, 0, plain, CT_HANDSHAKE)] by { assert chunks[1..] == []; }
    assert FR.DropCcs(wire) == wire by { assert wire[1..] == []; }
  }

  lemma RecordIsNoCcs(keys: RecordKeys, chunk: Bytes)
    requires |keys.iv| == 12 && |chunk| <= TLS_PLAINTEXT_MAX
    ensures !FR.IsCcs(SealRecord(PLAIN_CIPHER, keys, 0, chunk, CT_HANDSHAKE))
  {
    hide RecordNonce;
    assert SealRecord(PLAIN_CIPHER, keys, 0, chunk, CT_HANDSHAKE)[0] == CT_APPLICATION_DATA;
  }

  lemma KeysOf(hello: Bytes) returns (st: WaitServerFlight)
    ensures SH.ValidView(BUILD, VIEW) && ServerKeys(BUILD, BACKEND, hello, VIEW, true, st)
    ensures st.cipher == PLAIN_CIPHER && |st.sHsKeys.iv| == 12
  {
    hide HandshakeKeys, AnswerMsg, HandshakeState;
    ClientWorks();
    ViewAnswers(Flight([], []));
    HandshakeKeysWork(BACKEND, PLAIN_CIPHER, Zeros(32), Zeros(HASH_LEN));
    KeysKeepCipher(ZERO_KDF, PLAIN_CIPHER, Zeros(32), Zeros(HASH_LEN));
    st := HandshakeKeys(ZERO_KDF, PLAIN_CIPHER, Zeros(32), Zeros(HASH_LEN)).value;
    HandshakeKeysExactly(ZERO_KDF, PLAIN_CIPHER, Zeros(32), Zeros(HASH_LEN), st);
  }

  lemma Honest(hello: Bytes, s: Server, st: WaitServerFlight)
    requires s == Flight(s.chunks, s.wire) && Sent(CLIENT, s, st) && SH.ValidView(BUILD, VIEW)
    requires ServerKeys(BUILD, BACKEND, hello, VIEW, true, st)
    ensures HonestFlight(CLIENT, s, hello, st, LEAF)
  {
    hide ServerKeys, Authentic, Sent, AnswerMsg, CheckWith;
    FlightAuthentic(s, hello + AnswerMsg(BUILD, VIEW, true), st);
  }

  /**
   * A client, its options, a server and their keys: everything an honest handshake needs is there, the
   * leaf has a 3072-bit RSA key, and the run fails.
   */
  lemma LargeModulusFails() returns (hello: Bytes, s: Server, st: WaitServerFlight)
    ensures CLIENT.Valid() && AlwaysWorks(BACKEND) && CH.Writable(BUILD, Zeros(32), OPTIONS) && Roomy(CLIENT)
    ensures hello == Msg(HS_CLIENT_HELLO, CH.HelloBody(BUILD, Zeros(32), Zeros(32), OPTIONS)).Full()
    ensures AnswersHello(CLIENT, OPTIONS, s) && HonestFlight(CLIENT, s, hello, st, LEAF)
    ensures LEAF.key.RsaKey? && |LEAF.key.modulus| == 384
    ensures Run(CLIENT, CH.Serialize(BUILD, Zeros(32), Zeros(32), OPTIONS), OPTIONS,
                SH.Serialize(BUILD, s.view, s.versionFirst), s.wire).Err?
  {
    ClientWorks();
    HelloWritable();
    ViewAnswers(Flight([], []));
    hello := Msg(HS_CLIENT_HELLO, CH.HelloBody(BUILD, Zeros(32), Zeros(32), OPTIONS)).Full();
    st := KeysOf(hello);
    s := FlightSent(st);
    Honest(hello, s, st);
    HonestHandshakeCompletes(CLIENT, Zeros(32), Zeros(32), OPTIONS, s, st, LEAF);
  }
}
