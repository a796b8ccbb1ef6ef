/** Verifying the server flight: the two checks, each at its own transcript prefix. */
module FlightCheck {
  import opened Bytes
  import opened Consts
  import opened Wire
  import opened KeySchedule
  import opened Transcript
  import opened Features
  import CF = ClientFlight
  import CH = ClientHello
  import R = Rfc8446
  import SF = ServerFlight

  // ---- Signature schemes ----

  const ED25519_SIG := 64
  const MLDSA44_SIG := 2420
  const MLDSA65_SIG := 3309
  const MLDSA87_SIG := 4627

  /** A verifier prepared from the leaf's key: `verify(content, signature)`. */
  datatype Prepared =
    | Ed25519(verify: (Bytes, Bytes) -> bool)
    | Rsa(verify: (Bytes, Bytes) -> bool)
    | MlDsa(verify: (Bytes, Bytes) -> bool)
    | EcdsaP256(verify: (Bytes, Bytes) -> bool)
    | EcdsaP384(verify: (Bytes, Bytes) -> bool)

  /** The scheme a CertificateVerify names has to be one of the prepared key's own. */
  function Dispatch(f: Features, p: Prepared, scheme: nat, content: Bytes, sig: Bytes): (e: Option<SF.FlightError>) {
    if scheme == SIG_ED25519 && p.Ed25519? then
      if |sig| != ED25519_SIG then Some(SF.WrongSignatureLength) else Verdict(p, content, sig)
    else if f.rsa && scheme == SIG_RSA_PSS && p.Rsa? then Verdict(p, content, sig)
    else if f.mldsa && scheme in [SIG_MLDSA44, SIG_MLDSA65, SIG_MLDSA87] && p.MlDsa? then
      var expected := if scheme == SIG_MLDSA44 then MLDSA44_SIG else if scheme == SIG_MLDSA65 then MLDSA65_SIG else MLDSA87_SIG;
      if |sig| != expected then Some(SF.UnexpectedSignatureScheme(scheme)) else Verdict(p, content, sig)
    else if f.ecdsa && scheme == SIG_ECDSA_P256 && p.EcdsaP256? then Verdict(p, content, sig)
    else if f.ecdsa && scheme == SIG_ECDSA_P384 && p.EcdsaP384? then Verdict(p, content, sig)
    else Some(SF.UnexpectedSignatureScheme(scheme))
  }

  function Verdict(p: Prepared, content: Bytes, sig: Bytes): (e: Option<SF.FlightError>) {
    if p.verify(content, sig) then None else Some(SF.CertVerifyInvalid)
  }

  /** The (scheme, signature length) pairs a key may answer with; `None` is any length. */
  function SchemesOf(f: Features, p: Prepared): (m: map<nat, Option<nat>>) {
    match p
    case Ed25519(_) => map[0x0807 := Some(64)]
    case Rsa(_) => if f.rsa then map[0x0804 := None] else map[]
    case MlDsa(_) => if f.mldsa then map[0x0904 := Some(2420), 0x0905 := Some(3309), 0x0906 := Some(4627)] else map[]
    case EcdsaP256(_) => if f.ecdsa then map[0x0403 := None] else map[]
    case EcdsaP384(_) => if f.ecdsa then map[0x0503 := None] else map[]
  }

  /** A signature passes exactly under a scheme and length of its own key family, when it verifies; and
      every scheme that can pass is one the ClientHello offers. */
  lemma DispatchExactly(f: Features, p: Prepared, scheme: nat, content: Bytes, sig: Bytes)
    ensures Dispatch(f, p, scheme, content, sig).None? <==>
            && scheme in SchemesOf(f, p)
            && (SchemesOf(f, p)[scheme].Some? ==> SchemesOf(f, p)[scheme].value == |sig|)
            && p.verify(content, sig)
    ensures scheme in SchemesOf(f, p) ==> scheme in CH.Schemes(f)
    ensures scheme !in SchemesOf(f, p) ==> Dispatch(f, p, scheme, content, sig) == Some(SF.UnexpectedSignatureScheme(scheme))
    ensures scheme in SchemesOf(f, p) && SchemesOf(f, p)[scheme].Some? && SchemesOf(f, p)[scheme].value != |sig| ==>
            Dispatch(f, p, scheme, content, sig)
              == Some(if scheme == 0x0807 then SF.WrongSignatureLength else SF.UnexpectedSignatureScheme(scheme))
    ensures Dispatch(f, p, scheme, content, sig) == Some(SF.CertVerifyInvalid) <==>
            && scheme in SchemesOf(f, p)
            && (SchemesOf(f, p)[scheme].Some? ==> SchemesOf(f, p)[scheme].value == |sig|)
            && !p.verify(content, sig)
  {
    if p.Rsa? || p.EcdsaP256? || p.EcdsaP384? || p.Ed25519? {
      assert CH.Schemes(f)[0] == SIG_ED25519;
    }
  }

  // ---- Verifying the server flight ----

  /** The error, if any, for a scheme, a signed content and a signature. */
  type CvCheck = (nat, Bytes, Bytes) -> Option<SF.FlightError>

  function CvError(check: CvCheck, digest: Bytes, body: Bytes): (e: Option<SF.FlightError>) {
    if |body| < 4 then Some(SF.Truncated)
    else if |body| - 4 != GetU16(body, 2) then Some(SF.TrailingBytes)
    else check(GetU16(body, 0), CF.SignedContent(CF.SERVER_CV_CTX, digest), body[4..])
  }

  function FinError(k: Kdf, secret: Bytes, digest: Bytes, body: Bytes): (e: Option<SF.FlightError>) {
    if |body| != HASH_LEN then Some(SF.FinishedWrongLength)
    else
      match FinishedMac(k, secret, digest)
      case Err(_) => Some(SF.HkdfLabel)
      case Ok(mac) => if mac == body then None else Some(SF.FinishedMacInvalid)
  }

  /** The transcript through the server's Certificate. */
  function ThroughCert(t: Bytes, v: SF.FlightView): (b: Bytes)
    requires v.Valid()
  {
    t + Head(v)
  }

  /** EncryptedExtensions, the optional CertificateRequest, Certificate. */
  function Head(v: SF.FlightView): (b: Bytes)
    requires v.Valid()
  {
    v.ee.Full() + (if v.request.Some? then v.request.value.Full() else []) + v.cert.Full()
  }

  function CheckFlight(k: Kdf, check: CvCheck, secret: Bytes, t: Bytes, v: SF.FlightView)
    : (r: Result<Bytes, SF.FlightError>)
    requires v.Valid()
  {
    var t1 := ThroughCert(t, v);
    match k.hash(t1)
    case None => Err(SF.TranscriptBackend)
    case Some(d1) =>
      match CvError(check, d1, v.cv.body)
      case Some(e) => Err(e)
      case None =>
        var t2 := t1 + v.cv.Full();
        match k.hash(t2)
        case None => Err(SF.TranscriptBackend)
        case Some(d2) =>
          match FinError(k, secret, d2, v.fin.body)
          case Some(e) => Err(e)
          case None => Ok(t2 + v.fin.Full())
  }

  function VerifyFlight(k: Kdf, check: CvCheck, secret: Bytes, t: Bytes, plain: Bytes)
    : (r: Result<Bytes, SF.FlightError>)
  {
    var v :- SF.ParseFlight(plain);
    SF.ParsedExactly(plain, v);
    CheckFlight(k, check, secret, t, v)
  }

  method VerifyServerFlight(k: Kdf, check: CvCheck, secret: Bytes, transcript: TranscriptHash, plain: Bytes)
    returns (r: Result<(), SF.FlightError>)
    requires transcript.kdf == k
    modifies transcript
    ensures var spec := VerifyFlight(k, check, secret, old(transcript.fed), plain);
            && (spec.Err? ==> r == Err(spec.error))
            && (spec.Ok? ==> r == Ok(()) && transcript.fed == spec.value)
  {
    hide SF.ParseFlight, CvError, FinError, Vec24;
    var flight := SF.ParseServerFlight(plain);
    if flight.Err? {
      return Err(flight.error);
    }
    var v := flight.value;
    SF.ParsedExactly(plain, v);
    ghost var t := transcript.fed;
    transcript.Update(v.ee.Full());
    if v.request.Some? {
      transcript.Update(v.request.value.Full());
    }
    transcript.Update(v.cert.Full());
    assert transcript.fed == ThroughCert(t, v);
    var d1 := transcript.Snapshot();
    if d1.None? {
      return Err(SF.TranscriptBackend);
    }
    var e1 := CvError(check, d1.value, v.cv.body);
    if e1.Some? {
      return Err(e1.value);
    }
    transcript.Update(v.cv.Full());
    var d2 := transcript.Snapshot();
    if d2.None? {
      return Err(SF.TranscriptBackend);
    }
    var e2 := FinError(k, secret, d2.value, v.fin.body);
    if e2.Some? {
      return Err(e2.value);
    }
    transcript.Update(v.fin.Full());
    return Ok(());
  }

  /** The signature covers the transcript through Certificate. */
  ghost predicate SignatureOk(k: Kdf, check: CvCheck, t: Bytes, body: Bytes) {
    && k.hash(t).Some?
    && exists scheme: nat, sig: Bytes, content: Bytes ::
         && scheme < 0x1_0000 && |sig| < 0x1_0000 && body == U16(scheme) + Vec16(sig)
         && R.IsSignedContent(content, R.SERVER_CONTEXT, k.hash(t).value) && check(scheme, content, sig).None?
  }

  /** The MAC covers the transcript through CertificateVerify. */
  ghost predicate MacOk(k: Kdf, secret: Bytes, t: Bytes, body: Bytes) {
    |body| == 32 && k.hash(t).Some? && R.VerifyData(k.extract, k.expand, secret, k.hash(t).value, body)
  }

  /** An authentic flight: its messages in order, each check at its own prefix. */
  ghost predicate Authentic(k: Kdf, check: CvCheck, secret: Bytes, t: Bytes, plain: Bytes, v: SF.FlightView) {
    && v.Valid() && SF.EncodeMsgs(v.Messages()) == plain
    && |v.fin.Full()| <= |v.cv.Full()| + |v.fin.Full()| <= |plain|
    && SignatureOk(k, check, t + plain[..|plain| - |v.fin.Full()| - |v.cv.Full()|], v.cv.body)
    && MacOk(k, secret, t + plain[..|plain| - |v.fin.Full()|], v.fin.body)
  }

  lemma CvExactly(k: Kdf, check: CvCheck, t: Bytes, body: Bytes)
    requires k.hash(t).Some?
    ensures CvError(check, k.hash(t).value, body).None? <==> SignatureOk(k, check, t, body)
  {
    hide CF.SignedContent, GetU16, U16, Vec16, R.IsSignedContent;
    var content := CF.SignedContent(CF.SERVER_CV_CTX, k.hash(t).value);
    CF.SignedContentExactly(k.hash(t).value, k.hash(t).value);
    assert R.IsSignedContent(content, R.SERVER_CONTEXT, k.hash(t).value);
    if CvError(check, k.hash(t).value, body).None? {
      var scheme, sig := GetU16(body, 0), body[4..];
      CvFlat(scheme, sig);
      assert body == body[0..2] + body[2..4] + sig;
      assert body == U16(scheme) + Vec16(sig) && R.IsSignedContent(content, R.SERVER_CONTEXT, k.hash(t).value)
             && check(scheme, content, sig).None?;
    }
    if SignatureOk(k, check, t, body) {
      var scheme: nat, sig: Bytes, c: Bytes :|
        && scheme < 0x1_0000 && |sig| < 0x1_0000 && body == U16(scheme) + Vec16(sig)
        && R.IsSignedContent(c, R.SERVER_CONTEXT, k.hash(t).value) && check(scheme, c, sig).None?;
      CvFlat(scheme, sig);
    }
  }

  /** Each refusal of the two messages, by its cause. */
  lemma RefusedFor(k: Kdf, check: CvCheck, secret: Bytes, digest: Bytes, body: Bytes)
    ensures |body| < 4 ==> CvError(check, digest, body) == Some(SF.Truncated)
    ensures |body| >= 4 && |body| != 4 + body[2] as int * 256 + body[3] as int ==>
              CvError(check, digest, body) == Some(SF.TrailingBytes)
    ensures |body| != 32 ==> FinError(k, secret, digest, body) == Some(SF.FinishedWrongLength)
    ensures |body| == 32 && FinishedMac(k, secret, digest).Err? ==> FinError(k, secret, digest, body) == Some(SF.HkdfLabel)
    ensures |body| == 32 && (exists mac :: mac != body && R.VerifyData(k.extract, k.expand, secret, digest, mac)) ==>
              FinError(k, secret, digest, body) == Some(SF.FinishedMacInvalid)
  {
    hide FinishedMac, R.VerifyData;
    forall mac
      ensures FinishedMac(k, secret, digest) == Ok(mac) <==> R.VerifyData(k.extract, k.expand, secret, digest, mac)
    {
      FinishedExactly(k, secret, digest, mac);
    }
  }

  lemma CvFlat(scheme: nat, sig: Bytes)
    requires scheme < 0x1_0000 && |sig| < 0x1_0000
    ensures var body := U16(scheme) + Vec16(sig);
            |body| == 4 + |sig| && GetU16(body, 0) == scheme && GetU16(body, 2) == |sig| && body[4..] == sig
    ensures Vec16(sig) == U16(|sig|) + sig
  {
  }

  /** The prefixes of the flight are the transcripts the checks saw. */
  lemma PrefixesAgree(t: Bytes, plain: Bytes, v: SF.FlightView)
    requires v.Valid() && SF.EncodeMsgs(v.Messages()) == plain
    ensures |v.cv.Full()| + |v.fin.Full()| <= |plain|
    ensures ThroughCert(t, v) == t + plain[..|plain| - |v.fin.Full()| - |v.cv.Full()|]
    ensures ThroughCert(t, v) + v.cv.Full() == t + plain[..|plain| - |v.fin.Full()|]
    ensures ThroughCert(t, v) + v.cv.Full() + v.fin.Full() == t + plain
  {
    hide SF.EncodeMsgs, Head;
    HeadThenTail(v);
    Associates(t, Head(v), v.cv.Full(), v.fin.Full(), plain);
  }

  lemma HeadThenTail(v: SF.FlightView)
    requires v.Valid()
    ensures SF.EncodeMsgs(v.Messages()) == Head(v) + (v.cv.Full() + v.fin.Full())
  {
    hide SF.EncodeMsgs;
    SF.ViewEncodes(v);
    SF.TailEncodes(v.cert, v.cv, v.fin);
    var cert, rest := v.cert.Full(), v.cv.Full() + v.fin.Full();
    assert v.request.None? ==> v.ee.Full() + (cert + rest) == v.ee.Full() + [] + cert + rest;
    assert v.request.Some? ==>
      v.ee.Full() + (v.request.value.Full() + (cert + rest)) == v.ee.Full() + v.request.value.Full() + cert + rest;
  }

  lemma Associates(t: Bytes, head: Bytes, cv: Bytes, fin: Bytes, plain: Bytes)
    requires plain == head + (cv + fin)
    ensures t + head == t + plain[..|plain| - |fin| - |cv|]
    ensures t + head + cv == t + plain[..|plain| - |fin|]
    ensures t + head + cv + fin == t + plain
  {
    assert plain[..|head|] == head;
    assert plain[..|head| + |cv|] == head + cv;
  }

  /**
   * A flight is accepted exactly when it is authentic, and then the transcript is extended by the
   * flight, byte for byte.
   */
  lemma VerifiedExactly(k: Kdf, check: CvCheck, secret: Bytes, t: Bytes, plain: Bytes)
    ensures VerifyFlight(k, check, secret, t, plain).Ok? <==> exists v :: Authentic(k, check, secret, t, plain, v)
    ensures VerifyFlight(k, check, secret, t, plain).Ok? ==> VerifyFlight(k, check, secret, t, plain).value == t + plain
  {
    hide SF.ParseFlight, SF.EncodeMsgs, SignatureOk, MacOk, CvError, FinError, ThroughCert;
    forall v
      ensures SF.ParseFlight(plain) == Ok(v) <==> v.Valid() && SF.EncodeMsgs(v.Messages()) == plain
    {
      SF.ParsedExactly(plain, v);
    }
    if SF.ParseFlight(plain).Ok? {
      var v := SF.ParseFlight(plain).value;
      PrefixesAgree(t, plain, v);
      CheckExactly(k, check, secret, t, v);
      assert Authentic(k, check, secret, t, plain, v) <==> VerifyFlight(k, check, secret, t, plain).Ok?;
    }
  }

  lemma CheckExactly(k: Kdf, check: CvCheck, secret: Bytes, t: Bytes, v: SF.FlightView)
    requires v.Valid()
    ensures CheckFlight(k, check, secret, t, v).Ok? <==>
            SignatureOk(k, check, ThroughCert(t, v), v.cv.body)
            && MacOk(k, secret, ThroughCert(t, v) + v.cv.Full(), v.fin.body)
    ensures CheckFlight(k, check, secret, t, v).Ok? ==>
            CheckFlight(k, check, secret, t, v).value == ThroughCert(t, v) + v.cv.Full() + v.fin.Full()
  {
    hide CvError, ThroughCert, FinishedMac, Vec24, R.VerifyData;
    var t1 := ThroughCert(t, v);
    var t2 := t1 + v.cv.Full();
    if k.hash(t2).Some? {
      FinishedExactly(k, secret, k.hash(t2).value, v.fin.body);
    }
    if k.hash(t1).Some? {
      CvExactly(k, check, t1, v.cv.body);
    }
    hide SignatureOk;
    SignatureHashes(k, check, t1, v.cv.body);
  }

  lemma SignatureHashes(k: Kdf, check: CvCheck, t: Bytes, body: Bytes)
    ensures SignatureOk(k, check, t, body) ==> k.hash(t).Some?
  {
  }
}
