/** The client's second flight: certificate messages, the three policies, and their size bounds. */
module ClientFlight {
  import opened Bytes
  import opened Consts
  import opened Wire
  import opened KeySchedule
  import opened Transcript
  import S = ServerFlight
  import H = ClientHello
  import R = Rfc8446

  datatype RsaWidth = NoRsa | Rsa2048 | Rsa3072 | Rsa4096

  function MaxCertDer(w: RsaWidth): (n: nat) {
    match w case Rsa4096 => 1536 case Rsa3072 => 1280 case _ => 1024
  }

  function MaxSigLen(w: RsaWidth): (n: nat) {
    match w case Rsa4096 => 512 case Rsa3072 => 384 case Rsa2048 => 256 case NoRsa => 112
  }

  const HS_HEADER := 4
  const CERT_FRAMING := 1 + 255 + 3 + 3 + 2
  const CV_FRAMING := 2 + 2
  const FINISHED_MSG := HS_HEADER + 32
  const EMPTY_CERT_FRAMING := 1 + 255 + 3
  const MAX_CLIENT_EMPTY_AUTH_FLIGHT := HS_HEADER + EMPTY_CERT_FRAMING + FINISHED_MSG

  function MaxClientAuthFlight(w: RsaWidth): (n: nat) {
    (HS_HEADER + CERT_FRAMING + MaxCertDer(w)) + (HS_HEADER + CV_FRAMING + MaxSigLen(w)) + FINISHED_MSG
  }

  datatype AuthError =
    | BufferTooSmall
    | EmptyCertificate
    | CertificateTooLong
    | ContextTooLong
    | CertificateRequested
    | NoMutualSignatureAlgorithm
    | SignFailed
    | Hkdf(e: HkdfError)
    | TranscriptFailed

  /** Caller-supplied key material; the connection's random source is inside `sign`. */
  datatype Signer = Signer(certDer: Bytes, scheme: nat, sign: Bytes -> Option<Bytes>)

  /** The signature type's capacity and the scheme's width. */
  ghost predicate SignerTyped(w: RsaWidth, s: Signer) {
    s.scheme < 0x1_0000 && forall c :: s.sign(c).Some? ==> |s.sign(c).value| <= MaxSigLen(w)
  }

  datatype Policy = NoClientAuth | DeclineClientAuth | WithClientAuth(signer: Signer)

  ghost predicate PolicyTyped(w: RsaWidth, p: Policy) {
    p.WithClientAuth? ==> SignerTyped(w, p.signer)
  }

  function MaxFlightLen(w: RsaWidth, p: Policy): (n: nat) {
    match p
    case NoClientAuth => 0
    case DeclineClientAuth => MAX_CLIENT_EMPTY_AUTH_FLIGHT
    case WithClientAuth(_) => MaxClientAuthFlight(w)
  }

  // ---- Messages ----

  function CertMsg(ctx: Bytes, entries: seq<S.Entry>): (m: Msg)
    requires |ctx| <= 255 && S.AllEntriesValid(entries) && |S.EncodeEntries(entries)| < 0x1_0000
    ensures m.Valid()
  {
    Msg(HS_CERTIFICATE, Vec8(ctx) + Vec24(S.EncodeEntries(entries)))
  }

  lemma OneEntry(der: Bytes)
    requires |der| <= 1536
    ensures S.AllEntriesValid([S.Entry(der, [])])
    ensures S.EncodeEntries([S.Entry(der, [])]) == Vec24(der) + [0, 0]
  {
    var es := [S.Entry(der, [])];
    assert es[1..] == [] && Vec16([]) == [0, 0];
  }

  function LeafMsg(ctx: Bytes, der: Bytes): (m: Msg)
    requires |ctx| <= 255 && |der| <= 1536
    ensures m.Valid() && |m.Full()| == 13 + |ctx| + |der|
  {
    OneEntry(der);
    CertMsg(ctx, [S.Entry(der, [])])
  }

  function EmptyMsg(ctx: Bytes): (m: Msg)
    requires |ctx| <= 255
    ensures m.Valid() && |m.Full()| == 8 + |ctx|
  {
    CertMsg(ctx, [])
  }

  function VerifyMsg(scheme: nat, sig: Bytes): (m: Msg)
    requires scheme < 0x1_0000 && |sig| < 0x1_0000
    ensures m.Valid() && |m.Full()| == 8 + |sig|
  {
    Msg(HS_CERTIFICATE_VERIFY, U16(scheme) + Vec16(sig))
  }

  function FinishedMsg(mac: Bytes): (m: Msg)
    requires |mac| == HASH_LEN
    ensures m.Valid() && |m.Full()| == FINISHED_MSG
  {
    Msg(HS_FINISHED, mac)
  }

  /** The content a CertificateVerify signs: pad, context string, separator, digest. */
  function SignedContent(context: Bytes, digest: Bytes): (b: Bytes) {
    seq(64, _ => 0x20) + context + [0] + digest
  }

  const CLIENT_CV_CTX: Bytes := Ascii("TLS 1.3, client CertificateVerify")
  const SERVER_CV_CTX: Bytes := Ascii("TLS 1.3, server CertificateVerify")

  lemma ContentExactly(context: string, digest: Bytes, content: Bytes)
    requires |context| == 33 && forall i :: 0 <= i < 33 ==> context[i] as int < 256
    ensures R.IsSignedContent(content, context, digest) <==> content == SignedContent(Ascii(context), digest)
  {
    var own := SignedContent(Ascii(context), digest);
    assert own[98..] == digest;
    assert forall i :: 0 <= i < 33 ==> own[64 + i] == Ascii(context)[i];
    assert R.IsSignedContent(own, context, digest);
    if R.IsSignedContent(content, context, digest) {
      R.SignedContentSeparates(content, own, context, context, digest, digest);
    }
  }

  /** Both sides sign the content of section 4.4.3 of RFC 8446: a digest gives one content, two digests or the two
      sides never give the same. */
  lemma SignedContentExactly(digest: Bytes, digest': Bytes)
    ensures forall content ::
              R.IsSignedContent(content, R.CLIENT_CONTEXT, digest) <==> content == SignedContent(CLIENT_CV_CTX, digest)
    ensures forall content ::
              R.IsSignedContent(content, R.SERVER_CONTEXT, digest) <==> content == SignedContent(SERVER_CV_CTX, digest)
    ensures SignedContent(SERVER_CV_CTX, digest) == SignedContent(SERVER_CV_CTX, digest') <==> digest == digest'
    ensures SignedContent(CLIENT_CV_CTX, digest) == SignedContent(CLIENT_CV_CTX, digest') <==> digest == digest'
    ensures SignedContent(CLIENT_CV_CTX, digest) != SignedContent(SERVER_CV_CTX, digest')
  {
    hide SignedContent;
    forall content, d
      ensures R.IsSignedContent(content, R.CLIENT_CONTEXT, d) <==> content == SignedContent(CLIENT_CV_CTX, d)
      ensures R.IsSignedContent(content, R.SERVER_CONTEXT, d) <==> content == SignedContent(SERVER_CV_CTX, d)
    {
      ContentExactly(R.CLIENT_CONTEXT, d, content);
      ContentExactly(R.SERVER_CONTEXT, d, content);
    }
    var c, s := SignedContent(CLIENT_CV_CTX, digest), SignedContent(SERVER_CV_CTX, digest);
    var c', s' := SignedContent(CLIENT_CV_CTX, digest'), SignedContent(SERVER_CV_CTX, digest');
    assert R.CLIENT_CONTEXT[9] != R.SERVER_CONTEXT[9];
    R.SignedContentSeparates(c, c', R.CLIENT_CONTEXT, R.CLIENT_CONTEXT, digest, digest');
    R.SignedContentSeparates(s, s', R.SERVER_CONTEXT, R.SERVER_CONTEXT, digest, digest');
    R.SignedContentSeparates(c, s', R.CLIENT_CONTEXT, R.SERVER_CONTEXT, digest, digest');
  }

  /** A client body reads back as a chain: the leaf alone, or nothing. */
  lemma ClientCertificateReads(ctx: Bytes, der: Bytes, max: nat)
    requires |ctx| <= 255 && |der| <= 1536 && max >= 1
    ensures S.Chain(LeafMsg(ctx, der).body, max) == Ok([der])
    ensures S.Chain(EmptyMsg(ctx).body, max) == Ok([])
  {
    hide S.Chain, Vec8, Vec24;
    OneEntry(der);
    var es := [S.Entry(der, [])];
    assert S.Certs(es) == [der] by { assert es[1..] == []; }
    ChainOf(ctx, es, max);
    ChainOf(ctx, [], max);
  }

  lemma ChainOf(ctx: Bytes, es: seq<S.Entry>, max: nat)
    requires |ctx| <= 255 && S.AllEntriesValid(es) && |S.EncodeEntries(es)| < 0x1_0000 && |es| <= max
    ensures S.Chain(CertMsg(ctx, es).body, max) == Ok(S.Certs(es))
  {
    hide S.Chain, Vec8, Vec24, S.EncodeEntries, S.Certs;
    S.ChainReads(ctx, es, [], max);
    assert Vec24(S.EncodeEntries(es)) + [] == Vec24(S.EncodeEntries(es));
  }

  // ---- Builders ----

  method Append(out: array<Byte>, base: nat, p: nat, bytes: Bytes) returns (q: nat)
    requires base <= p && p + |bytes| <= out.Length
    modifies out
    ensures q == p + |bytes| && out[base..q] == old(out[base..p]) + bytes
    ensures out[..base] == old(out[..base])
  {
    hide Splice;
    ghost var before := out[..];
    CopyBytes(out, p, bytes);
    q := p + |bytes|;
    SpliceAppends(before, out[..], base, p, bytes);
  }

  lemma SpliceAppends(before: Bytes, now: Bytes, base: nat, p: nat, bytes: Bytes)
    requires base <= p && p + |bytes| <= |before| && now == Splice(before, p, bytes)
    ensures |now| == |before|
    ensures now[base..p + |bytes|] == before[base..p] + bytes && now[..base] == before[..base]
  {
  }

  function CertError(w: RsaWidth, der: Bytes, ctx: Bytes, room: nat): (e: Option<AuthError>) {
    if |der| == 0 then Some(EmptyCertificate)
    else if |der| > MaxCertDer(w) then Some(CertificateTooLong)
    else if |ctx| > 255 then Some(AuthError.ContextTooLong)
    else if 13 + |ctx| + |der| > room then Some(BufferTooSmall)
    else None
  }

  /** The certificate's refusals in order, with the caps of each RSA width. */
  lemma CertRefused(w: RsaWidth, der: Bytes, ctx: Bytes, room: nat)
    ensures var cap := if w == Rsa4096 then 1536 else if w == Rsa3072 then 1280 else 1024;
            CertError(w, der, ctx, room)
              == if der == [] then Some(EmptyCertificate)
                 else if |der| > cap then Some(CertificateTooLong)
                 else if |ctx| >= 256 then Some(AuthError.ContextTooLong)
                 else if |LeafMsg(ctx, der).Full()| > room then Some(BufferTooSmall)
                 else None
  {
  }

  method BuildClientCertificate(w: RsaWidth, der: Bytes, ctx: Bytes, out: array<Byte>)
    returns (r: Result<nat, AuthError>)
    modifies out
    ensures r == match CertError(w, der, ctx, out.Length)
                 case Some(e) => Err(e)
                 case None => Ok(13 + |ctx| + |der|)
    ensures r.Ok? ==> r.value <= out.Length && out[..r.value] == LeafMsg(ctx, der).Full()
  {
    hide U24, Vec24, Vec8, LeafMsg;
    if |der| == 0 {
      return Err(EmptyCertificate);
    }
    if |der| > MaxCertDer(w) {
      return Err(CertificateTooLong);
    }
    if |ctx| > 255 {
      return Err(AuthError.ContextTooLong);
    }
    var entryLen := 3 + |der| + 2;
    var listLen := 3 + entryLen;
    var bodyLen := 1 + |ctx| + listLen;
    var total := 4 + bodyLen;
    if total > out.Length {
      return Err(BufferTooSmall);
    }
    LeafFlat(ctx, der);
    var p := AppendCertHead(ctx, bodyLen, out);
    p := AppendEntry(der, out, p);
    return Ok(total);
  }

  /** The message header and the echoed context. */
  method AppendCertHead(ctx: Bytes, bodyLen: nat, out: array<Byte>) returns (q: nat)
    requires |ctx| <= 255 && bodyLen < 0x100_0000 && 5 + |ctx| <= out.Length
    modifies out
    ensures q == 5 + |ctx|
    ensures out[0..q] == [HS_CERTIFICATE] + U24(bodyLen) + [|ctx|] + ctx
  {
    hide U24;
    assert out[0..0] == [];
    var p := Append(out, 0, 0, [HS_CERTIFICATE]);
    p := Append(out, 0, p, U24(bodyLen));
    p := Append(out, 0, p, [|ctx|]);
    q := Append(out, 0, p, ctx);
  }

  method AppendEntry(der: Bytes, out: array<Byte>, at: nat) returns (q: nat)
    requires |der| <= 1536 && at + |der| + 8 <= out.Length
    modifies out
    ensures q == at + 8 + |der|
    ensures out[0..q] == old(out[0..at]) + (U24(5 + |der|) + U24(|der|) + der + [0, 0])
  {
    hide U24;
    var entryLen := 3 + |der| + 2;
    var p := Append(out, 0, at, U24(entryLen));
    p := Append(out, 0, p, U24(|der|));
    p := Append(out, 0, p, der);
    q := Append(out, 0, p, [0, 0]);
  }

  lemma LeafFlat(ctx: Bytes, der: Bytes)
    requires |ctx| <= 255 && |der| <= 1536
    ensures LeafMsg(ctx, der).Full()
         == [HS_CERTIFICATE] + U24(9 + |ctx| + |der|) + [|ctx|] + ctx + (U24(5 + |der|) + U24(|der|) + der + [0, 0])
  {
    hide U24;
    OneEntry(der);
    var list := S.EncodeEntries([S.Entry(der, [])]);
    assert Vec24(list) == U24(5 + |der|) + (U24(|der|) + der + [0, 0]);
  }

  method BuildClientEmptyCertificate(ctx: Bytes, out: array<Byte>) returns (r: Result<nat, AuthError>)
    modifies out
    ensures r == if |ctx| > 255 then Err(AuthError.ContextTooLong)
                 else if 8 + |ctx| > out.Length then Err(BufferTooSmall)
                 else Ok(8 + |ctx|)
    ensures r.Ok? ==> r.value <= out.Length && out[..r.value] == EmptyMsg(ctx).Full()
  {
    hide U24;
    if |ctx| > 255 {
      return Err(AuthError.ContextTooLong);
    }
    var bodyLen := 1 + |ctx| + 3;
    var total := 4 + bodyLen;
    if total > out.Length {
      return Err(BufferTooSmall);
    }
    EmptyFlat(ctx);
    var p := AppendCertHead(ctx, bodyLen, out);
    p := Append(out, 0, p, [0, 0, 0]);
    return Ok(total);
  }

  lemma EmptyFlat(ctx: Bytes)
    requires |ctx| <= 255
    ensures EmptyMsg(ctx).Full() == [HS_CERTIFICATE] + U24(4 + |ctx|) + [|ctx|] + ctx + [0, 0, 0]
  {
    assert U24(0) == [0, 0, 0];
    assert Vec24([]) == [0, 0, 0];
  }

  method BuildClientCertificateVerify(signer: Signer, digest: Bytes, out: array<Byte>, base: nat)
    returns (r: Result<nat, AuthError>)
    requires signer.scheme < 0x1_0000 && base <= out.Length
    modifies out
    ensures out[..base] == old(out[..base])
    ensures var sig := signer.sign(SignedContent(CLIENT_CV_CTX, digest));
            && (sig.None? ==> r == Err(SignFailed))
            && (sig.Some? && (|sig.value| >= 0x1_0000 || base + 8 + |sig.value| > out.Length) ==> r == Err(BufferTooSmall))
            && (sig.Some? && |sig.value| < 0x1_0000 && base + 8 + |sig.value| <= out.Length ==>
                  && r == Ok(8 + |sig.value|)
                  && out[base..base + 8 + |sig.value|] == VerifyMsg(signer.scheme, sig.value).Full())
  {
    hide U24, U16, SignedContent, Vec16, Vec24, VerifyMsg;
    var sig := signer.sign(SignedContent(CLIENT_CV_CTX, digest));
    if sig.None? {
      return Err(SignFailed);
    }
    var bodyLen := 2 + 2 + |sig.value|;
    var total := 4 + bodyLen;
    if base + total > out.Length || |sig.value| >= 0x1_0000 {
      return Err(BufferTooSmall);
    }
    VerifyFlat(signer.scheme, sig.value);
    var p := AppendVerifyHead(bodyLen, signer.scheme, out, base);
    p := Append(out, base, p, U16(|sig.value|));
    p := Append(out, base, p, sig.value);
    return Ok(total);
  }

  method AppendVerifyHead(bodyLen: nat, scheme: nat, out: array<Byte>, base: nat) returns (q: nat)
    requires bodyLen < 0x100_0000 && scheme < 0x1_0000 && base + 6 <= out.Length
    modifies out
    ensures q == base + 6 && out[..base] == old(out[..base])
    ensures out[base..q] == [HS_CERTIFICATE_VERIFY] + U24(bodyLen) + U16(scheme)
  {
    hide U24, U16;
    assert out[base..base] == [];
    var p := Append(out, base, base, [HS_CERTIFICATE_VERIFY]);
    p := Append(out, base, p, U24(bodyLen));
    q := Append(out, base, p, U16(scheme));
  }

  lemma VerifyFlat(scheme: nat, sig: Bytes)
    requires scheme < 0x1_0000 && |sig| < 0x1_0000
    ensures VerifyMsg(scheme, sig).Full()
         == [HS_CERTIFICATE_VERIFY] + U24(4 + |sig|) + U16(scheme) + U16(|sig|) + sig
  {
    hide U24, U16;
  }

  // ---- Policies ----

  /** The scheme is one of the two-byte code points; a list of odd length offers nothing. */
  predicate Offers(list: Bytes, scheme: nat) {
    |list| % 2 == 0 && exists i :: 0 <= i < |list| / 2 && GetU16(list, 2 * i) == scheme
  }

  lemma {:induction false} U16sAt(ns: seq<nat>, i: nat)
    requires H.AllU16(ns) && i < |ns|
    ensures GetU16(H.U16s(ns), 2 * i) == ns[i]
    decreases |ns|
  {
    var b := H.U16s(ns);
    if i > 0 {
      U16sAt(ns[1..], i - 1);
      var tail := H.U16s(ns[1..]);
      assert b[2 * i] == tail[2 * (i - 1)] && b[2 * i + 1] == tail[2 * (i - 1) + 1];
    }
  }

  lemma {:induction false} CodePoints(list: Bytes) returns (ns: seq<nat>)
    requires |list| % 2 == 0
    ensures H.AllU16(ns) && H.U16s(ns) == list
    decreases |list|
  {
    if list == [] {
      ns := [];
    } else {
      var tail := CodePoints(list[2..]);
      ns := [GetU16(list, 0)] + tail;
      assert ns[1..] == tail;
      assert list == list[0..2] + list[2..];
    }
  }

  /** The test is membership in the list of two-byte code points, and a string that is no such list offers nothing. */
  lemma OffersExactly(list: Bytes, scheme: nat)
    ensures Offers(list, scheme) <==> exists ns :: H.AllU16(ns) && H.U16s(ns) == list && scheme in ns
  {
    hide GetU16, H.U16s;
    if Offers(list, scheme) {
      var ns := CodePoints(list);
      MemberExactly(ns, scheme);
    }
    forall ns | H.AllU16(ns) && H.U16s(ns) == list && scheme in ns
      ensures Offers(list, scheme)
    {
      MemberExactly(ns, scheme);
    }
  }

  lemma MemberExactly(ns: seq<nat>, scheme: nat)
    requires H.AllU16(ns)
    ensures Offers(H.U16s(ns), scheme) <==> scheme in ns
  {
    hide GetU16;
    var b := H.U16s(ns);
    forall i | 0 <= i < |ns|
      ensures GetU16(b, 2 * i) == ns[i]
    {
      U16sAt(ns, i);
    }
    if scheme in ns {
      var i :| 0 <= i < |ns| && ns[i] == scheme;
      assert 0 <= i < |b| / 2 && GetU16(b, 2 * i) == scheme;
    }
  }

  method SigAlgsOffer(list: Bytes, scheme: nat) returns (found: bool)
    ensures found == Offers(list, scheme)
  {
    hide GetU16;
    if |list| % 2 != 0 {
      return false;
    }
    var i := 0;
    while i < |list| / 2
      invariant 0 <= i <= |list| / 2
      invariant forall j :: 0 <= j < i ==> GetU16(list, 2 * j) != scheme
    {
      if GetU16(list, 2 * i) == scheme {
        return true;
      }
      i := i + 1;
    }
    return false;
  }

  /** Finished over the transcript so far, appended to what the flight already holds. */
  function AppendFinished(k: Kdf, secret: Bytes, t: Bytes, head: Bytes, room: nat): (r: Result<Bytes, AuthError>)
    requires Sized(k)
  {
    match k.hash(t + head)
    case None => Err(TranscriptFailed)
    case Some(digest) =>
      match FinishedMac(k, secret, digest)
      case Err(e) => Err(Hkdf(e))
      case Ok(mac) =>
        if |head| + FINISHED_MSG > room then Err(BufferTooSmall)
        else Ok(head + FinishedMsg(mac).Full())
  }

  /** CertificateVerify over the transcript through the certificate, then Finished. */
  function SignedFlight(k: Kdf, s: Signer, cert: Bytes, secret: Bytes, t: Bytes, room: nat): (r: Result<Bytes, AuthError>)
    requires Sized(k) && s.scheme < 0x1_0000
  {
    match k.hash(t + cert)
    case None => Err(TranscriptFailed)
    case Some(digest) =>
      match s.sign(SignedContent(CLIENT_CV_CTX, digest))
      case None => Err(SignFailed)
      case Some(sig) =>
        if |sig| >= 0x1_0000 || |cert| + 8 + |sig| > room then Err(BufferTooSmall)
        else AppendFinished(k, secret, t, cert + VerifyMsg(s.scheme, sig).Full(), room)
  }

  function BuildFlight(k: Kdf, w: RsaWidth, p: Policy, ctx: Bytes, sigAlgs: Bytes, secret: Bytes, t: Bytes, room: nat)
    : (r: Result<Bytes, AuthError>)
    requires Sized(k) && PolicyTyped(w, p)
  {
    match p
    case NoClientAuth => Err(CertificateRequested)
    case DeclineClientAuth =>
      if |ctx| > 255 then Err(AuthError.ContextTooLong)
      else if 8 + |ctx| > room then Err(BufferTooSmall)
      else AppendFinished(k, secret, t, EmptyMsg(ctx).Full(), room)
    case WithClientAuth(s) =>
      if !Offers(sigAlgs, s.scheme) then Err(NoMutualSignatureAlgorithm)
      else
        match CertError(w, s.certDer, ctx, room)
        case Some(e) => Err(e)
        case None => SignedFlight(k, s, LeafMsg(ctx, s.certDer).Full(), secret, t, room)
  }

  /** Each refusal of a policy, by its cause, in order. */
  lemma BuildRefused(k: Kdf, w: RsaWidth, p: Policy, ctx: Bytes, sigAlgs: Bytes, secret: Bytes, t: Bytes, room: nat)
    requires Sized(k) && PolicyTyped(w, p)
    ensures p.NoClientAuth? ==> BuildFlight(k, w, p, ctx, sigAlgs, secret, t, room) == Err(CertificateRequested)
    ensures p.DeclineClientAuth? && |ctx| >= 256 ==>
              BuildFlight(k, w, p, ctx, sigAlgs, secret, t, room) == Err(AuthError.ContextTooLong)
    ensures p.WithClientAuth? && !Offers(sigAlgs, p.signer.scheme) ==>
              BuildFlight(k, w, p, ctx, sigAlgs, secret, t, room) == Err(NoMutualSignatureAlgorithm)
    ensures p.WithClientAuth? && Offers(sigAlgs, p.signer.scheme) ==>
            match CertError(w, p.signer.certDer, ctx, room)
            case Some(e) => BuildFlight(k, w, p, ctx, sigAlgs, secret, t, room) == Err(e)
            case None =>
              var cert := LeafMsg(ctx, p.signer.certDer).Full();
              && (k.hash(t + cert).None? ==> BuildFlight(k, w, p, ctx, sigAlgs, secret, t, room) == Err(TranscriptFailed))
              && (k.hash(t + cert).Some? && p.signer.sign(SignedContent(CLIENT_CV_CTX, k.hash(t + cert).value)).None? ==>
                    BuildFlight(k, w, p, ctx, sigAlgs, secret, t, room) == Err(SignFailed))
  {
    hide SignedContent, AppendFinished, Offers, LeafMsg;
  }

  method AppendFinishedTo(k: Kdf, secret: Bytes, transcript: TranscriptHash, out: array<Byte>, headEnd: nat, ghost t: Bytes)
    returns (r: Result<nat, AuthError>)
    requires Sized(k) && transcript.kdf == k && headEnd <= out.Length && transcript.fed == t + out[..headEnd]
    modifies transcript, out
    ensures var spec := AppendFinished(k, secret, t, old(out[..headEnd]), out.Length);
            && (spec.Err? ==> r == Err(spec.error))
            && (spec.Ok? ==> r == Ok(|spec.value|) && |spec.value| <= out.Length
                             && out[..|spec.value|] == spec.value && transcript.fed == t + spec.value)
  {
    hide FinishedMac, U24;
    var digest := transcript.Snapshot();
    if digest.None? {
      return Err(TranscriptFailed);
    }
    var mac := FinishedMac(k, secret, digest.value);
    if mac.Err? {
      return Err(Hkdf(mac.error));
    }
    var finished := FinishedMsg(mac.value).Full();
    var finEnd := headEnd + |finished|;
    if finEnd > out.Length {
      return Err(BufferTooSmall);
    }
    ghost var head := out[..headEnd];
    var end := Append(out, 0, headEnd, finished);
    assert out[0..finEnd] == head + finished;
    assert out[headEnd..finEnd] == finished;
    transcript.Update(out[headEnd..finEnd]);
    return Ok(finEnd);
  }

  /** The bundled policies; the transcript ends up extended by exactly the plaintext returned. */
  method BuildClientFlight(k: Kdf, w: RsaWidth, p: Policy, ctx: Bytes, sigAlgs: Bytes, secret: Bytes,
                           transcript: TranscriptHash, out: array<Byte>)
    returns (r: Result<nat, AuthError>)
    requires Sized(k) && PolicyTyped(w, p) && transcript.kdf == k
    modifies transcript, out
    ensures var spec := BuildFlight(k, w, p, ctx, sigAlgs, secret, old(transcript.fed), out.Length);
            && (spec.Err? ==> r == Err(spec.error))
            && (spec.Ok? ==> r == Ok(|spec.value|) && |spec.value| <= out.Length
                             && out[..|spec.value|] == spec.value
                             && transcript.fed == old(transcript.fed) + spec.value)
  {
    hide AppendFinished, FinishedMac, SignedContent, U24, U16, Offers, Vec24, Vec8, Sized;
    match p
    case NoClientAuth =>
      return Err(CertificateRequested);
    case DeclineClientAuth =>
      var cert := BuildClientEmptyCertificate(ctx, out);
      if cert.Err? {
        return Err(cert.error);
      }
      transcript.Update(out[..cert.value]);
      r := AppendFinishedTo(k, secret, transcript, out, cert.value, old(transcript.fed));
    case WithClientAuth(s) =>
      var offered := SigAlgsOffer(sigAlgs, s.scheme);
      if !offered {
        return Err(NoMutualSignatureAlgorithm);
      }
      r := BuildSignedFlight(k, w, s, ctx, secret, transcript, out);
  }

  method BuildSignedFlight(k: Kdf, w: RsaWidth, s: Signer, ctx: Bytes, secret: Bytes,
                           transcript: TranscriptHash, out: array<Byte>)
    returns (r: Result<nat, AuthError>)
    requires Sized(k) && s.scheme < 0x1_0000 && transcript.kdf == k
    modifies transcript, out
    ensures CertError(w, s.certDer, ctx, out.Length).Some? ==>
              r == Err(CertError(w, s.certDer, ctx, out.Length).value)
    ensures CertError(w, s.certDer, ctx, out.Length).None? ==>
              var spec := SignedFlight(k, s, LeafMsg(ctx, s.certDer).Full(), secret, old(transcript.fed), out.Length);
              && (spec.Err? ==> r == Err(spec.error))
              && (spec.Ok? ==> r == Ok(|spec.value|) && |spec.value| <= out.Length
                               && out[..|spec.value|] == spec.value
                               && transcript.fed == old(transcript.fed) + spec.value)
  {
    hide AppendFinished, FinishedMac, SignedContent, U24, U16, Vec24, Vec8, Sized, LeafMsg;
    var certEnd := BuildClientCertificate(w, s.certDer, ctx, out);
    if certEnd.Err? {
      return Err(certEnd.error);
    }
    ghost var t := transcript.fed;
    ghost var cert := out[..certEnd.value];
    transcript.Update(out[..certEnd.value]);
    var digest := transcript.Snapshot();
    if digest.None? {
      return Err(TranscriptFailed);
    }
    var cv := BuildClientCertificateVerify(s, digest.value, out, certEnd.value);
    if cv.Err? {
      return Err(cv.error);
    }
    var cvEnd := certEnd.value + cv.value;
    assert out[..cvEnd] == cert + out[certEnd.value..cvEnd];
    transcript.Update(out[certEnd.value..cvEnd]);
    assert transcript.fed == t + out[..cvEnd];
    r := AppendFinishedTo(k, secret, transcript, out, cvEnd, t);
  }

  // ---- What the flight is worth ----

  /** Within the caps no flight is longer than its policy announces, and none outgrows a scratch that large. */
  lemma FlightBounded(k: Kdf, w: RsaWidth, p: Policy, ctx: Bytes, sigAlgs: Bytes, secret: Bytes, t: Bytes, room: nat)
    requires Sized(k) && PolicyTyped(w, p)
    ensures var r := BuildFlight(k, w, p, ctx, sigAlgs, secret, t, room);
            && (r.Ok? ==> FINISHED_MSG < |r.value| <= MaxFlightLen(w, p) && |r.value| <= room)
            && (room >= MaxFlightLen(w, p) ==> r != Err(BufferTooSmall))
  {
    hide SignedContent, FinishedMac, Offers, Sized, U16, U24;
    if p.WithClientAuth? && CertError(w, p.signer.certDer, ctx, room).None? {
      var s := p.signer;
      var cert := LeafMsg(ctx, s.certDer).Full();
      var digest := k.hash(t + cert);
      if digest.Some? {
        var sig := s.sign(SignedContent(CLIENT_CV_CTX, digest.value));
        assert sig.Some? ==> |sig.value| <= MaxSigLen(w);
      }
    }
  }

  /** The announced lengths are those of the longest flights: a 255-byte context, and the largest certificate and
      signature of the width. */
  lemma BoundAttained(w: RsaWidth, ctx: Bytes, der: Bytes, scheme: nat, sig: Bytes, mac: Bytes)
    requires |ctx| == 255 && |der| == (if w == Rsa4096 then 1536 else if w == Rsa3072 then 1280 else 1024)
    requires |sig| == (if w == Rsa4096 then 512 else if w == Rsa3072 then 384 else if w == Rsa2048 then 256 else 112)
    requires scheme < 0x1_0000 && |mac| == HASH_LEN
    ensures MaxClientAuthFlight(w)
         == |LeafMsg(ctx, der).Full()| + |VerifyMsg(scheme, sig).Full()| + |FinishedMsg(mac).Full()|
    ensures MAX_CLIENT_EMPTY_AUTH_FLIGHT == |EmptyMsg(ctx).Full()| + |FinishedMsg(mac).Full()|
  {
  }

  /** What a server that goes by RFC 8446 does with the flight, given HKDF and a signature check. */
  ghost predicate FinishedChecks(k: Kdf, secret: Bytes, t: Bytes, buf: Bytes) {
    match NextMsg(buf)
    case None => false
    case Some((fin, rest)) =>
      && fin.typ == 20 && rest == []
      && match k.hash(t)
         case None => false
         case Some(digest) => R.VerifyData(k.extract, k.expand, secret, digest, fin.body)
  }

  ghost predicate VerifyChecks(k: Kdf, t: Bytes, body: Bytes, der: Bytes, verify: (Bytes, nat, Bytes, Bytes) -> bool) {
    match TakeU16(body)
    case None => false
    case Some((scheme, more)) =>
      match TakeVec16(more)
      case None => false
      case Some((sig, rest)) =>
        && rest == []
        && match k.hash(t)
           case None => false
           case Some(digest) => exists content :: R.IsSignedContent(content, R.CLIENT_CONTEXT, digest)
                                                  && verify(der, scheme, content, sig)
  }

  ghost predicate ServerAccepts(k: Kdf, secret: Bytes, t: Bytes, ctx: Bytes, flight: Bytes,
                          verify: (Bytes, nat, Bytes, Bytes) -> bool)
  {
    match NextMsg(flight)
    case None => false
    case Some((cert, b1)) =>
      && cert.typ == 11
      && TakeVec8(cert.body).Some? && TakeVec8(cert.body).value.0 == ctx
      && match S.Chain(cert.body, 1)
         case Err(_) => false
         case Ok(chain) =>
           if chain == [] then FinishedChecks(k, secret, t + cert.Full(), b1)
           else
             match NextMsg(b1)
             case None => false
             case Some((cv, b2)) =>
               && cv.typ == 15
               && VerifyChecks(k, t + cert.Full(), cv.body, chain[0], verify)
               && FinishedChecks(k, secret, t + cert.Full() + cv.Full(), b2)
  }

  /** The verifier accepts what this signer signs. */
  ghost predicate Honest(s: Signer, verify: (Bytes, nat, Bytes, Bytes) -> bool) {
    forall c :: s.sign(c).Some? ==> verify(s.certDer, s.scheme, c, s.sign(c).value)
  }

  lemma FinishedAccepted(k: Kdf, secret: Bytes, t: Bytes, head: Bytes, room: nat)
    requires Sized(k) && AppendFinished(k, secret, t, head, room).Ok?
    ensures var p := AppendFinished(k, secret, t, head, room).value;
            head <= p && FinishedChecks(k, secret, t + head, p[|head|..])
  {
    hide FinishedMac, NextMsg, Sized, Vec24;
    var mac := FinishedMac(k, secret, k.hash(t + head).value).value;
    var fin := FinishedMsg(mac);
    var p := AppendFinished(k, secret, t, head, room).value;
    assert p[|head|..] == fin.Full() + [];
    MsgReads(fin, []);
    FinishedExactly(k, secret, k.hash(t + head).value, mac);
  }

  lemma VerifyAccepted(k: Kdf, s: Signer, t: Bytes, digest: Bytes, sig: Bytes,
                       verify: (Bytes, nat, Bytes, Bytes) -> bool)
    requires s.scheme < 0x1_0000 && |sig| < 0x1_0000 && Honest(s, verify)
    requires k.hash(t) == Some(digest) && s.sign(SignedContent(CLIENT_CV_CTX, digest)) == Some(sig)
    ensures VerifyChecks(k, t, VerifyMsg(s.scheme, sig).body, s.certDer, verify)
  {
    hide SignedContent, U16, TakeU16, Vec16, TakeVec16, R.IsSignedContent;
    SignedContentExactly(digest, digest);
    assert R.IsSignedContent(SignedContent(CLIENT_CV_CTX, digest), R.CLIENT_CONTEXT, digest);
    U16Reads(s.scheme, Vec16(sig));
    Vec16Reads(sig, []);
    assert Vec16(sig) + [] == Vec16(sig);
  }

  lemma ContextReads(ctx: Bytes, entries: seq<S.Entry>)
    requires |ctx| <= 255 && S.AllEntriesValid(entries) && |S.EncodeEntries(entries)| < 0x1_0000
    ensures TakeVec8(CertMsg(ctx, entries).body).Some? && TakeVec8(CertMsg(ctx, entries).body).value.0 == ctx
  {
    Vec8Reads(ctx, Vec24(S.EncodeEntries(entries)));
  }

  lemma DeclineAccepted(k: Kdf, ctx: Bytes, secret: Bytes, t: Bytes, room: nat,
                        verify: (Bytes, nat, Bytes, Bytes) -> bool)
    requires Sized(k) && |ctx| <= 255 && AppendFinished(k, secret, t, EmptyMsg(ctx).Full(), room).Ok?
    ensures ServerAccepts(k, secret, t, ctx, AppendFinished(k, secret, t, EmptyMsg(ctx).Full(), room).value, verify)
  {
    hide AppendFinished, FinishedChecks, NextMsg, Sized, S.Chain, TakeVec8, Vec8, Vec24;
    var cert := EmptyMsg(ctx);
    var p := AppendFinished(k, secret, t, cert.Full(), room).value;
    FinishedAccepted(k, secret, t, cert.Full(), room);
    assert p == cert.Full() + p[|cert.Full()|..];
    MsgReads(cert, p[|cert.Full()|..]);
    ContextReads(ctx, []);
    ClientCertificateReads(ctx, [], 1);
  }

  lemma SignedAccepted(k: Kdf, s: Signer, ctx: Bytes, secret: Bytes, t: Bytes, room: nat,
                       verify: (Bytes, nat, Bytes, Bytes) -> bool)
    requires Sized(k) && s.scheme < 0x1_0000 && |ctx| <= 255 && |s.certDer| <= 1536 && Honest(s, verify)
    requires SignedFlight(k, s, LeafMsg(ctx, s.certDer).Full(), secret, t, room).Ok?
    ensures ServerAccepts(k, secret, t, ctx,
                          SignedFlight(k, s, LeafMsg(ctx, s.certDer).Full(), secret, t, room).value, verify)
  {
    hide AppendFinished, FinishedChecks, VerifyChecks, NextMsg, Sized, Honest, S.Chain, TakeVec8, Vec8, Vec24,
         SignedContent, U16;
    var cert := LeafMsg(ctx, s.certDer);
    var p := SignedFlight(k, s, cert.Full(), secret, t, room).value;
    var digest := k.hash(t + cert.Full()).value;
    var sig := s.sign(SignedContent(CLIENT_CV_CTX, digest)).value;
    var cv := VerifyMsg(s.scheme, sig);
    var head := cert.Full() + cv.Full();
    FinishedAccepted(k, secret, t, head, room);
    var fin := p[|head|..];
    assert p == cert.Full() + (cv.Full() + fin);
    MsgReads(cert, cv.Full() + fin);
    MsgReads(cv, fin);
    OneEntry(s.certDer);
    ContextReads(ctx, [S.Entry(s.certDer, [])]);
    ClientCertificateReads(ctx, s.certDer, 1);
    VerifyAccepted(k, s, t + cert.Full(), digest, sig, verify);
    assert t + head == t + cert.Full() + cv.Full();
  }

  /**
   * Every flight a policy builds passes a server that parses it message by message and checks the
   * echoed context, the signature over the transcript through the certificate, and the MAC over
   * the transcript through the message before Finished.
   */
  lemma FlightAccepted(k: Kdf, w: RsaWidth, p: Policy, ctx: Bytes, sigAlgs: Bytes, secret: Bytes, t: Bytes, room: nat,
                       verify: (Bytes, nat, Bytes, Bytes) -> bool)
    requires Sized(k) && PolicyTyped(w, p) && (p.WithClientAuth? ==> Honest(p.signer, verify))
    requires BuildFlight(k, w, p, ctx, sigAlgs, secret, t, room).Ok?
    ensures ServerAccepts(k, secret, t, ctx, BuildFlight(k, w, p, ctx, sigAlgs, secret, t, room).value, verify)
  {
    hide AppendFinished, SignedFlight, ServerAccepts, Sized, Honest, Offers, LeafMsg, EmptyMsg;
    if p.DeclineClientAuth? {
      DeclineAccepted(k, ctx, secret, t, room, verify);
    } else {
      SignedAccepted(k, p.signer, ctx, secret, t, room, verify);
    }
  }
}
