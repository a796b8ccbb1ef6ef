/** HKDF-Expand-Label and the TLS 1.3 key schedule over an abstract hash and HKDF. */
module KeySchedule {
  import opened Bytes
  import opened Aead
  import R = Rfc8446

  const HASH_LEN: nat := 32
  const IV_LEN: nat := 12
  const HKDF_LABEL_MAX: nat := 64

  datatype HkdfError = OutputTooLong | LabelTooLong | ContextTooLong | EncodedTooLong | Expand | Backend

  /** Hash and HKDF backend; every call may fail. */
  datatype Kdf = Kdf(hash: Bytes -> Option<Bytes>,
                     extract: (Bytes, Bytes) -> Option<Bytes>,
                     expand: (Bytes, Bytes, nat) -> Option<Bytes>)

  /** Outputs have the lengths their types promise. */
  ghost predicate Sized(k: Kdf) {
    && (forall m :: k.hash(m).Some? ==> |k.hash(m).value| == HASH_LEN)
    && (forall s, i :: k.extract(s, i).Some? ==> |k.extract(s, i).value| == HASH_LEN)
    && (forall p, i, n :: k.expand(p, i, n).Some? ==> |k.expand(p, i, n).value| == n)
  }

  const TLS13: Bytes := Ascii("tls13 ")
  const DTLS13: Bytes := Ascii("dtls13")

  // ---- The HkdfLabel encoding ----

  function LabelError(prefix: Bytes, name: Bytes, context: Bytes, outLen: nat): (e: Option<HkdfError>)
  {
    if outLen > 0xFFFF then Some(OutputTooLong)
    else if |prefix| + |name| > 255 then Some(LabelTooLong)
    else if |context| > 255 then Some(ContextTooLong)
    else if 4 + |prefix| + |name| + |context| > HKDF_LABEL_MAX then Some(EncodedTooLong)
    else None
  }

  function Info(prefix: Bytes, name: Bytes, context: Bytes, outLen: nat): (info: Bytes)
    requires LabelError(prefix, name, context, outLen).None?
    ensures |info| <= HKDF_LABEL_MAX
  {
    U16(outLen) + [|prefix| + |name|] + prefix + name + [|context|] + context
  }

  /** Push onto a vector of capacity `cap`, one byte at a time. */
  method PushBytes(vec: Bytes, cap: nat, bytes: Bytes) returns (ok: bool, out: Bytes)
    requires |vec| <= cap
    ensures ok <==> |vec| + |bytes| <= cap
    ensures ok ==> out == vec + bytes
  {
    out, ok := vec, true;
    var i := 0;
    while i < |bytes|
      invariant 0 <= i <= |bytes|
      invariant out == vec + bytes[..i] && |out| <= cap
    {
      if |out| == cap {
        return false, out;
      }
      out := out + [bytes[i]];
      i := i + 1;
    }
    assert bytes[..i] == bytes;
  }

  method EncodeLabel(prefix: Bytes, name: Bytes, context: Bytes, outLen: nat)
    returns (r: Result<Bytes, HkdfError>)
    ensures r == match LabelError(prefix, name, context, outLen)
                 case Some(e) => Err(e)
                 case None => Ok(Info(prefix, name, context, outLen))
    ensures r.Ok? <==> outLen <= 65535 && |prefix + name| <= 255 && |context| <= 255 && |prefix + name| + |context| <= 60
    ensures r.Ok? ==> r.value == [outLen / 256, outLen % 256, |prefix + name|] + (prefix + name) + [|context|] + context
    ensures r.Err? ==>
              r.error == if outLen > 65535 then OutputTooLong else if |prefix + name| > 255 then LabelTooLong
                         else if |context| > 255 then ContextTooLong else EncodedTooLong
  {
    if outLen > 0xFFFF {
      return Err(OutputTooLong);
    }
    var labelTotal := |prefix| + |name|;
    if labelTotal > 255 {
      return Err(LabelTooLong);
    }
    if |context| > 255 {
      return Err(ContextTooLong);
    }
    var fields := [U16(outLen), [labelTotal % 256], prefix, name, [|context| % 256], context];
    var info: Bytes := [];
    ghost var total := 4 + |prefix| + |name| + |context|;
    assert total == |fields[0]| + |fields[1]| + |fields[2]| + |fields[3]| + |fields[4]| + |fields[5]|;
    var ok;
    ok, info := PushBytes(info, HKDF_LABEL_MAX, fields[0]);
    if !ok { return Err(EncodedTooLong); }
    ok, info := PushBytes(info, HKDF_LABEL_MAX, fields[1]);
    if !ok { return Err(EncodedTooLong); }
    ok, info := PushBytes(info, HKDF_LABEL_MAX, fields[2]);
    if !ok { return Err(EncodedTooLong); }
    ok, info := PushBytes(info, HKDF_LABEL_MAX, fields[3]);
    if !ok { return Err(EncodedTooLong); }
    ok, info := PushBytes(info, HKDF_LABEL_MAX, fields[4]);
    if !ok { return Err(EncodedTooLong); }
    ok, info := PushBytes(info, HKDF_LABEL_MAX, fields[5]);
    if !ok { return Err(EncodedTooLong); }
    assert fields[0] == [] + fields[0];
    r := Ok(info);
  }

  /** Equal encodings carry equal output lengths, full labels and contexts. */
  lemma InfoInjective(p: Bytes, l: Bytes, c: Bytes, n: nat, p': Bytes, l': Bytes, c': Bytes, n': nat)
    requires LabelError(p, l, c, n).None? && LabelError(p', l', c', n').None?
    requires Info(p, l, c, n) == Info(p', l', c', n')
    ensures n == n' && p + l == p' + l' && c == c'
    ensures |p| == |p'| ==> p == p' && l == l'
  {
    var a, b := Info(p, l, c, n), Info(p', l', c', n');
    assert a[0] == b[0] && a[1] == b[1] && a[2] == b[2];
    assert n == n / 256 * 256 + n % 256;
    var m := |p| + |l|;
    assert a[3..3 + m] == p + l && b[3..3 + m] == p' + l';
    assert a[4 + m..] == c && b[4 + m..] == c';
    if |p| == |p'| {
      SplitEqual(p, l, p', l');
    }
  }

  /** A TLS derivation and a DTLS derivation never feed HKDF the same info. */
  lemma PrefixesDisjoint(l: Bytes, c: Bytes, n: nat, l': Bytes, c': Bytes, n': nat)
    requires LabelError(TLS13, l, c, n).None? && LabelError(DTLS13, l', c', n').None?
    ensures Info(TLS13, l, c, n) != Info(DTLS13, l', c', n')
  {
    assert TLS13[0] != DTLS13[0];
    if Info(TLS13, l, c, n) == Info(DTLS13, l', c', n') {
      InfoInjective(TLS13, l, c, n, DTLS13, l', c', n');
    }
  }

  // ---- Derivations ----

  function ExpandLabel(k: Kdf, secret: Bytes, name: Bytes, context: Bytes, outLen: nat): (r: Result<Bytes, HkdfError>)
    ensures Sized(k) && r.Ok? ==> |r.value| == outLen
    ensures outLen <= HASH_LEN && |name| <= 22 && |context| <= HASH_LEN && r.Err? ==> r == Err(Expand)
  {
    match LabelError(TLS13, name, context, outLen)
    case Some(e) => Err(e)
    case None =>
      match k.expand(secret, Info(TLS13, name, context, outLen), outLen)
      case Some(out) => Ok(out)
      case None => Err(Expand)
  }

  function Extract(k: Kdf, salt: Bytes, ikm: Bytes): (r: Result<Bytes, HkdfError>)
  {
    match k.extract(salt, ikm)
    case Some(out) => Ok(out)
    case None => Err(Backend)
  }

  /** No derivation of the schedule can fail on its own label: only the backend can. */
  predicate BackendOnly<T>(r: Result<T, HkdfError>) {
    r.Err? ==> r.error == Expand || r.error == Backend
  }

  function DeriveSecret(k: Kdf, secret: Bytes, name: Bytes, digest: Bytes): (r: Result<Bytes, HkdfError>)
    ensures |name| <= 22 && |digest| == HASH_LEN ==> BackendOnly(r)
  {
    ExpandLabel(k, secret, name, digest, HASH_LEN)
  }

  /** SHA-256 of the empty string. */
  const EMPTY_TRANSCRIPT_HASH: Bytes := [
    0xe3, 0xb0, 0xc4, 0x42, 0x98, 0xfc, 0x1c, 0x14, 0x9a, 0xfb, 0xf4, 0xc8, 0x99, 0x6f, 0xb9, 0x24,
    0x27, 0xae, 0x41, 0xe4, 0x64, 0x9b, 0x93, 0x4c, 0xa4, 0x95, 0x99, 0x1b, 0x78, 0x52, 0xb8, 0x55]

  function HandshakeSecret(k: Kdf, dhe: Bytes): (r: Result<Bytes, HkdfError>)
    ensures BackendOnly(r)
  {
    var early :- Extract(k, Zeros(HASH_LEN), Zeros(HASH_LEN));
    var salt :- DeriveSecret(k, early, Ascii("derived"), EMPTY_TRANSCRIPT_HASH);
    Extract(k, salt, dhe)
  }

  function HandshakeTrafficSecrets(k: Kdf, hs: Bytes, digest: Bytes): (r: Result<(Bytes, Bytes), HkdfError>)
    requires |digest| == HASH_LEN
    ensures BackendOnly(r)
  {
    var c :- DeriveSecret(k, hs, Ascii("c hs traffic"), digest);
    var s :- DeriveSecret(k, hs, Ascii("s hs traffic"), digest);
    Ok((c, s))
  }

  function TrafficKeys(k: Kdf, keyLen: nat, secret: Bytes): (r: Result<RecordKeys, HkdfError>)
    ensures Sized(k) && r.Ok? ==> |r.value.iv| == IV_LEN
    ensures keyLen <= HASH_LEN ==> BackendOnly(r)
  {
    var key :- ExpandLabel(k, secret, Ascii("key"), [], keyLen);
    var iv :- ExpandLabel(k, secret, Ascii("iv"), [], IV_LEN);
    Ok(RecordKeys(key, iv))
  }

  function MasterSecret(k: Kdf, hs: Bytes): (r: Result<Bytes, HkdfError>)
    ensures BackendOnly(r)
  {
    var salt :- DeriveSecret(k, hs, Ascii("derived"), EMPTY_TRANSCRIPT_HASH);
    Extract(k, salt, Zeros(HASH_LEN))
  }

  function ApplicationTrafficSecrets(k: Kdf, ms: Bytes, digest: Bytes): (r: Result<(Bytes, Bytes), HkdfError>)
    requires |digest| == HASH_LEN
    ensures BackendOnly(r)
  {
    var c :- DeriveSecret(k, ms, Ascii("c ap traffic"), digest);
    var s :- DeriveSecret(k, ms, Ascii("s ap traffic"), digest);
    Ok((c, s))
  }

  function NextTrafficSecret(k: Kdf, secret: Bytes): (r: Result<Bytes, HkdfError>)
    ensures BackendOnly(r)
  {
    ExpandLabel(k, secret, Ascii("traffic upd"), [], HASH_LEN)
  }

  function FinishedMac(k: Kdf, secret: Bytes, digest: Bytes): (r: Result<Bytes, HkdfError>)
    ensures Sized(k) && r.Ok? ==> |r.value| == HASH_LEN
    ensures BackendOnly(r)
  {
    var finishedKey :- ExpandLabel(k, secret, Ascii("finished"), [], HASH_LEN);
    Extract(k, finishedKey, digest)
  }

  // ---- Against section 7 of RFC 8446 ----

  lemma FullName(name: string)
    ensures TLS13 + Ascii(name) == Ascii("tls13 " + name)
  {
  }

  /** A derivation is HKDF-Expand-Label with the prefixed name, output length and context spelled out. */
  lemma ExpandLabelExactly(k: Kdf, secret: Bytes, name: string, context: Bytes, n: nat, out: Bytes)
    requires |name| <= 22 && |context| <= 32 && n < 0x1_0000
    ensures ExpandLabel(k, secret, Ascii(name), context, n) == Ok(out) <==>
            R.Expands(k.expand, secret, "tls13 " + name, context, n, out)
  {
    FullName(name);
    var full := Ascii("tls13 " + name);
    assert Info(TLS13, Ascii(name), context, n) == [n / 256, n % 256, |full|] + full + [|context|] + context;
  }

  /** Every name of the schedule, prefix included. */
  lemma Names()
    ensures "tls13 " + "derived" == "tls13 derived" && "tls13 " + "finished" == "tls13 finished"
    ensures "tls13 " + "c hs traffic" == "tls13 c hs traffic" && "tls13 " + "s hs traffic" == "tls13 s hs traffic"
    ensures "tls13 " + "c ap traffic" == "tls13 c ap traffic" && "tls13 " + "s ap traffic" == "tls13 s ap traffic"
    ensures "tls13 " + "key" == "tls13 key" && "tls13 " + "iv" == "tls13 iv"
    ensures "tls13 " + "traffic upd" == "tls13 traffic upd"
  {
  }

  lemma DerivedExactly(k: Kdf, secret: Bytes, salt: Bytes)
    ensures DeriveSecret(k, secret, Ascii("derived"), EMPTY_TRANSCRIPT_HASH) == Ok(salt) <==>
            R.Expands(k.expand, secret, "tls13 derived", R.EMPTY_HASH, 32, salt)
  {
    hide ExpandLabel, R.Expands;
    Names();
    assert EMPTY_TRANSCRIPT_HASH == R.EMPTY_HASH;
    ExpandLabelExactly(k, secret, "derived", EMPTY_TRANSCRIPT_HASH, 32, salt);
  }

  lemma SecretExactly(k: Kdf, secret: Bytes, name: string, digest: Bytes, out: Bytes)
    requires |name| <= 22 && |digest| == HASH_LEN
    ensures DeriveSecret(k, secret, Ascii(name), digest) == Ok(out) <==>
            R.Expands(k.expand, secret, "tls13 " + name, digest, 32, out)
  {
    hide ExpandLabel, R.Expands;
    ExpandLabelExactly(k, secret, name, digest, 32, out);
  }

  /** The handshake half of the schedule, in the terms of section 7.1. */
  lemma HandshakeScheduleExactly(k: Kdf, dhe: Bytes, digest: Bytes, s: R.Secrets)
    requires |digest| == HASH_LEN
    ensures R.HandshakeSchedule(k.extract, k.expand, dhe, digest, s) <==>
            && Extract(k, Zeros(HASH_LEN), Zeros(HASH_LEN)) == Ok(s.early)
            && DeriveSecret(k, s.early, Ascii("derived"), EMPTY_TRANSCRIPT_HASH) == Ok(s.salt1)
            && HandshakeSecret(k, dhe) == Ok(s.handshake)
            && HandshakeTrafficSecrets(k, s.handshake, digest) == Ok((s.clientHandshake, s.serverHandshake))
  {
    hide DeriveSecret, R.Expands;
    Names();
    DerivedExactly(k, s.early, s.salt1);
    SecretExactly(k, s.handshake, "c hs traffic", digest, s.clientHandshake);
    SecretExactly(k, s.handshake, "s hs traffic", digest, s.serverHandshake);
  }

  /** The application half. */
  lemma ApplicationScheduleExactly(k: Kdf, digest: Bytes, s: R.Secrets)
    requires |digest| == HASH_LEN
    ensures R.ApplicationSchedule(k.extract, k.expand, digest, s) <==>
            && DeriveSecret(k, s.handshake, Ascii("derived"), EMPTY_TRANSCRIPT_HASH) == Ok(s.salt2)
            && MasterSecret(k, s.handshake) == Ok(s.master)
            && ApplicationTrafficSecrets(k, s.master, digest) == Ok((s.clientApplication, s.serverApplication))
  {
    hide DeriveSecret, R.Expands;
    Names();
    DerivedExactly(k, s.handshake, s.salt2);
    SecretExactly(k, s.master, "c ap traffic", digest, s.clientApplication);
    SecretExactly(k, s.master, "s ap traffic", digest, s.serverApplication);
  }

  /** Record keys are those of section 7.3. */
  lemma TrafficKeysExactly(k: Kdf, keyLen: nat, secret: Bytes, keys: RecordKeys)
    requires keyLen <= HASH_LEN
    ensures TrafficKeys(k, keyLen, secret) == Ok(keys) <==> R.TrafficKey(k.expand, secret, keyLen, keys.key, keys.iv)
  {
    hide ExpandLabel, R.Expands;
    Names();
    ExpandLabelExactly(k, secret, "key", [], keyLen, keys.key);
    ExpandLabelExactly(k, secret, "iv", [], IV_LEN, keys.iv);
  }

  /** The next secret is that of section 7.2. */
  lemma NextSecretExactly(k: Kdf, secret: Bytes, next: Bytes)
    ensures NextTrafficSecret(k, secret) == Ok(next) <==> R.NextSecret(k.expand, secret, next)
  {
    hide ExpandLabel, R.Expands;
    Names();
    ExpandLabelExactly(k, secret, "traffic upd", [], HASH_LEN, next);
  }

  /** The Finished MAC is that of section 4.4.4. */
  lemma FinishedExactly(k: Kdf, secret: Bytes, digest: Bytes, mac: Bytes)
    ensures FinishedMac(k, secret, digest) == Ok(mac) <==> R.VerifyData(k.extract, k.expand, secret, digest, mac)
  {
    hide ExpandLabel, R.Expands;
    Names();
    forall key
      ensures ExpandLabel(k, secret, Ascii("finished"), [], HASH_LEN) == Ok(key) <==>
              R.Expands(k.expand, secret, "tls13 finished", [], 32, key)
    {
      ExpandLabelExactly(k, secret, "finished", [], HASH_LEN, key);
    }
  }
}
