/**
 * TLS 1.3 as RFC 8446 writes it: bits, bytes and labels spelled out. Nothing here calls the code modelled
 * beside it, so that what the code computes can be compared with it.
 */
module Rfc8446 {
  import opened Bytes
  import opened Wire

  // ---- Section 5.3: the per-record nonce ----

  /** Bit `i` of `n`, counted from the least significant. */
  function Bit(n: nat, i: nat): (b: nat)
    ensures b <= 1
  {
    if i == 0 then n % 2 else Bit(n / 2, i - 1)
  }

  /** The sequence number, padded on the left to the IV's twelve bytes, exclusive or the IV, bit by bit. */
  predicate IsNonce(iv: Bytes, seqNo: nat, nonce: Bytes) {
    && |iv| == 12 && |nonce| == 12
    && forall i, j :: 0 <= i < 12 && 0 <= j < 8 ==>
         (Bit(nonce[i], j) == 1 <==> Bit(iv[i], j) != Bit(seqNo, 8 * (11 - i) + j))
  }

  // ---- Section 5.2: the protected record ----

  /** opaque_type, legacy_record_version and length; also the associated data. */
  function RecordHeader(n: nat): (h: Bytes)
    requires n < 0x1_0000
  {
    [23, 3, 3, n / 256, n % 256]
  }

  /** A record of `ct` and `tag` under its header, short enough to be legal. */
  predicate IsRecord(record: Bytes, ct: Bytes, tag: Bytes) {
    |tag| == 16 && |ct| + 16 <= 16640 && record == RecordHeader(|ct| + 16) + ct + tag
  }

  // ---- Section 7.1: the key schedule ----

  type Extract = (Bytes, Bytes) -> Option<Bytes>
  type Expand = (Bytes, Bytes, nat) -> Option<Bytes>

  /** HKDF-Expand-Label with its HkdfLabel written out; `name` includes the "tls13 " prefix. */
  predicate Expands(expand: Expand, secret: Bytes, name: string, context: Bytes, n: nat, out: Bytes)
    requires |name| < 256 && |context| < 256 && n < 0x1_0000
  {
    expand(secret, [n / 256, n % 256, |name|] + Ascii(name) + [|context|] + context, n) == Some(out)
  }

  /** SHA-256 of the empty string. */
  const EMPTY_HASH: Bytes := [
    227, 176, 196, 66, 152, 252, 28, 20, 154, 251, 244, 200, 153, 111, 185, 36,
    39, 174, 65, 228, 100, 155, 147, 76, 164, 149, 153, 27, 120, 82, 184, 85]

  /** The secrets of section 7.1 in the order of its diagram. */
  datatype Secrets = Secrets(early: Bytes, salt1: Bytes, handshake: Bytes, clientHandshake: Bytes, serverHandshake: Bytes,
                             salt2: Bytes, master: Bytes, clientApplication: Bytes, serverApplication: Bytes)

  /** Early and handshake secrets from the agreed key and the digest of ClientHello and ServerHello. */
  predicate HandshakeSchedule(extract: Extract, expand: Expand, dhe: Bytes, digest: Bytes, s: Secrets)
    requires |digest| == 32
  {
    && extract(Zeros(32), Zeros(32)) == Some(s.early)
    && Expands(expand, s.early, "tls13 derived", EMPTY_HASH, 32, s.salt1)
    && extract(s.salt1, dhe) == Some(s.handshake)
    && Expands(expand, s.handshake, "tls13 c hs traffic", digest, 32, s.clientHandshake)
    && Expands(expand, s.handshake, "tls13 s hs traffic", digest, 32, s.serverHandshake)
  }

  /** Master and application secrets from the handshake secret and the digest through the server's Finished. */
  predicate ApplicationSchedule(extract: Extract, expand: Expand, digest: Bytes, s: Secrets)
    requires |digest| == 32
  {
    && Expands(expand, s.handshake, "tls13 derived", EMPTY_HASH, 32, s.salt2)
    && extract(s.salt2, Zeros(32)) == Some(s.master)
    && Expands(expand, s.master, "tls13 c ap traffic", digest, 32, s.clientApplication)
    && Expands(expand, s.master, "tls13 s ap traffic", digest, 32, s.serverApplication)
  }

  /** Section 7.3: the record key and IV of a traffic secret. */
  predicate TrafficKey(expand: Expand, secret: Bytes, keyLen: nat, key: Bytes, iv: Bytes)
    requires keyLen <= 32
  {
    && Expands(expand, secret, "tls13 key", [], keyLen, key)
    && Expands(expand, secret, "tls13 iv", [], 12, iv)
  }

  /** Section 7.2: the next generation of a traffic secret. */
  predicate NextSecret(expand: Expand, secret: Bytes, next: Bytes) {
    Expands(expand, secret, "tls13 traffic upd", [], 32, next)
  }

  /** Section 4.4.4: verify_data under a base key, HMAC being the extract step of HKDF. */
  ghost predicate VerifyData(extract: Extract, expand: Expand, baseKey: Bytes, digest: Bytes, mac: Bytes) {
    exists key :: Expands(expand, baseKey, "tls13 finished", [], 32, key) && extract(key, digest) == Some(mac)
  }

  // ---- Section 4.1.3: the ServerHello ----

  /** The random of a HelloRetryRequest: SHA-256 of "HelloRetryRequest". */
  const RETRY_RANDOM: Bytes := [
    207, 33, 173, 116, 229, 154, 97, 17, 190, 29, 140, 2, 30, 101, 184, 145,
    194, 162, 17, 22, 122, 187, 140, 94, 7, 158, 9, 226, 200, 168, 51, 156]

  /** The last eight bytes of a server that could have done better: "DOWNGRD" and the version it fell back to. */
  predicate IsDowngrade(random: Bytes) {
    |random| == 32 && (random[24..] == Ascii("DOWNGRD") + [1] || random[24..] == Ascii("DOWNGRD") + [0])
  }

  /** A record of one handshake message with the fields of a ServerHello, right or wrong. */
  function HelloRecord(ct: Byte, recordVersion: nat, typ: Byte, version: nat, random: Bytes, sessionId: Bytes, suite: nat,
                       compression: Byte, exts: Bytes): (record: Bytes)
    requires recordVersion < 0x1_0000 && version < 0x1_0000 && suite < 0x1_0000
    requires |random| == 32 && |sessionId| < 256 && |exts| < 0xF000
  {
    [ct] + U16(recordVersion)
    + Vec16([typ] + Vec24(U16(version) + (random + (Vec8(sessionId) + (U16(suite) + ([compression] + Vec16(exts)))))))
  }

  /** supported_versions with TLS 1.3, and key_share with one entry. */
  const VERSIONS: Bytes := [0, 43, 0, 2, 3, 4]

  function KeyShare(group: nat, key: Bytes): (b: Bytes)
    requires group < 0x1_0000 && |key| < 2000
    ensures |b| < 2100
  {
    [0, 51] + Vec16(U16(group) + Vec16(key))
  }

  /** The record of a ServerHello, its two extensions in either order. */
  function ServerHello(random: Bytes, sessionId: Bytes, suite: nat, group: nat, key: Bytes, versionFirst: bool): (record: Bytes)
    requires |random| == 32 && |sessionId| <= 32 && suite < 0x1_0000 && group < 0x1_0000 && |key| < 2000
  {
    HelloRecord(22, 0x0303, 2, 0x0303, random, sessionId, suite, 0,
                if versionFirst then VERSIONS + KeyShare(group, key) else KeyShare(group, key) + VERSIONS)
  }

  // ---- Section 4.4.3: what a CertificateVerify signs ----

  const CLIENT_CONTEXT := "TLS 1.3, client CertificateVerify"
  const SERVER_CONTEXT := "TLS 1.3, server CertificateVerify"

  /** 64 spaces, the 33 characters of the context, a zero byte, the transcript digest. */
  predicate IsSignedContent(content: Bytes, context: string, digest: Bytes) {
    && |context| == 33 && |content| == 98 + |digest|
    && (forall i :: 0 <= i < 64 ==> content[i] == 0x20)
    && (forall i :: 0 <= i < 33 ==> content[64 + i] == context[i] as int)
    && content[97] == 0
    && content[98..] == digest
  }

  /** Digest and side can be read off the content. */
  lemma SignedContentSeparates(a: Bytes, b: Bytes, contextA: string, contextB: string, digestA: Bytes, digestB: Bytes)
    requires IsSignedContent(a, contextA, digestA) && IsSignedContent(b, contextB, digestB)
    ensures a == b <==> contextA == contextB && digestA == digestB
  {
    if a == b {
      forall i | 0 <= i < 33
        ensures contextA[i] == contextB[i]
      {
        assert a[64 + i] == b[64 + i];
      }
    }
    if contextA == contextB && digestA == digestB {
      forall i | 0 <= i < |a|
        ensures a[i] == b[i]
      {
        if i >= 98 {
          assert a[i] == a[98..][i - 98] && b[i] == b[98..][i - 98];
        } else if 64 <= i < 97 {
          var j := i - 64;
          assert a[64 + j] == contextA[j] as int && b[64 + j] == contextB[j] as int;
        }
      }
    }
  }
}
