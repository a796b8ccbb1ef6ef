/** TLS 1.3 record protection: per-record nonce, sealing, opening, padding removal. */
module Aead {
  import opened Bytes
  import opened Consts
  import opened Rfc8446

  datatype Sealed = Sealed(ct: Bytes, tag: Bytes)

  /** An AEAD backend: `seal(key, nonce, aad, plaintext)` and
      `open(key, nonce, aad, ciphertext, tag)`. */
  datatype Cipher = Cipher(keyLen: nat,
                           seal: (Bytes, Bytes, Bytes, Bytes) -> Sealed,
                           open: (Bytes, Bytes, Bytes, Bytes, Bytes) -> Option<Bytes>)

  /** All that is ever assumed of the cipher. */
  ghost predicate Sound(c: Cipher) {
    && (forall k, n, a, p ::
          var s := c.seal(k, n, a, p);
          |s.ct| == |p| && |s.tag| == AEAD_TAG_LEN && c.open(k, n, a, s.ct, s.tag) == Some(p))
    && (forall k, n, a, x, t :: c.open(k, n, a, x, t).Some? ==> |c.open(k, n, a, x, t).value| == |x|)
  }

  datatype RecordKeys = RecordKeys(key: Bytes, iv: Bytes)

  datatype EncryptError = BufferTooSmall(needed: nat, got: nat) | RecordTooLarge

  datatype DecryptError =
    | Truncated
    | OversizedRecord
    | TrailingBytes
    | UnexpectedContentType(ct: Byte)
    | UnexpectedLegacyVersion(version: nat)
    | AeadFailed
    | EmptyInnerPlaintext

  // ---- Nonce ----

  /** Bitwise exclusive or of the low `bits` bits. */
  function Xor(a: nat, b: nat, bits: nat): (r: nat)
  {
    if bits == 0 then 0 else 2 * Xor(a / 2, b / 2, bits - 1) + (a + b) % 2
  }

  function Pow2(n: nat): (r: nat)
    ensures r >= 1
  {
    if n == 0 then 1 else 2 * Pow2(n - 1)
  }

  /** Exclusive or stays in range and undoes itself. */
  lemma {:induction false} XorInvolution(a: nat, b: nat, bits: nat)
    requires a < Pow2(bits) && b < Pow2(bits)
    ensures Xor(a, b, bits) < Pow2(bits)
    ensures Xor(Xor(a, b, bits), a, bits) == b
  {
    hide Xor;
    if bits > 0 {
      var q, r := Xor(a / 2, b / 2, bits - 1), (a + b) % 2;
      Halved(a);
      Halved(b);
      XorInvolution(a / 2, b / 2, bits - 1);
      DoubleAndBit(q, r);
      OneBit(a % 2, b % 2);
      XorStep(a, b, bits);
      XorStep(2 * q + r, a, bits);
      SumBit(a, b);
      SumBit(2 * q + r, a);
    } else {
      XorNone(a, b);
      XorNone(0, a);
    }
  }

  lemma XorNone(a: nat, b: nat)
    ensures Xor(a, b, 0) == 0
  {
  }

  lemma XorStep(a: nat, b: nat, bits: nat)
    requires bits > 0
    ensures Xor(a, b, bits) == 2 * Xor(a / 2, b / 2, bits - 1) + (a + b) % 2
  {
  }

  lemma Halved(a: nat)
    ensures a == 2 * (a / 2) + a % 2 && 0 <= a % 2 <= 1
  {
  }

  lemma DoubleAndBit(q: nat, r: nat)
    requires r <= 1
    ensures (2 * q + r) / 2 == q && (2 * q + r) % 2 == r
  {
  }

  lemma SumBit(a: nat, b: nat)
    ensures (a + b) % 2 == (a % 2 + b % 2) % 2
  {
  }

  lemma OneBit(a: nat, b: nat)
    requires a <= 1 && b <= 1
    ensures (a + b) % 2 <= 1 && ((a + b) % 2 + a) % 2 == b
  {
  }

  lemma Pow2Of8()
    ensures Pow2(8) == 256
  {
    assert Pow2(4) == 16;
  }

  function XorByte(a: Byte, b: Byte): (r: Byte)
    ensures Xor(r, a, 8) == b
  {
    Pow2Of8();
    XorInvolution(a, b, 8);
    Xor(a, b, 8)
  }

  function RecordNonce(iv: Bytes, seqNo: nat): (nonce: Bytes)
    requires |iv| == 12
    ensures |nonce| == 12
  {
    var s := BigEndian(seqNo, 8);
    iv[..4] + seq(8, i requires 0 <= i < 8 => XorByte(iv[4 + i], s[i]))
  }

  lemma Pow256Of8()
    ensures Pow256(8) == TWO64
  {
    assert Pow256(4) == 0x1_0000_0000;
    assert Pow256(6) == 0x1_0000_0000_0000;
  }

  /** Each bit of the exclusive or is set where the two bits differ. */
  lemma {:induction false} XorBits(a: nat, b: nat, bits: nat, j: nat)
    requires j < bits
    ensures Bit(Xor(a, b, bits), j) == 1 <==> Bit(a, j) != Bit(b, j)
    decreases j
  {
    DoubleAndBit(Xor(a / 2, b / 2, bits - 1), (a + b) % 2);
    if j == 0 {
      SumBit(a, b);
    } else {
      XorBits(a / 2, b / 2, bits - 1, j - 1);
    }
  }

  lemma {:induction false} LowBits(x: nat, r: nat, m: nat, j: nat)
    requires j < m
    ensures Bit(Pow2(m) * x + r, j) == Bit(r, j)
    decreases j
  {
    var t := Pow2(m - 1) * x;
    assert Pow2(m) * x == 2 * t;
    assert (2 * t + r) / 2 == t + r / 2;
    if j > 0 {
      LowBits(x, r / 2, m - 1, j - 1);
    }
  }

  lemma {:induction false} HighBits(n: nat, m: nat, j: nat)
    requires n < Pow2(m) && m <= j
    ensures Bit(n, j) == 0
    decreases j
  {
    if j > 0 {
      HighBits(n / 2, if m == 0 then 0 else m - 1, j - 1);
    }
  }

  lemma TwoBitShift(n: nat, j: nat)
    ensures Bit(n, j + 2) == Bit(n / 4, j)
  {
    assert Bit(n, j + 2) == Bit(n / 2, j + 1);
  }

  lemma ByteShift(n: nat, j: nat)
    ensures Bit(n, j + 8) == Bit(n / 256, j)
  {
    TwoBitShift(n, j + 6);
    TwoBitShift(n / 4, j + 4);
    TwoBitShift(n / 16, j + 2);
    TwoBitShift(n / 64, j);
  }

  lemma {:induction false} ByteBits(n: nat, k: nat, i: nat, j: nat)
    requires i < k && j < 8
    ensures Bit(BigEndian(n, k)[i], j) == Bit(n, 8 * (k - 1 - i) + j)
    decreases k
  {
    if i == k - 1 {
      Pow2Of8();
      LowBits(n / 256, n % 256, 8, j);
    } else {
      ByteBits(n / 256, k - 1, i, j);
      ByteShift(n, 8 * (k - 2 - i) + j);
    }
  }

  lemma Pow2Of64()
    ensures Pow2(64) == TWO64
  {
    hide Pow2;
    Pow2Of8();
    Pow2Adds(8, 8);
    Pow2Adds(16, 16);
    Pow2Adds(32, 32);
  }

  lemma {:induction false} Pow2Adds(a: nat, b: nat)
    ensures Pow2(a + b) == Pow2(a) * Pow2(b)
  {
    if a > 0 {
      Pow2Adds(a - 1, b);
    }
  }

  lemma NonceIsXor(iv: Bytes, seqNo: nat)
    requires |iv| == 12 && seqNo < TWO64
    ensures IsNonce(iv, seqNo, RecordNonce(iv, seqNo))
  {
    hide Bit, Xor, BigEndian, Pow2;
    var nonce := RecordNonce(iv, seqNo);
    forall i, j | 0 <= i < 12 && 0 <= j < 8
      ensures Bit(nonce[i], j) == 1 <==> Bit(iv[i], j) != Bit(seqNo, 8 * (11 - i) + j)
    {
      if i < 4 {
        Pow2Of64();
        HighBits(seqNo, 64, 8 * (11 - i) + j);
      } else {
        ByteBits(seqNo, 8, i - 4, j);
        XorBits(iv[i], BigEndian(seqNo, 8)[i - 4], 8, j);
      }
    }
  }

  lemma {:induction false} SameBits(a: nat, b: nat, m: nat)
    requires a < Pow2(m) && b < Pow2(m) && forall j :: 0 <= j < m ==> Bit(a, j) == Bit(b, j)
    ensures a == b
  {
    if m > 0 {
      assert Bit(a, 0) == Bit(b, 0);
      forall j | 0 <= j < m - 1
        ensures Bit(a / 2, j) == Bit(b / 2, j)
      {
        assert Bit(a, j + 1) == Bit(b, j + 1);
      }
      SameBits(a / 2, b / 2, m - 1);
    }
  }

  /** The nonce of section 5.3 of RFC 8446, and no other. */
  lemma NonceExactly(iv: Bytes, seqNo: nat, nonce: Bytes)
    requires |iv| == 12 && seqNo < TWO64
    ensures IsNonce(iv, seqNo, nonce) <==> nonce == RecordNonce(iv, seqNo)
  {
    hide Bit, Pow2, RecordNonce;
    NonceIsXor(iv, seqNo);
    var own := RecordNonce(iv, seqNo);
    if IsNonce(iv, seqNo, nonce) {
      Pow2Of8();
      forall i | 0 <= i < 12
        ensures nonce[i] == own[i]
      {
        forall j | 0 <= j < 8
          ensures Bit(nonce[i], j) == Bit(own[i], j)
        {
          assert Bit(nonce[i], j) == 1 <==> Bit(own[i], j) == 1;
        }
        SameBits(nonce[i], own[i], 8);
      }
    }
  }

  /** Under one IV, equal nonces mean equal sequence numbers. */
  lemma NonceInjective(iv: Bytes, s: nat, t: nat)
    requires |iv| == 12 && s < TWO64 && t < TWO64
    requires RecordNonce(iv, s) == RecordNonce(iv, t)
    ensures s == t
  {
    var a, b := BigEndian(s, 8), BigEndian(t, 8);
    forall i | 0 <= i < 8
      ensures a[i] == b[i]
    {
      assert RecordNonce(iv, s)[4 + i] == XorByte(iv[4 + i], a[i]);
      assert RecordNonce(iv, t)[4 + i] == XorByte(iv[4 + i], b[i]);
    }
    assert a == b;
    Pow256Of8();
    BigEndianRoundTrip(s, 8);
    BigEndianRoundTrip(t, 8);
  }

  /** The in-place form: the IV with its last eight bytes xored one at a time. */
  method AeadNonce(iv: Bytes, seqNo: nat) returns (nonce: Bytes)
    requires |iv| == 12 && seqNo < TWO64
    ensures nonce == RecordNonce(iv, seqNo) && IsNonce(iv, seqNo, nonce)
  {
    NonceIsXor(iv, seqNo);
    hide Bit, Xor, IsNonce;
    var seqBe := BigEndian(seqNo, 8);
    var buf := new Byte[12](i requires 0 <= i < 12 => iv[i]);
    var i := 0;
    while i < 8
      invariant 0 <= i <= 8
      invariant forall j :: 0 <= j < 4 + i ==> buf[j] == RecordNonce(iv, seqNo)[j]
      invariant forall j :: 4 + i <= j < 12 ==> buf[j] == iv[j]
    {
      buf[4 + i] := XorByte(buf[4 + i], seqBe[i]);
      i := i + 1;
    }
    nonce := buf[..];
  }

  // ---- Padding removal ----

  /** The naive scan: drop zeros from the end until a nonzero byte. */
  function StripZeros(b: Bytes): (r: Bytes)
  {
    if b != [] && b[|b| - 1] == 0 then StripZeros(b[..|b| - 1]) else b
  }

  function SplitInner(inner: Bytes): (r: Result<(Bytes, Byte), DecryptError>)
  {
    if |inner| > TLS_CIPHERTEXT_MAX then Err(OversizedRecord)
    else
      var t := StripZeros(inner);
      if t == [] then Err(EmptyInnerPlaintext)
      else if |t| - 1 > TLS_PLAINTEXT_MAX then Err(OversizedRecord)
      else Ok((t[..|t| - 1], t[|t| - 1]))
  }

  /** StripZeros cuts `b` into a part not ending in zero, and zeros. */
  lemma {:induction false} StripZerosSplits(b: Bytes)
    ensures |StripZeros(b)| <= |b|
    ensures b == StripZeros(b) + Zeros(|b| - |StripZeros(b)|)
    ensures StripZeros(b) != [] ==> StripZeros(b)[|StripZeros(b)| - 1] != 0
  {
    if b != [] && b[|b| - 1] == 0 {
      StripZerosSplits(b[..|b| - 1]);
      var n := |b| - |StripZeros(b)|;
      assert b == b[..|b| - 1] + [0];
      assert Zeros(n) == Zeros(n - 1) + [0];
    } else {
      assert b == b + Zeros(0);
    }
  }

  /** There is only one such cut. */
  lemma StripZerosUnique(b: Bytes, head: Bytes, pad: nat)
    requires b == head + Zeros(pad)
    requires head != [] && head[|head| - 1] != 0
    ensures StripZeros(b) == head
  {
    StripZerosSplits(b);
    var s := StripZeros(b);
    assert b[|head| - 1] != 0;
    assert |s| >= |head|;
    assert b[|s| - 1] == s[|s| - 1];
    assert forall j :: |head| <= j < |b| ==> b[j] == 0;
    assert b[..|head|] == head && b[..|s|] == s;
  }

  lemma {:induction false} StripZerosOfZeros(n: nat)
    ensures StripZeros(Zeros(n)) == []
  {
    if n > 0 {
      assert Zeros(n)[..n - 1] == Zeros(n - 1);
      StripZerosOfZeros(n - 1);
    }
  }

  lemma StripsTo(b: Bytes, end: nat)
    requires end <= |b| && (forall j :: end <= j < |b| ==> b[j] == 0) && (end > 0 ==> b[end - 1] != 0)
    ensures StripZeros(b) == b[..end]
  {
    assert b == b[..end] + Zeros(|b| - end);
    if end == 0 {
      assert b == Zeros(|b|);
      StripZerosOfZeros(|b|);
    } else {
      StripZerosUnique(b, b[..end], |b| - end);
    }
  }

  /** The constant-time form: one pass over every byte, remembering the last nonzero one. */
  method SplitInnerPlaintext(inner: Bytes) returns (r: Result<(Bytes, Byte), DecryptError>)
    ensures r == SplitInner(inner)
  {
    if |inner| > TLS_CIPHERTEXT_MAX {
      return Err(OversizedRecord);
    }
    var lastNonzeroPlusOne: nat := 0;
    var contentType: Byte := 0;
    var i := 0;
    while i < |inner|
      invariant 0 <= i <= |inner|
      invariant 0 <= lastNonzeroPlusOne <= i
      invariant forall j :: lastNonzeroPlusOne <= j < i ==> inner[j] == 0
      invariant lastNonzeroPlusOne > 0 ==>
                  contentType == inner[lastNonzeroPlusOne - 1] && contentType != 0
    {
      var isNonzero := inner[i] != 0;
      lastNonzeroPlusOne := if isNonzero then (i + 1) % 0x1_0000_0000 else lastNonzeroPlusOne;
      contentType := if isNonzero then inner[i] else contentType;
      i := i + 1;
    }
    var end := lastNonzeroPlusOne;
    StripsTo(inner, end);
    hide StripZeros, Zeros;
    if end == 0 {
      return Err(EmptyInnerPlaintext);
    }
    assert inner[..end][..end - 1] == inner[..end - 1];
    if end - 1 > TLS_PLAINTEXT_MAX {
      return Err(OversizedRecord);
    }
    r := Ok((inner[..end - 1], contentType));
  }

  /** Splitting inverts padding exactly: a plaintext splits into `(content, ct)` if and only
      if it is `content || ct || zeros` with a nonzero type, inside both size caps. */
  lemma SplitInvertsPadding(inner: Bytes, content: Bytes, ct: Byte)
    ensures SplitInner(inner) == Ok((content, ct)) <==>
              && ct != 0
              && |inner| <= 16640 && |content| <= 16384
              && |content| + 1 <= |inner|
              && inner == content + [ct] + Zeros(|inner| - |content| - 1)
  {
    StripZerosSplits(inner);
    var t := StripZeros(inner);
    if SplitInner(inner) == Ok((content, ct)) {
      assert t == content + [ct];
    }
    if ct != 0 && |content| + 1 <= |inner| && inner == content + [ct] + Zeros(|inner| - |content| - 1) {
      StripZerosUnique(inner, content + [ct], |inner| - |content| - 1);
    }
  }

  /** The two refusals: nothing but padding, or more than the caps allow. */
  lemma SplitRefuses(inner: Bytes)
    ensures SplitInner(inner) == Err(EmptyInnerPlaintext) <==>
              |inner| <= 16640 && forall i :: 0 <= i < |inner| ==> inner[i] == 0
    ensures SplitInner(inner) == Err(OversizedRecord) <==>
              |inner| > 16640 || exists i :: 16384 < i < |inner| && inner[i] != 0
    ensures SplitInner(inner).Err? ==> SplitInner(inner).error in {EmptyInnerPlaintext, OversizedRecord}
  {
    hide StripZeros;
    StripZerosSplits(inner);
    var t := StripZeros(inner);
    assert forall i :: |t| <= i < |inner| ==> inner[i] == 0;
    if t != [] {
      assert inner[|t| - 1] == t[|t| - 1];
    }
  }

  // ---- Sealing ----

  function Header(bodyLen: nat): (h: Bytes)
    requires bodyLen < 0x1_0000
    ensures |h| == RECORD_HEADER
  {
    [CT_APPLICATION_DATA] + U16(LEGACY_VERSION) + U16(bodyLen)
  }

  function RecordLen(contentLen: nat): nat {
    contentLen + CONTENT_TYPE_LEN + AEAD_TAG_LEN + RECORD_HEADER
  }

  /** Which error, if any, sealing `contentLen` bytes into `room` bytes gives. */
  function SealError(contentLen: nat, room: nat): (e: Option<EncryptError>)
  {
    if contentLen > TLS_PLAINTEXT_MAX then Some(RecordTooLarge)
    else if room < RecordLen(contentLen) then Some(BufferTooSmall(RecordLen(contentLen), room))
    else None
  }

  function SealRecord(c: Cipher, keys: RecordKeys, seqNo: nat, content: Bytes, ct: Byte): (record: Bytes)
    requires |content| <= TLS_PLAINTEXT_MAX && |keys.iv| == 12
  {
    var h := Header(|content| + CONTENT_TYPE_LEN + AEAD_TAG_LEN);
    var s := c.seal(keys.key, RecordNonce(keys.iv, seqNo), h, content + [ct]);
    h + s.ct + s.tag
  }

  method EncryptRecord(c: Cipher, keys: RecordKeys, content: Bytes, ct: Byte, seqNo: nat,
                       out: array<Byte>, at: nat)
    returns (r: Result<nat, EncryptError>)
    requires Sound(c) && |keys.iv| == 12 && seqNo < TWO64 && at <= out.Length
    modifies out
    ensures r == match SealError(|content|, out.Length - at)
                 case Some(e) => Err(e)
                 case None => Ok(RecordLen(|content|))
    ensures r.Err? ==> out[..] == old(out[..])
    ensures r.Ok? ==> |SealRecord(c, keys, seqNo, content, ct)| == r.value
    ensures r.Ok? ==> out[..] == Splice(old(out[..]), at, SealRecord(c, keys, seqNo, content, ct))
  {
    hide Splice, RecordNonce;
    if |content| > TLS_PLAINTEXT_MAX {
      return Err(RecordTooLarge);
    }
    var innerLen := |content| + CONTENT_TYPE_LEN;
    var cipherBodyLen := innerLen + AEAD_TAG_LEN;
    var totalLen := cipherBodyLen + RECORD_HEADER;
    if cipherBodyLen > TLS_CIPHERTEXT_MAX {
      return Err(RecordTooLarge);
    }
    if out.Length - at < totalLen {
      return Err(BufferTooSmall(totalLen, out.Length - at));
    }
    var aad := Header(cipherBodyLen % 0x1_0000);
    ghost var before := out[..];
    PutInner(out, at, aad, content, ct);
    var nonce := AeadNonce(keys.iv, seqNo);
    SpliceTail(before, at, aad, content + [ct], content + [ct]);
    var s := c.seal(keys.key, nonce, aad, out[at + RECORD_HEADER..at + RECORD_HEADER + innerLen]);
    PutSealed(out, at, aad, content + [ct], s, before);
    r := Ok(totalLen);
  }

  method PutInner(out: array<Byte>, at: nat, aad: Bytes, content: Bytes, ct: Byte)
    requires at + |aad| + |content| + 1 <= out.Length
    modifies out
    ensures out[..] == Splice(old(out[..]), at, aad + (content + [ct]))
  {
    hide Splice;
    ghost var before := out[..];
    CopyBytes(out, at, aad);
    CopyBytes(out, at + |aad|, content);
    SpliceAdjacent(before, at, aad, content);
    ghost var head := aad + content;
    CopyBytes(out, at + |aad| + |content|, [ct]);
    SpliceAdjacent(before, at, head, [ct]);
    assert head + [ct] == aad + (content + [ct]);
  }

  method PutSealed(out: array<Byte>, at: nat, aad: Bytes, inner: Bytes, s: Sealed, ghost before: Bytes)
    requires at + |aad| + |inner| + |s.tag| <= out.Length == |before| && |s.ct| == |inner|
    requires out[..] == Splice(before, at, aad + inner)
    modifies out
    ensures out[..] == Splice(before, at, aad + s.ct + s.tag)
  {
    hide Splice;
    CopyBytes(out, at + |aad|, s.ct);
    SpliceTail(before, at, aad, inner, s.ct);
    CopyBytes(out, at + |aad| + |s.ct|, s.tag);
    SpliceAdjacent(before, at, aad + s.ct, s.tag);
  }

  // ---- Opening ----

  /** The framing checks a record passes before its body is given to the AEAD. */
  function FramingError(record: Bytes): (e: Option<DecryptError>)
    ensures e.None? ==> |record| >= RECORD_HEADER + AEAD_TAG_LEN
    ensures e.None? <==> exists n :: AEAD_TAG_LEN <= n <= TLS_CIPHERTEXT_MAX
                                     && |record| == RECORD_HEADER + n && record[..RECORD_HEADER] == Header(n)
  {
    if |record| < RECORD_HEADER then Some(Truncated)
    else if record[0] != CT_APPLICATION_DATA then Some(UnexpectedContentType(record[0]))
    else if GetU16(record, 1) != LEGACY_VERSION then Some(UnexpectedLegacyVersion(GetU16(record, 1)))
    else
      var bodyLen := GetU16(record, 3);
      assert record[..RECORD_HEADER] == [record[0]] + record[1..3] + record[3..5];
      assert forall n: nat :: n < 0x1_0000 && record[..RECORD_HEADER] == Header(n) ==>
               record[3] == Header(n)[3] && record[4] == Header(n)[4];
      if bodyLen > TLS_CIPHERTEXT_MAX then Some(OversizedRecord)
      else if |record| < RECORD_HEADER + bodyLen then Some(Truncated)
      else if |record| != RECORD_HEADER + bodyLen then Some(TrailingBytes)
      else if bodyLen < AEAD_TAG_LEN then Some(Truncated)
      else
        assert record[..RECORD_HEADER] == Header(bodyLen);
        None
  }

  function OpenRecord(c: Cipher, keys: RecordKeys, seqNo: nat, record: Bytes): (r: Result<Bytes, DecryptError>)
    requires |keys.iv| == 12
  {
    match FramingError(record)
    case Some(e) => Err(e)
    case None =>
      var tagAt := |record| - AEAD_TAG_LEN;
      match c.open(keys.key, RecordNonce(keys.iv, seqNo), record[..RECORD_HEADER],
                   record[RECORD_HEADER..tagAt], record[tagAt..])
      case Some(p) => Ok(p)
      case None => Err(AeadFailed)
  }

  /** On success the plaintext replaces the ciphertext in place; on an AEAD failure that
      region is zeroed; on a framing error nothing is written. */
  method DecryptRecordInPlace(c: Cipher, keys: RecordKeys, record: array<Byte>, seqNo: nat)
    returns (r: Result<nat, DecryptError>)
    requires Sound(c) && |keys.iv| == 12 && seqNo < TWO64
    modifies record
    ensures match OpenRecord(c, keys, seqNo, old(record[..]))
            case Ok(p) =>
              && r == Ok(|p|)
              && RECORD_HEADER + |p| <= record.Length && record[..] == Splice(old(record[..]), RECORD_HEADER, p)
            case Err(e) =>
              && r == Err(e)
              && (e == AeadFailed && FramingError(old(record[..])).None? ==>
                    record[..] == Splice(old(record[..]), RECORD_HEADER,
                                         Zeros(record.Length - RECORD_HEADER - AEAD_TAG_LEN)))
              && (FramingError(old(record[..])).Some? ==> record[..] == old(record[..]))
  {
    if record.Length < RECORD_HEADER {
      return Err(Truncated);
    }
    if record[0] != CT_APPLICATION_DATA {
      return Err(UnexpectedContentType(record[0]));
    }
    ghost var whole := record[..];
    var legacyVersion := GetU16(record[..RECORD_HEADER], 1);
    if legacyVersion != LEGACY_VERSION {
      return Err(UnexpectedLegacyVersion(legacyVersion));
    }
    var bodyLen := GetU16(record[..RECORD_HEADER], 3);
    if bodyLen > TLS_CIPHERTEXT_MAX {
      return Err(OversizedRecord);
    }
    if record.Length < RECORD_HEADER + bodyLen {
      return Err(Truncated);
    }
    if record.Length != RECORD_HEADER + bodyLen {
      return Err(TrailingBytes);
    }
    if bodyLen < AEAD_TAG_LEN {
      return Err(Truncated);
    }
    var ctLen := bodyLen - AEAD_TAG_LEN;
    var tag := record[RECORD_HEADER + ctLen..];
    var nonce := AeadNonce(keys.iv, seqNo);
    assert whole[..RECORD_HEADER] == record[..RECORD_HEADER];
    var plain := c.open(keys.key, nonce, record[..RECORD_HEADER],
                         record[RECORD_HEADER..RECORD_HEADER + ctLen], tag);
    match plain
    case Some(p) =>
      CopyBytes(record, RECORD_HEADER, p);
      r := Ok(ctLen);
    case None =>
      CopyBytes(record, RECORD_HEADER, Zeros(ctLen));
      r := Err(AeadFailed);
  }

  /** Opening under the same keys and sequence number returns the inner plaintext. */
  lemma OpenUndoesSeal(c: Cipher, keys: RecordKeys, seqNo: nat, content: Bytes, ct: Byte)
    requires Sound(c) && |keys.iv| == 12 && |content| <= TLS_PLAINTEXT_MAX
    ensures |SealRecord(c, keys, seqNo, content, ct)| == RecordLen(|content|)
    ensures OpenRecord(c, keys, seqNo, SealRecord(c, keys, seqNo, content, ct)) == Ok(content + [ct])
  {
    var n := |content| + CONTENT_TYPE_LEN + AEAD_TAG_LEN;
    var h := Header(n);
    var s := c.seal(keys.key, RecordNonce(keys.iv, seqNo), h, content + [ct]);
    var record := SealRecord(c, keys, seqNo, content, ct);
    assert record[..RECORD_HEADER] == h;
    assert record[RECORD_HEADER..|record| - AEAD_TAG_LEN] == s.ct;
    assert record[|record| - AEAD_TAG_LEN..] == s.tag;
  }

  function OpenAndSplit(c: Cipher, keys: RecordKeys, seqNo: nat, record: Bytes): (r: Result<(Bytes, Byte), DecryptError>)
    requires |keys.iv| == 12
  {
    var inner :- OpenRecord(c, keys, seqNo, record);
    SplitInner(inner)
  }

  /** A sealed record comes back as the pair that was sealed if and only if its content
      type is nonzero: a zero type is indistinguishable from padding. */
  lemma RecordRoundTrip(c: Cipher, keys: RecordKeys, seqNo: nat, content: Bytes, ct: Byte)
    requires Sound(c) && |keys.iv| == 12 && |content| <= TLS_PLAINTEXT_MAX
    ensures OpenAndSplit(c, keys, seqNo, SealRecord(c, keys, seqNo, content, ct)) == Ok((content, ct))
            <==> ct != 0
  {
    OpenUndoesSeal(c, keys, seqNo, content, ct);
    SplitInvertsPadding(content + [ct], content, ct);
    assert Zeros(0) == [];
    assert content + [ct] + Zeros(0) == content + [ct];
  }

  // ---- Against section 5.2 of RFC 8446 ----

  /** The sealer protects `content || type` under the literal header, which also goes on the wire, and the nonce
      of section 5.3; and it refuses by size alone. */
  lemma SealedExactly(c: Cipher, keys: RecordKeys, seqNo: nat, content: Bytes, ct: Byte, nonce: Bytes)
    requires |content| <= 16384 && seqNo < TWO64 && |keys.iv| == 12 && IsNonce(keys.iv, seqNo, nonce)
    ensures var h := RecordHeader(|content| + 17);
            var s := c.seal(keys.key, nonce, h, content + [ct]);
            SealRecord(c, keys, seqNo, content, ct) == h + s.ct + s.tag
  {
    hide RecordNonce, IsNonce;
    NonceExactly(keys.iv, seqNo, nonce);
    assert Header(|content| + 17) == RecordHeader(|content| + 17);
  }

  lemma SealErrorExactly(n: nat, room: nat)
    ensures SealError(n, room) == Some(RecordTooLarge) <==> n > 16384
    ensures SealError(n, room) == Some(BufferTooSmall(n + 22, room)) <==> n <= 16384 && room < n + 22
    ensures SealError(n, room).None? <==> n <= 16384 && room >= n + 22
  {
  }

  /** The opener accepts exactly a legally framed record whose body opens under that nonce with the record's own
      five header bytes as associated data. */
  lemma OpenedExactly(c: Cipher, keys: RecordKeys, seqNo: nat, record: Bytes, nonce: Bytes, p: Bytes)
    requires seqNo < TWO64 && |keys.iv| == 12 && IsNonce(keys.iv, seqNo, nonce)
    ensures OpenRecord(c, keys, seqNo, record) == Ok(p) <==>
              exists x, tag :: IsRecord(record, x, tag) && c.open(keys.key, nonce, RecordHeader(|x| + 16), x, tag) == Some(p)
  {
    hide RecordNonce, IsNonce, FramingError;
    NonceExactly(keys.iv, seqNo, nonce);
    if FramingError(record).None? {
      var n :| AEAD_TAG_LEN <= n <= TLS_CIPHERTEXT_MAX
               && |record| == RECORD_HEADER + n && record[..RECORD_HEADER] == Header(n);
      var x, tag := record[RECORD_HEADER..|record| - AEAD_TAG_LEN], record[|record| - AEAD_TAG_LEN..];
      assert Header(n) == RecordHeader(|x| + 16);
      assert record == record[..RECORD_HEADER] + x + tag;
      assert IsRecord(record, x, tag);
    }
    forall x, tag | IsRecord(record, x, tag)
      ensures FramingError(record).None? && record[RECORD_HEADER..|record| - AEAD_TAG_LEN] == x
              && record[|record| - AEAD_TAG_LEN..] == tag && record[..RECORD_HEADER] == RecordHeader(|x| + 16)
    {
      FramedPasses(record, x, tag);
    }
  }

  lemma FramedPasses(record: Bytes, x: Bytes, tag: Bytes)
    requires IsRecord(record, x, tag)
    ensures FramingError(record).None? && record[RECORD_HEADER..|record| - AEAD_TAG_LEN] == x
            && record[|record| - AEAD_TAG_LEN..] == tag && record[..RECORD_HEADER] == RecordHeader(|x| + 16)
  {
    var n := |x| + 16;
    assert record[..RECORD_HEADER] == RecordHeader(n) == Header(n);
  }

  /** Each framing refusal, by the bytes that cause it. */
  lemma FramingRefuses(record: Bytes)
    ensures FramingError(record) == Some(Truncated) ==> |record| < 5 || record[..3] == [23, 3, 3]
    ensures |record| < 5 ==> FramingError(record) == Some(Truncated)
    ensures |record| >= 5 && record[0] != 23 ==> FramingError(record) == Some(UnexpectedContentType(record[0]))
    ensures |record| >= 5 && record[0] == 23 && record[1..3] != [3, 3] ==>
              FramingError(record) == Some(UnexpectedLegacyVersion(record[1] as int * 256 + record[2] as int))
    ensures |record| >= 5 && record[..3] == [23, 3, 3] ==>
              var n := record[3] as int * 256 + record[4] as int;
              FramingError(record) == if n > 16640 then Some(OversizedRecord)
                                      else if |record| > 5 + n then Some(TrailingBytes)
                                      else if |record| < 5 + n || n < 16 then Some(Truncated)
                                      else None
  {
    if |record| >= 5 {
      assert record[1..3] == [record[1], record[2]] && record[..3] == [record[0], record[1], record[2]];
    }
  }
}
