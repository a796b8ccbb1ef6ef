/** Certificates that are framed but wrong: the field walk's refusals, in the order of the encoding. */
module CertFaults {
  import opened Bytes
  import opened Tlv
  import opened TlvCert

  /** A certificate with anything in its parts: any version number, two algorithms, BIT STRINGs with any unused-bits
      octet or none, and spare octets where there should be none. */
  datatype Any = Any(version: Byte, serial: Bytes, alg: Bytes, issuer: Bytes, validity: Bytes, subject: Bytes,
                     keyAlgTag: Byte, keyAlg: Bytes, keyBits: Bytes, keySpare: Bytes, tail: Bytes,
                     outerAlg: Bytes, sigBits: Bytes, spare: Bytes)

  predicate PartsSmall(w: Width, c: Any) {
    && Small(w, c.serial) && Small(w, c.alg) && Small(w, c.issuer) && Small(w, c.validity) && Small(w, c.subject)
    && Small(w, c.keyAlg) && Small(w, c.keyBits) && Small(w, c.outerAlg) && Small(w, c.sigBits) && c.keyAlgTag % 32 != 31
  }

  function KeyPart(w: Width, c: Any): (b: Bytes)
    requires PartsSmall(w, c)
  {
    EncodeTlv(c.keyAlgTag, c.keyAlg) + (EncodeTlv(3, c.keyBits) + c.keySpare)
  }

  function TbsPart(w: Width, c: Any): (b: Bytes)
    requires PartsSmall(w, c) && Small(w, KeyPart(w, c))
  {
    [0xA0, 3, 2, 1, c.version]
    + (EncodeTlv(2, c.serial) + (EncodeTlv(0x30, c.alg) + (EncodeTlv(0x30, c.issuer) + (EncodeTlv(0x30, c.validity)
       + (EncodeTlv(0x30, c.subject) + (EncodeTlv(0x30, KeyPart(w, c)) + c.tail))))))
  }

  function Outer(w: Width, c: Any): (b: Bytes)
    requires PartsSmall(w, c) && Small(w, KeyPart(w, c)) && Small(w, TbsPart(w, c))
  {
    EncodeTlv(0x30, TbsPart(w, c)) + (EncodeTlv(0x30, c.outerAlg) + (EncodeTlv(3, c.sigBits) + c.spare))
  }

  predicate Framed(w: Width, c: Any) {
    PartsSmall(w, c) && Small(w, KeyPart(w, c)) && Small(w, TbsPart(w, c)) && Small(w, Outer(w, c))
  }

  /** What is wrong with a BIT STRING and with octets behind it. */
  function BitsFault(bits: Bytes, spare: Bytes): (e: Option<CertParseError>) {
    if bits == [] then Some(Malformed)
    else if bits[0] != 0 then Some(BitStringHasUnusedBits)
    else if spare != [] then Some(TrailingBytes)
    else None
  }

  /** The first fault: signature bits, version, algorithm, key bits. */
  function Fault(c: Any): (e: Option<CertParseError>) {
    if BitsFault(c.sigBits, c.spare).Some? then BitsFault(c.sigBits, c.spare)
    else if c.version != 2 then Some(UnsupportedCertVersion)
    else if c.alg != c.outerAlg then Some(SignatureAlgorithmMismatch)
    else BitsFault(c.keyBits, c.keySpare)
  }

  lemma BitsRead(w: Width, bits: Bytes, spare: Bytes)
    requires Small(w, bits)
    ensures var r := TakeBits(w, EncodeTlv(3, bits) + spare);
            match BitsFault(bits, spare)
            case Some(TrailingBytes) => r == Ok((bits[1..], spare))
            case Some(e) => r == Err(e)
            case None => r == Ok((bits[1..], []))
  {
    hide EncodeTlv, Take;
    TakeEncoded(w, 3, bits, spare);
  }

  lemma OuterRead(w: Width, c: Any, after: Bytes)
    requires Framed(w, c)
    ensures var r := ParseOuter(w, EncodeTlv(0x30, Outer(w, c)) + after);
            match BitsFault(c.sigBits, c.spare)
            case Some(e) => r == Err(e)
            case None => && r.Ok? && r.value.0 == EncodeTlv(0x30, TbsPart(w, c)) && r.value.1.body == TbsPart(w, c)
                         && r.value.2 == EncodeTlv(0x30, c.outerAlg) && r.value.3 == c.sigBits[1..]
  {
    hide EncodeTlv, Take, Full, TakeBits, TbsPart, KeyPart;
    var bits := EncodeTlv(3, c.sigBits) + c.spare;
    TakeEncoded(w, 0x30, Outer(w, c), after);
    TakeEncoded(w, 0x30, TbsPart(w, c), EncodeTlv(0x30, c.outerAlg) + bits);
    TakeEncoded(w, 0x30, c.outerAlg, bits);
    BitsRead(w, c.sigBits, c.spare);
  }

  lemma VersionRead(w: Width, version: Byte, rest: Bytes)
    ensures ParseVersion(w, [0xA0, 3, 2, 1, version] + rest) == if version == 2 then Ok(rest) else Err(UnsupportedCertVersion)
  {
    var inner := EncodeTlv(2, [version]);
    assert DerLength(1) == [1] && DerLength(3) == [3];
    assert inner == [2, 1, version] && EncodeTlv(0xA0, inner) == [0xA0, 3, 2, 1, version];
    TakeEncoded(w, 0xA0, inner, rest);
    TakeEncoded(w, 2, [version], []);
    assert inner + [] == inner;
  }

  lemma KeyRead(w: Width, c: Any)
    requires Framed(w, c)
    ensures var t := Take(w, KeyPart(w, c));
            && t.Ok? && Full(t.value, KeyPart(w, c)) == EncodeTlv(c.keyAlgTag, c.keyAlg)
            && t.value.rest == EncodeTlv(3, c.keyBits) + c.keySpare
  {
    hide EncodeTlv, Take, Full;
    TakeEncoded(w, c.keyAlgTag, c.keyAlg, EncodeTlv(3, c.keyBits) + c.keySpare);
  }

  lemma SameAlgorithm(a: Bytes, b: Bytes)
    requires |a| < 0x1_0000_0000 && |b| < 0x1_0000_0000
    ensures EncodeTlv(0x30, a) == EncodeTlv(0x30, b) <==> a == b
  {
    if EncodeTlv(0x30, a) == EncodeTlv(0x30, b) {
      SeqInjective(a, b);
    }
  }

  /**
   * A framed certificate, whatever stands in its parts and behind it, is refused for its first fault, and with none
   * gives exactly its fields.
   */
  lemma FirstFault(w: Width, c: Any, after: Bytes)
    requires Framed(w, c)
    ensures ParseFields(w, EncodeTlv(0x30, Outer(w, c)) + after)
         == match Fault(c)
            case Some(e) => Err(e)
            case None => Ok(Fields(EncodeTlv(0x30, TbsPart(w, c)), EncodeTlv(0x30, c.outerAlg), c.sigBits[1..],
                                   EncodeTlv(0x30, c.validity), EncodeTlv(0x30, KeyPart(w, c)),
                                   EncodeTlv(c.keyAlgTag, c.keyAlg), c.keyBits[1..], c.tail))
  {
    hide EncodeTlv, Take, Full, TakeBits, ParseOuter, ParseVersion, KeyPart, Outer;
    OuterRead(w, c, after);
    var s5 := EncodeTlv(0x30, KeyPart(w, c)) + c.tail;
    var s4 := EncodeTlv(0x30, c.subject) + s5;
    var s3 := EncodeTlv(0x30, c.validity) + s4;
    var s2 := EncodeTlv(0x30, c.issuer) + s3;
    var s1 := EncodeTlv(0x30, c.alg) + s2;
    VersionRead(w, c.version, EncodeTlv(2, c.serial) + s1);
    TakeEncoded(w, 2, c.serial, s1);
    TakeEncoded(w, 0x30, c.alg, s2);
    TakeEncoded(w, 0x30, c.issuer, s3);
    TakeEncoded(w, 0x30, c.validity, s4);
    TakeEncoded(w, 0x30, c.subject, s5);
    TakeEncoded(w, 0x30, KeyPart(w, c), c.tail);
    SameAlgorithm(c.alg, c.outerAlg);
    KeyRead(w, c);
    BitsRead(w, c.keyBits, c.keySpare);
  }

  /** A certificate that does not start its body in [0] is of version 1. */
  lemma NoVersion(w: Width, tbs: Bytes)
    requires tbs != [] && tbs[0] != 0xA0
    ensures ParseVersion(w, tbs) == Err(UnsupportedCertVersion)
  {
  }
}
