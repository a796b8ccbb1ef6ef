/** The in-tree X.509 parser: field walk, SPKI and extension access, extension scans. */
module TlvCert {
  import opened Bytes
  import opened Consts
  import opened Tlv
  import opened X690

  const TAG_BOOLEAN: Byte := 0x01
  const TAG_BIT_STRING: Byte := 0x03
  const TAG_OCTET_STRING: Byte := 0x04
  const TAG_OID: Byte := 0x06
  const TAG_VERSION: Byte := 0xA0
  const TAG_EXTENSIONS: Byte := 0xA3
  const X509_V3: Byte := 2
  const SAN_OID: Bytes := [0x55, 0x1D, 0x11]
  const BASIC_CONSTRAINTS_OID: Bytes := [0x55, 0x1D, 0x13]
  const KEY_USAGE_OID: Bytes := [0x55, 0x1D, 0x0F]
  const ED25519_OID: Bytes := [0x2B, 0x65, 0x70]

  datatype CertParseError =
    | Malformed
    | TrailingBytes
    | BitStringHasUnusedBits
    | UnsupportedCertVersion
    | SignatureAlgorithmMismatch
    | UnhandledCriticalExtension
    | AlgorithmHasParameters
    | WrongAlgorithmOid
    | WrongPubkeyLength
    | WrongSignatureLength
    | KeyRejected(code: nat)

  type Parsed<T> = Result<T, CertParseError>

  datatype CaConstraints = CaConstraints(isCa: bool, pathLen: Option<nat>, keyCertSign: Option<bool>)

  // ---- Cursor steps ----

  function Take(w: Width, buf: Bytes): (r: Parsed<Tlv>)
    ensures r.Ok? ==> |r.value.rest| < |buf| && |r.value.body| < |buf|
    ensures r.Ok? ==> buf != [] && r.value.tag == buf[0]
  {
    match ReadTlv(w, buf)
    case None => Err(Malformed)
    case Some(t) => Ok(t)
  }

  function TakeExpected(w: Width, buf: Bytes, tag: Byte): (r: Parsed<Tlv>)
    ensures r.Ok? ==> Take(w, buf) == r && r.value.tag == tag
    ensures r.Ok? ==> |r.value.rest| < |buf| && |r.value.body| < |buf|
  {
    var t :- Take(w, buf);
    if t.tag != tag then Err(Malformed) else Ok(t)
  }

  /** The octets of a TLV, header included. */
  function Full(t: Tlv, buf: Bytes): Bytes {
    var n := t.headerLen + |t.body|;
    if n <= |buf| then buf[..n] else []
  }

  function PeekTag(buf: Bytes): Parsed<Byte> {
    if buf == [] then Err(Malformed) else Ok(buf[0])
  }

  /** A BIT STRING with no unused bits: its content, and what follows. */
  function TakeBits(w: Width, buf: Bytes): (r: Parsed<(Bytes, Bytes)>) {
    var t :- TakeExpected(w, buf, TAG_BIT_STRING);
    if t.body == [] then Err(Malformed)
    else if t.body[0] != 0 then Err(BitStringHasUnusedBits)
    else Ok((t.body[1..], t.rest))
  }

  // ---- Fields ----

  datatype Fields = Fields(tbs: Bytes, sigAlg: Bytes, signature: Bytes, validity: Bytes,
                           spki: Bytes, spkiAlg: Bytes, publicKey: Bytes, tail: Bytes)

  /** Certificate ::= SEQUENCE { tbsCertificate, signatureAlgorithm, signatureValue }:
      the TBS TLV, the algorithm's octets and the signature bits. */
  function ParseOuter(w: Width, der: Bytes): (r: Parsed<(Bytes, Tlv, Bytes, Bytes)>) {
    var outer :- TakeExpected(w, der, TAG_SEQUENCE);
    var tbs :- TakeExpected(w, outer.body, TAG_SEQUENCE);
    var alg :- TakeExpected(w, tbs.rest, TAG_SEQUENCE);
    var (bits, after) :- TakeBits(w, alg.rest);
    if after != [] then Err(TrailingBytes)
    else Ok((Full(tbs, outer.body), tbs, Full(alg, tbs.rest), bits))
  }

  /** [0] EXPLICIT version, which must be v3; returns what follows it. */
  function ParseVersion(w: Width, tbs: Bytes): (r: Parsed<Bytes>) {
    var tag :- PeekTag(tbs);
    if tag != TAG_VERSION then Err(UnsupportedCertVersion)
    else
      var version :- Take(w, tbs);
      var num :- TakeExpected(w, version.body, TAG_INTEGER);
      if |num.body| != 1 then Err(Malformed)
      else if num.body[0] != X509_V3 then Err(UnsupportedCertVersion)
      else if num.rest != [] then Err(Malformed)
      else Ok(version.rest)
  }

  /** Everything the parser reads before it looks at extensions and key family. */
  function ParseFields(w: Width, der: Bytes): (r: Parsed<Fields>) {
    var (tbsFull, tbs, outerAlg, signature) :- ParseOuter(w, der);
    var afterVersion :- ParseVersion(w, tbs.body);
    var serial :- TakeExpected(w, afterVersion, TAG_INTEGER);
    var alg :- TakeExpected(w, serial.rest, TAG_SEQUENCE);
    if Full(alg, serial.rest) != outerAlg then Err(SignatureAlgorithmMismatch)
    else
      var issuer :- TakeExpected(w, alg.rest, TAG_SEQUENCE);
      var validity :- TakeExpected(w, issuer.rest, TAG_SEQUENCE);
      var subject :- TakeExpected(w, validity.rest, TAG_SEQUENCE);
      var spki :- TakeExpected(w, subject.rest, TAG_SEQUENCE);
      var spkiAlg :- Take(w, spki.body);
      var (key, after) :- TakeBits(w, spkiAlg.rest);
      if after != [] then Err(TrailingBytes)
      else Ok(Fields(tbsFull, outerAlg, signature, Full(validity, issuer.rest),
                     Full(spki, subject.rest), Full(spkiAlg, spki.body), key, spki.rest))
  }

  // ---- Independent access to the same places ----

  function Skip(w: Width, buf: Bytes, n: nat): (r: Parsed<Bytes>)
    decreases n
  {
    if n == 0 then Ok(buf)
    else
      var t :- Take(w, buf);
      Skip(w, t.rest, n - 1)
  }

  /** The TBS body after an optional version. */
  function TbsAfterVersion(w: Width, der: Bytes): (r: Parsed<Bytes>) {
    var outer :- TakeExpected(w, der, TAG_SEQUENCE);
    var tbs :- TakeExpected(w, outer.body, TAG_SEQUENCE);
    var tag :- PeekTag(tbs.body);
    if tag != TAG_VERSION then Ok(tbs.body)
    else
      var version :- Take(w, tbs.body);
      Ok(version.rest)
  }

  function SpkiDer(w: Width, der: Bytes): (r: Parsed<Bytes>) {
    var tbs :- TbsAfterVersion(w, der);
    var at :- Skip(w, tbs, 5);
    var spki :- Take(w, at);
    Ok(Full(spki, at))
  }

  function ExtensionsSlice(w: Width, der: Bytes): (r: Parsed<Bytes>) {
    var tbs :- TbsAfterVersion(w, der);
    Skip(w, tbs, 6)
  }

  /** Skip `n` TLVs with a cursor. */
  method SkipLoop(w: Width, buf: Bytes, n: nat) returns (r: Parsed<Bytes>)
    ensures r == Skip(w, buf, n)
  {
    var cursor := buf;
    for i := 0 to n
      invariant Skip(w, buf, n) == Skip(w, cursor, n - i)
    {
      var t := Take(w, cursor);
      if t.Err? {
        return Err(t.error);
      }
      cursor := t.value.rest;
    }
    r := Ok(cursor);
  }

  lemma SkipOne(w: Width, buf: Bytes, n: nat)
    requires n > 0 && Take(w, buf).Ok?
    ensures Skip(w, buf, n) == Skip(w, Take(w, buf).value.rest, n - 1)
  {
  }

  predicate Steps(w: Width, from: Bytes, to: Bytes) {
    Take(w, from).Ok? && Take(w, from).value.rest == to
  }

  lemma SkipFive(w: Width, s0: Bytes, s1: Bytes, s2: Bytes, s3: Bytes, s4: Bytes, s5: Bytes, n: nat)
    requires n >= 5 && Steps(w, s0, s1) && Steps(w, s1, s2) && Steps(w, s2, s3) && Steps(w, s3, s4) && Steps(w, s4, s5)
    ensures Skip(w, s0, n) == Skip(w, s5, n - 5)
  {
    hide Skip, Take;
    SkipOne(w, s0, n);
    SkipOne(w, s1, n - 1);
    SkipOne(w, s2, n - 2);
    SkipOne(w, s3, n - 3);
    SkipOne(w, s4, n - 4);
  }

  /** The lookups start where the parser goes on after the version. */
  lemma SameStart(w: Width, der: Bytes)
    requires ParseOuter(w, der).Ok? && ParseVersion(w, ParseOuter(w, der).value.1.body).Ok?
    ensures TbsAfterVersion(w, der) == ParseVersion(w, ParseOuter(w, der).value.1.body)
  {
    hide Take, TakeBits, Full;
  }

  /** Whenever the parser accepts the fields, the SPKI lookup returns the SPKI it read and
      the extension lookup returns the tail it goes on to scan. */
  lemma LookupsAgree(w: Width, der: Bytes)
    requires ParseFields(w, der).Ok?
    ensures SpkiDer(w, der) == Ok(ParseFields(w, der).value.spki)
    ensures ExtensionsSlice(w, der) == Ok(ParseFields(w, der).value.tail)
  {
    hide Take, ParseOuter, ParseVersion, Full, Skip, TakeBits, TakeExpected, TbsAfterVersion;
    var tbs := ParseOuter(w, der).value.1;
    var s0 := ParseVersion(w, tbs.body).value;
    SameStart(w, der);
    var s1 := Take(w, s0).value.rest;
    var s2 := Take(w, s1).value.rest;
    var s3 := Take(w, s2).value.rest;
    var s4 := Take(w, s3).value.rest;
    var s5 := Take(w, s4).value.rest;
    SkipFive(w, s0, s1, s2, s3, s4, s5, 5);
    SkipFive(w, s0, s1, s2, s3, s4, s5, 6);
    SkipOne(w, s5, 1);
    SkipNone(w, s5);
    SkipNone(w, Take(w, s5).value.rest);
  }

  lemma SkipNone(w: Width, buf: Bytes)
    ensures Skip(w, buf, 0) == Ok(buf)
  {
  }

  // ---- Extensions: the reference reading ----

  datatype Extension = Extension(oid: Bytes, critical: bool, value: Bytes)

  function ParseExtension(w: Width, body: Bytes): (r: Parsed<Extension>) {
    var oid :- TakeExpected(w, body, TAG_OID);
    var tag :- PeekTag(oid.rest);
    if tag == TAG_BOOLEAN then
      var flag :- Take(w, oid.rest);
      var value :- TakeExpected(w, flag.rest, TAG_OCTET_STRING);
      Ok(Extension(oid.body, Truthy(flag.body), value.body))
    else
      var value :- TakeExpected(w, oid.rest, TAG_OCTET_STRING);
      Ok(Extension(oid.body, false, value.body))
  }

  predicate Truthy(boolean: Bytes) {
    boolean != [] && boolean[0] != 0
  }

  /** The first extension of a list and the rest of the list. */
  function NextExtension(w: Width, exts: Bytes): (r: Parsed<(Extension, Bytes)>)
    ensures r.Ok? ==> |r.value.1| < |exts|
  {
    var t :- TakeExpected(w, exts, TAG_SEQUENCE);
    var e :- ParseExtension(w, t.body);
    Ok((e, t.rest))
  }

  function ExtensionList(w: Width, exts: Bytes): (r: Parsed<seq<Extension>>)
    decreases |exts|
  {
    if exts == [] then Ok([])
    else
      var (e, rest) :- NextExtension(w, exts);
      var es :- ExtensionList(w, rest);
      Ok([e] + es)
  }

  /** The list inside the first [3] of the tail, if there is one. */
  function FindExtensions(w: Width, tail: Bytes): (r: Parsed<Option<Bytes>>)
    decreases |tail|
  {
    if tail == [] then Ok(None)
    else
      var t :- Take(w, tail);
      if tail[0] != TAG_EXTENSIONS then FindExtensions(w, t.rest)
      else
        var s :- TakeExpected(w, t.body, TAG_SEQUENCE);
        Ok(Some(s.body))
  }

  function Extensions(w: Width, tail: Bytes): (r: Parsed<seq<Extension>>) {
    var found :- FindExtensions(w, tail);
    if found.None? then Ok([]) else ExtensionList(w, found.value)
  }

  function Lookup(es: seq<Extension>, oid: Bytes): (r: Option<Bytes>)
    ensures r.None? <==> forall i :: 0 <= i < |es| ==> es[i].oid != oid
    ensures r.Some? ==> exists i :: 0 <= i < |es| && es[i].oid == oid && es[i].value == r.value
                                    && forall j :: 0 <= j < i ==> es[j].oid != oid
  {
    if es == [] then None
    else if es[0].oid == oid then Some(es[0].value)
    else
      var r := Lookup(es[1..], oid);
      assert forall i :: 0 < i < |es| ==> es[i] == es[1..][i - 1];
      if r.Some? then
        var i :| 0 <= i < |es[1..]| && es[1..][i].oid == oid && es[1..][i].value == r.value
                 && forall j :: 0 <= j < i ==> es[1..][j].oid != oid;
        assert es[i + 1].oid == oid && es[i + 1].value == r.value;
        r
      else r
  }

  // ---- Subject alternative name ----

  function SanBody(w: Width, value: Bytes): (r: Parsed<Option<Bytes>>) {
    var s :- TakeExpected(w, value, TAG_SEQUENCE);
    Ok(Some(s.body))
  }

  function ScanSan(w: Width, exts: Bytes): (r: Parsed<Option<Bytes>>)
    decreases |exts|
  {
    if exts == [] then Ok(None)
    else
      var (e, rest) :- NextExtension(w, exts);
      if e.oid == SAN_OID then SanBody(w, e.value) else ScanSan(w, rest)
  }

  function WalkSan(w: Width, tail: Bytes): (r: Parsed<Option<Bytes>>) {
    var found :- FindExtensions(w, tail);
    if found.None? then Ok(None) else ScanSan(w, found.value)
  }

  /** Advance to the [3] wrapper, as both walkers do. */
  method SeekExtensions(w: Width, tail: Bytes) returns (r: Parsed<Option<Bytes>>)
    ensures r == FindExtensions(w, tail)
  {
    var cursor := tail;
    while cursor != []
      invariant FindExtensions(w, tail) == FindExtensions(w, cursor)
      decreases |cursor|
    {
      var tag := cursor[0];
      var t := Take(w, cursor);
      if t.Err? {
        return Err(t.error);
      }
      if tag == TAG_EXTENSIONS {
        var s := TakeExpected(w, t.value.body, TAG_SEQUENCE);
        if s.Err? {
          return Err(s.error);
        }
        return Ok(Some(s.value.body));
      }
      cursor := t.value.rest;
    }
    r := Ok(None);
  }

  method WalkExtensionsForSan(w: Width, tail: Bytes) returns (r: Parsed<Option<Bytes>>)
    ensures r == WalkSan(w, tail)
  {
    var found := SeekExtensions(w, tail);
    if found.Err? {
      return Err(found.error);
    }
    if found.value.None? {
      return Ok(None);
    }
    var exts := found.value.value;
    while exts != []
      invariant WalkSan(w, tail) == ScanSan(w, exts)
      decreases |exts|
    {
      var next := NextExtension(w, exts);
      if next.Err? {
        return Err(next.error);
      }
      var (e, rest) := next.value;
      if e.oid == SAN_OID {
        return SanBody(w, e.value);
      }
      exts := rest;
    }
    r := Ok(None);
  }

  /** On a well-formed list the scan returns the first SAN and nothing else. */
  lemma {:induction false} ScanSanIsLookup(w: Width, exts: Bytes)
    requires ExtensionList(w, exts).Ok?
    ensures ScanSan(w, exts) ==
            match Lookup(ExtensionList(w, exts).value, SAN_OID)
            case None => Ok(None)
            case Some(v) => SanBody(w, v)
    decreases |exts|
  {
    if exts != [] {
      var (e, rest) := NextExtension(w, exts).value;
      ScanSanIsLookup(w, rest);
      var es := ExtensionList(w, rest).value;
      assert ([e] + es)[1..] == es;
    }
  }

  lemma SanIsFirst(w: Width, tail: Bytes)
    requires Extensions(w, tail).Ok?
    ensures WalkSan(w, tail) ==
            match Lookup(Extensions(w, tail).value, [85, 29, 17])
            case None => Ok(None)
            case Some(v) => SanBody(w, v)
  {
    var found := FindExtensions(w, tail).value;
    if found.Some? {
      ScanSanIsLookup(w, found.value);
    }
  }

  // ---- CA constraints ----

  function PathLen(bytes: Bytes): (r: Parsed<nat>) {
    if bytes != [] && bytes[0] >= 0x80 then Err(Malformed)
    else
      var sig := if bytes != [] && bytes[0] == 0 then bytes[1..] else bytes;
      if |sig| > 4 then Err(Malformed) else Ok(FromBigEndian(sig))
  }

  /** basicConstraints: absent fields leave what was there. */
  function BasicConstraints(w: Width, value: Bytes, ca: CaConstraints): (r: Parsed<CaConstraints>)
    ensures r.Ok? ==> r.value.keyCertSign == ca.keyCertSign
  {
    var s :- TakeExpected(w, value, TAG_SEQUENCE);
    if s.rest != [] then Err(Malformed)
    else if s.body != [] && s.body[0] == TAG_BOOLEAN then
      var flag :- Take(w, s.body);
      PathLenField(w, flag.rest, ca.(isCa := Truthy(flag.body)))
    else PathLenField(w, s.body, ca)
  }

  function PathLenField(w: Width, rest: Bytes, ca: CaConstraints): (r: Parsed<CaConstraints>)
    ensures r.Ok? ==> r.value.isCa == ca.isCa && r.value.keyCertSign == ca.keyCertSign
  {
    if rest != [] && rest[0] == TAG_INTEGER then
      var num :- Take(w, rest);
      var n :- PathLen(num.body);
      Ok(ca.(pathLen := Some(n)))
    else Ok(ca)
  }

  /** keyCertSign is bit 5 of the first data byte. */
  function KeyUsage(w: Width, value: Bytes): (r: Parsed<bool>) {
    var bits :- TakeExpected(w, value, TAG_BIT_STRING);
    if bits.rest != [] then Err(Malformed)
    else Ok(|bits.body| > 1 && bits.body[1] / 4 % 2 == 1)
  }

  function Apply(w: Width, ca: CaConstraints, e: Extension): (r: Parsed<CaConstraints>)
    ensures r.Ok? && e.critical ==> e.oid == BASIC_CONSTRAINTS_OID || e.oid == KEY_USAGE_OID
    ensures r.Ok? && e.oid != BASIC_CONSTRAINTS_OID ==> r.value.isCa == ca.isCa && r.value.pathLen == ca.pathLen
    ensures r.Ok? && e.oid != KEY_USAGE_OID ==> r.value.keyCertSign == ca.keyCertSign
  {
    if e.oid == BASIC_CONSTRAINTS_OID then BasicConstraints(w, e.value, ca)
    else if e.oid == KEY_USAGE_OID then
      var sign :- KeyUsage(w, e.value);
      Ok(ca.(keyCertSign := Some(sign)))
    else if e.critical then Err(UnhandledCriticalExtension)
    else Ok(ca)
  }

  const NO_CA: CaConstraints := CaConstraints(false, None, None)

  function ScanCa(w: Width, exts: Bytes, ca: CaConstraints): (r: Parsed<CaConstraints>)
    decreases |exts|
  {
    if exts == [] then Ok(ca)
    else
      var (e, rest) :- NextExtension(w, exts);
      var next :- Apply(w, ca, e);
      ScanCa(w, rest, next)
  }

  function WalkCa(w: Width, tail: Bytes): (r: Parsed<CaConstraints>) {
    var found :- FindExtensions(w, tail);
    if found.None? then Ok(NO_CA) else ScanCa(w, found.value, NO_CA)
  }

  method WalkExtensionsForCa(w: Width, tail: Bytes) returns (r: Parsed<CaConstraints>)
    ensures r == WalkCa(w, tail)
  {
    var out := NO_CA;
    var found := SeekExtensions(w, tail);
    if found.Err? {
      return Err(found.error);
    }
    if found.value.None? {
      return Ok(out);
    }
    var exts := found.value.value;
    while exts != []
      invariant WalkCa(w, tail) == ScanCa(w, exts, out)
      decreases |exts|
    {
      var next := NextExtension(w, exts);
      if next.Err? {
        return Err(next.error);
      }
      var (e, rest) := next.value;
      var applied := Apply(w, out, e);
      if applied.Err? {
        return Err(applied.error);
      }
      out := applied.value;
      exts := rest;
    }
    r := Ok(out);
  }

  /** What one basicConstraints says: its two optional fields. */
  function Constraints(w: Width, value: Bytes): (r: Parsed<(Option<bool>, Option<nat>)>) {
    var s :- TakeExpected(w, value, TAG_SEQUENCE);
    if s.rest != [] then Err(Malformed)
    else if s.body != [] && s.body[0] == TAG_BOOLEAN then
      var flag :- Take(w, s.body);
      var n :- ConstraintsPathLen(w, flag.rest);
      Ok((Some(Truthy(flag.body)), n))
    else
      var n :- ConstraintsPathLen(w, s.body);
      Ok((None, n))
  }

  function ConstraintsPathLen(w: Width, rest: Bytes): (r: Parsed<Option<nat>>) {
    if rest != [] && rest[0] == TAG_INTEGER then
      var num :- Take(w, rest);
      var n :- PathLen(num.body);
      Ok(Some(n))
    else Ok(None)
  }

  /** The extension is one the scan can use, or may ignore. */
  predicate Readable(w: Width, e: Extension) {
    if e.oid == [85, 29, 19] then Constraints(w, e.value).Ok?
    else if e.oid == [85, 29, 15] then KeyUsage(w, e.value).Ok?
    else !e.critical
  }

  predicate AllReadable(w: Width, es: seq<Extension>) {
    forall i :: 0 <= i < |es| ==> Readable(w, es[i])
  }

  function SaysCa(w: Width, e: Extension): (r: Option<bool>) {
    if e.oid == [85, 29, 19] && Constraints(w, e.value).Ok? then Constraints(w, e.value).value.0 else None
  }

  function SaysPathLen(w: Width, e: Extension): (r: Option<nat>) {
    if e.oid == [85, 29, 19] && Constraints(w, e.value).Ok? then Constraints(w, e.value).value.1 else None
  }

  function SaysCertSign(w: Width, e: Extension): (r: Option<bool>) {
    if e.oid == [85, 29, 15] && KeyUsage(w, e.value).Ok? then Some(KeyUsage(w, e.value).value) else None
  }

  /** The last extension that says something. */
  ghost function Last<T>(es: seq<Extension>, says: Extension -> Option<T>): (r: Option<T>)
    ensures r.None? <==> forall i :: 0 <= i < |es| ==> says(es[i]).None?
    ensures r.Some? ==> exists i :: 0 <= i < |es| && says(es[i]) == r
                                    && forall j :: i < j < |es| ==> says(es[j]).None?
  {
    if es == [] then None
    else
      var n := |es| - 1;
      assert forall i :: 0 <= i < n ==> es[..n][i] == es[i];
      if says(es[n]).Some? then says(es[n])
      else
        var r := Last(es[..n], says);
        if r.Some? then
          var i :| 0 <= i < n && says(es[..n][i]) == r && forall j :: i < j < n ==> says(es[..n][j]).None?;
          assert says(es[i]) == r && forall j :: i < j < |es| ==> says(es[j]).None?;
          r
        else r
  }

  function Or<T>(o: Option<T>, before: T): (r: T) {
    match o case Some(x) => x case None => before
  }

  function Either<T>(o: Option<T>, before: Option<T>): (r: Option<T>) {
    if o.Some? then o else before
  }

  lemma ApplySays(w: Width, ca: CaConstraints, e: Extension)
    ensures Apply(w, ca, e).Ok? <==> Readable(w, e)
    ensures Apply(w, ca, e).Ok? ==>
              Apply(w, ca, e).value == CaConstraints(Or(SaysCa(w, e), ca.isCa), Either(SaysPathLen(w, e), ca.pathLen),
                                                     Either(SaysCertSign(w, e), ca.keyCertSign))
  {
    hide Take, TakeExpected, PathLen;
  }

  lemma {:induction false} LastCons<T>(e: Extension, es: seq<Extension>, says: Extension -> Option<T>)
    ensures Last([e] + es, says) == Either(Last(es, says), says(e))
    decreases |es|
  {
    var all, n := [e] + es, |es|;
    if es == [] {
      assert all == [e] && all[..0] == [];
    } else {
      assert all[n] == es[n - 1] && all[..n] == [e] + es[..n - 1];
      LastCons(e, es[..n - 1], says);
    }
  }

  lemma NothingUnreadable(w: Width)
    ensures AllReadable(w, [])
  {
  }

  lemma NothingSaid<T>(says: Extension -> Option<T>)
    ensures Last([], says) == None
  {
  }

  lemma AllReadableCons(w: Width, e: Extension, es: seq<Extension>)
    ensures AllReadable(w, [e] + es) <==> Readable(w, e) && AllReadable(w, es)
  {
    hide Readable;
    assert ([e] + es)[0] == e && forall i :: 0 <= i < |es| ==> ([e] + es)[i + 1] == es[i];
  }

  lemma {:induction false} ScanCaExactly(w: Width, exts: Bytes, ca: CaConstraints)
    ensures ScanCa(w, exts, ca).Ok? <==>
            ExtensionList(w, exts).Ok? && AllReadable(w, ExtensionList(w, exts).value)
    ensures ScanCa(w, exts, ca).Ok? ==>
            var es := ExtensionList(w, exts).value;
            ScanCa(w, exts, ca).value
              == CaConstraints(Or(Last(es, e => SaysCa(w, e)), ca.isCa),
                               Either(Last(es, e => SaysPathLen(w, e)), ca.pathLen),
                               Either(Last(es, e => SaysCertSign(w, e)), ca.keyCertSign))
    decreases |exts|
  {
    hide NextExtension, Apply, Readable, AllReadable, SaysCa, SaysPathLen, SaysCertSign, Last;
    NothingUnreadable(w);
    NothingSaid(e => SaysCa(w, e));
    NothingSaid(e => SaysPathLen(w, e));
    NothingSaid(e => SaysCertSign(w, e));
    if exts != [] && NextExtension(w, exts).Ok? {
      var (e, rest) := NextExtension(w, exts).value;
      ApplySays(w, ca, e);
      if ExtensionList(w, rest).Ok? {
        var es := ExtensionList(w, rest).value;
        LastCons(e, es, e => SaysCa(w, e));
        LastCons(e, es, e => SaysPathLen(w, e));
        LastCons(e, es, e => SaysCertSign(w, e));
        AllReadableCons(w, e, es);
      }
      if Apply(w, ca, e).Ok? {
        ScanCaExactly(w, rest, Apply(w, ca, e).value);
      }
    }
  }

  /** The CA scan accepts a tail if and only if its extensions are well formed, each basicConstraints
      and keyUsage in it can be read, and no other is critical. It then grants, field by field, what
      the last extension with that field says, and nothing that none says. */
  lemma CaScanExactly(w: Width, tail: Bytes)
    ensures WalkCa(w, tail).Ok? <==>
            Extensions(w, tail).Ok? && AllReadable(w, Extensions(w, tail).value)
    ensures WalkCa(w, tail).Ok? ==>
            var es := Extensions(w, tail).value;
            WalkCa(w, tail).value
              == CaConstraints(Last(es, e => SaysCa(w, e)) == Some(true), Last(es, e => SaysPathLen(w, e)),
                               Last(es, e => SaysCertSign(w, e)))
  {
    hide ScanCa, Readable, SaysCa, SaysPathLen, SaysCertSign;
    var found := FindExtensions(w, tail);
    if found.Ok? && found.value.Some? {
      ScanCaExactly(w, found.value.value, NO_CA);
    }
  }

  // ---- The parser ----

  /** The parsed view: the fields, the SAN, and what the key-family check made of them. */
  datatype CertView<+K> = CertView(fields: Fields, san: Option<Bytes>, key: K)

  /** `family` classifies the algorithm and checks the key and signature shapes. */
  function Parse<K>(w: Width, family: Fields -> Parsed<K>, der: Bytes): (r: Parsed<CertView<K>>) {
    var fields :- ParseFields(w, der);
    var san :- WalkSan(w, fields.tail);
    var key :- family(fields);
    Ok(CertView(fields, san, key))
  }

  /** The Ed25519 arm of that check: the bare algorithm, a 32-byte key and a 64-byte signature. */
  function Ed25519(w: Width, f: Fields): (r: Parsed<Bytes>) {
    var alg :- TakeExpected(w, f.spkiAlg, TAG_SEQUENCE);
    var oid :- Take(w, alg.body);
    if oid.tag != TAG_OID then Err(Malformed)
    else if oid.body != ED25519_OID then Err(WrongAlgorithmOid)
    else if oid.rest != [] then Err(AlgorithmHasParameters)
    else if |f.publicKey| != 32 then Err(WrongPubkeyLength)
    else if |f.signature| != 64 then Err(WrongSignatureLength)
    else Ok(f.publicKey)
  }

  // ---- The encoding the field walk inverts ----

  /** A v3 certificate's variable parts. */
  datatype Cert = Cert(serial: Bytes, alg: Bytes, issuer: Bytes, validity: Bytes, subject: Bytes,
                       keyAlgTag: Byte, keyAlg: Bytes, key: Bytes, tail: Bytes, signature: Bytes)

  /** Every piece is short enough to be framed on the target. */
  predicate Small(w: Width, b: Bytes) {
    |b| < 0x1_0000_0000 && |b| < Word(w)
  }

  const VERSION: Bytes := [0xA0, 3, 2, 1, 2]

  function Seq(body: Bytes): Bytes
    requires |body| < 0x1_0000_0000
  {
    EncodeTlv(0x30, body)
  }

  predicate PartsFit(w: Width, c: Cert) {
    && Small(w, c.serial) && Small(w, c.alg) && Small(w, c.issuer) && Small(w, c.validity) && Small(w, c.subject)
    && Small(w, c.keyAlg) && Small(w, [0] + c.key) && Small(w, [0] + c.signature) && c.keyAlgTag % 32 != 31
  }

  function KeyInfo(w: Width, c: Cert): Bytes
    requires PartsFit(w, c)
  {
    EncodeTlv(c.keyAlgTag, c.keyAlg) + EncodeTlv(3, [0] + c.key)
  }

  function Names(w: Width, c: Cert): Bytes
    requires PartsFit(w, c)
  {
    EncodeTlv(2, c.serial) + (Seq(c.alg) + (Seq(c.issuer) + (Seq(c.validity) + Seq(c.subject))))
  }

  function Tbs(w: Width, c: Cert): Bytes
    requires PartsFit(w, c) && Small(w, KeyInfo(w, c))
  {
    VERSION + (Names(w, c) + (Seq(KeyInfo(w, c)) + c.tail))
  }

  function OuterBody(w: Width, c: Cert): Bytes
    requires PartsFit(w, c) && Small(w, KeyInfo(w, c)) && Small(w, Tbs(w, c))
  {
    Seq(Tbs(w, c)) + (Seq(c.alg) + EncodeTlv(3, [0] + c.signature))
  }

  predicate Encodable(w: Width, c: Cert) {
    PartsFit(w, c) && Small(w, KeyInfo(w, c)) && Small(w, Tbs(w, c)) && Small(w, OuterBody(w, c))
  }

  function EncodeCert(w: Width, c: Cert): Bytes
    requires Encodable(w, c)
  {
    Seq(OuterBody(w, c))
  }

  /** The fields a certificate should parse to. */
  function FieldsOf(w: Width, c: Cert): Fields
    requires Encodable(w, c)
  {
    Fields(Seq(Tbs(w, c)), Seq(c.alg), c.signature, Seq(c.validity),
           Seq(KeyInfo(w, c)), EncodeTlv(c.keyAlgTag, c.keyAlg), c.key, c.tail)
  }

  lemma TakeEncoded(w: Width, tag: Byte, body: Bytes, rest: Bytes)
    requires tag % 32 != 31 && Small(w, body)
    ensures var buf := EncodeTlv(tag, body) + rest;
            && Take(w, buf).Ok? && TakeExpected(w, buf, tag) == Take(w, buf)
            && var t := Take(w, buf).value;
               t.tag == tag && t.body == body && t.rest == rest && Full(t, buf) == EncodeTlv(tag, body)
  {
    ReadUndoesEncode(w, tag, body, rest);
    var buf := EncodeTlv(tag, body) + rest;
    assert buf[..|EncodeTlv(tag, body)|] == EncodeTlv(tag, body);
  }

  lemma TakeEncodedBits(w: Width, bits: Bytes, rest: Bytes)
    requires Small(w, [0] + bits)
    ensures TakeBits(w, EncodeTlv(TAG_BIT_STRING, [0] + bits) + rest) == Ok((bits, rest))
  {
    TakeEncoded(w, TAG_BIT_STRING, [0] + bits, rest);
  }

  lemma VersionReads(w: Width, rest: Bytes)
    ensures ParseVersion(w, VERSION + rest) == Ok(rest)
  {
    var inner := EncodeTlv(TAG_INTEGER, [X509_V3]);
    assert DerLength(1) == [1] && DerLength(3) == [3];
    assert inner == [TAG_INTEGER, 1, X509_V3] && EncodeTlv(TAG_VERSION, inner) == VERSION;
    TakeEncoded(w, TAG_VERSION, inner, rest);
    TakeEncoded(w, TAG_INTEGER, [X509_V3], []);
    assert inner + [] == inner;
  }

  lemma OuterReads(w: Width, c: Cert, after: Bytes)
    requires Encodable(w, c)
    ensures var r := ParseOuter(w, EncodeCert(w, c) + after);
            && r.Ok? && r.value.0 == Seq(Tbs(w, c)) && r.value.1.body == Tbs(w, c)
            && r.value.2 == Seq(c.alg) && r.value.3 == c.signature
  {
    hide EncodeTlv, Take, Full, TakeBits;
    var bits := EncodeTlv(TAG_BIT_STRING, [0] + c.signature);
    TakeEncoded(w, TAG_SEQUENCE, OuterBody(w, c), after);
    TakeEncoded(w, TAG_SEQUENCE, Tbs(w, c), Seq(c.alg) + bits);
    TakeEncoded(w, TAG_SEQUENCE, c.alg, bits);
    TakeEncodedBits(w, c.signature, []);
    assert bits + [] == bits;
  }

  /** Parsing an encoded certificate gives back its parts, whatever follows it. */
  lemma ParseUndoesEncode(w: Width, c: Cert, after: Bytes)
    requires Encodable(w, c)
    ensures ParseFields(w, EncodeCert(w, c) + after) == Ok(FieldsOf(w, c))
  {
    hide EncodeTlv, Take, Full, TakeBits, ParseOuter, ParseVersion, KeyInfo;
    OuterReads(w, c, after);
    var key := Seq(KeyInfo(w, c)) + c.tail;
    VersionReads(w, Names(w, c) + key);
    var s4 := Seq(c.subject) + key;
    var s3 := Seq(c.validity) + s4;
    var s2 := Seq(c.issuer) + s3;
    var s1 := Seq(c.alg) + s2;
    assert Names(w, c) + key == EncodeTlv(TAG_INTEGER, c.serial) + s1;
    TakeEncoded(w, TAG_INTEGER, c.serial, s1);
    TakeEncoded(w, TAG_SEQUENCE, c.alg, s2);
    TakeEncoded(w, TAG_SEQUENCE, c.issuer, s3);
    TakeEncoded(w, TAG_SEQUENCE, c.validity, s4);
    TakeEncoded(w, TAG_SEQUENCE, c.subject, key);
    TakeEncoded(w, TAG_SEQUENCE, KeyInfo(w, c), c.tail);
    KeyInfoReads(w, c);
  }

  lemma KeyInfoReads(w: Width, c: Cert)
    requires Encodable(w, c)
    ensures var t := Take(w, KeyInfo(w, c));
            && t.Ok? && Full(t.value, KeyInfo(w, c)) == EncodeTlv(c.keyAlgTag, c.keyAlg)
            && TakeBits(w, t.value.rest) == Ok((c.key, []))
  {
    var bits := EncodeTlv(TAG_BIT_STRING, [0] + c.key);
    TakeEncoded(w, c.keyAlgTag, c.keyAlg, bits);
    TakeEncodedBits(w, c.key, []);
    assert bits + [] == bits;
  }

  // ---- ... and inverts exactly ----

  /** The header at the front of `buf` reads alike at every width that can hold its length. */
  predicate Narrow(w: Width, buf: Bytes) {
    w != W16 || (|buf| > 1 && buf[1] <= 0x82)
  }

  lemma TakeCanonical(w: Width, buf: Bytes)
    requires Take(w, buf).Ok? && Narrow(w, buf)
    ensures var t := Take(w, buf).value;
            && Small(w, t.body) && t.tag % 32 != 31
            && buf == EncodeTlv(t.tag, t.body) + t.rest && Full(t, buf) == EncodeTlv(t.tag, t.body)
  {
    ReadIsCanonical(w, buf);
    var t := Take(w, buf).value;
    BodyFits(w, buf);
    var whole := EncodeTlv(t.tag, t.body);
    assert |whole| == t.headerLen + |t.body|;
    assert buf[..|whole|] == whole;
  }

  lemma BodyFits(w: Width, buf: Bytes)
    requires ReadTlv(w, buf).Some?
    ensures |ReadTlv(w, buf).value.body| < Word(w)
  {
    hide FromBigEndian;
  }

  lemma BitsCanonical(w: Width, buf: Bytes)
    requires TakeBits(w, buf).Ok? && Narrow(w, buf)
    ensures var (bits, rest) := TakeBits(w, buf).value;
            Small(w, [0] + bits) && buf == EncodeTlv(TAG_BIT_STRING, [0] + bits) + rest
  {
    TakeCanonical(w, buf);
    var t := Take(w, buf).value;
    assert t.body == [0] + t.body[1..];
  }

  /** The version's two headers are short whenever the version is accepted. */
  lemma VersionCanonical(w: Width, tbs: Bytes)
    requires ParseVersion(w, tbs).Ok?
    ensures tbs == VERSION + ParseVersion(w, tbs).value
  {
    hide FromBigEndian;
    var version := Take(w, tbs).value;
    var num := Take(w, version.body).value;
    assert num.body == [X509_V3] && num.headerLen == 2;
    assert version.body == [TAG_INTEGER, 1, X509_V3] by {
      assert version.body == version.body[..2] + num.body + num.rest;
    }
    assert version.headerLen == 2;
    assert tbs == tbs[..2] + version.body + version.rest;
  }

  lemma KeyInfoCanonical(w: Width, body: Bytes) returns (tag: Byte, alg: Bytes, key: Bytes)
    requires Take(w, body).Ok? && Narrow(w, body) && Narrow(w, Take(w, body).value.rest)
    requires TakeBits(w, Take(w, body).value.rest).Ok? && TakeBits(w, Take(w, body).value.rest).value.1 == []
    ensures tag % 32 != 31 && Small(w, alg) && Small(w, [0] + key)
    ensures body == EncodeTlv(tag, alg) + EncodeTlv(TAG_BIT_STRING, [0] + key)
    ensures Full(Take(w, body).value, body) == EncodeTlv(tag, alg)
    ensures TakeBits(w, Take(w, body).value.rest).value.0 == key
  {
    TakeCanonical(w, body);
    var t := Take(w, body).value;
    BitsCanonical(w, t.rest);
    tag, alg, key := t.tag, t.body, TakeBits(w, t.rest).value.0;
  }

  /** Where the field walk reads headers: the outer frame, ... */
  predicate NarrowOuter(w: Width, der: Bytes)
    requires ParseOuter(w, der).Ok?
  {
    var outer := Take(w, der).value;
    var tbs := Take(w, outer.body).value;
    var alg := Take(w, tbs.rest).value;
    Narrow(w, der) && Narrow(w, outer.body) && Narrow(w, tbs.rest) && Narrow(w, alg.rest)
  }

  /** ... and the eight after the version. */
  predicate NarrowInner(w: Width, der: Bytes)
    requires ParseFields(w, der).Ok?
  {
    var s0 := ParseVersion(w, ParseOuter(w, der).value.1.body).value;
    var s1 := Take(w, s0).value.rest;
    var s2 := Take(w, s1).value.rest;
    var s3 := Take(w, s2).value.rest;
    var s4 := Take(w, s3).value.rest;
    var s5 := Take(w, s4).value.rest;
    var info := Take(w, s5).value.body;
    && Narrow(w, s0) && Narrow(w, s1) && Narrow(w, s2) && Narrow(w, s3) && Narrow(w, s4) && Narrow(w, s5)
    && Narrow(w, info) && Narrow(w, Take(w, info).value.rest)
  }

  /** Every header the field walk reads is narrow. */
  predicate NarrowCert(w: Width, der: Bytes)
    requires ParseFields(w, der).Ok?
  {
    NarrowOuter(w, der) && NarrowInner(w, der)
  }

  predicate IsEncoding(w: Width, der: Bytes, c: Cert, after: Bytes) {
    Encodable(w, c) && der == EncodeCert(w, c) + after
  }

  lemma NamesJoin(w: Width, c: Cert, rest: Bytes)
    requires PartsFit(w, c)
    ensures Names(w, c) + rest
         == EncodeTlv(2, c.serial) + (Seq(c.alg) + (Seq(c.issuer) + (Seq(c.validity) + (Seq(c.subject) + rest))))
  {
    hide EncodeTlv;
  }

  /** With narrow headers, what is accepted is one encoded certificate, possibly followed by
      bytes the walk ignores, and the fields are that certificate's. */
  lemma NarrowIsEncoding(w: Width, der: Bytes) returns (c: Cert, after: Bytes)
    requires ParseFields(w, der).Ok? && NarrowCert(w, der)
    ensures IsEncoding(w, der, c, after) && ParseFields(w, der) == Ok(FieldsOf(w, c))
  {
    hide EncodeTlv, Take, Full, TakeBits, ParseVersion, Narrow;
    var outer := Take(w, der).value;
    TakeCanonical(w, der);
    TakeCanonical(w, outer.body);
    var tbs := Take(w, outer.body).value;
    TakeCanonical(w, tbs.rest);
    var alg := Take(w, tbs.rest).value;
    BitsCanonical(w, alg.rest);
    var signature := TakeBits(w, alg.rest).value.0;
    VersionCanonical(w, tbs.body);
    var s0 := ParseVersion(w, tbs.body).value;
    var serial := Take(w, s0).value;
    var alg' := Take(w, serial.rest).value;
    var issuer := Take(w, alg'.rest).value;
    var validity := Take(w, issuer.rest).value;
    var subject := Take(w, validity.rest).value;
    var spki := Take(w, subject.rest).value;
    TakeCanonical(w, s0);
    TakeCanonical(w, serial.rest);
    TakeCanonical(w, alg'.rest);
    TakeCanonical(w, issuer.rest);
    TakeCanonical(w, validity.rest);
    TakeCanonical(w, subject.rest);
    var tag, keyAlg, key := KeyInfoCanonical(w, spki.body);
    SeqInjective(alg.body, alg'.body);
    hide Seq, NarrowOuter, NarrowInner, ParseOuter, Names;
    c := Cert(serial.body, alg.body, issuer.body, validity.body, subject.body, tag, keyAlg, key, spki.rest, signature);
    after := outer.rest;
    assert spki.body == KeyInfo(w, c);
    assert s0 == Names(w, c) + (Seq(KeyInfo(w, c)) + c.tail) by {
      NamesJoin(w, c, Seq(KeyInfo(w, c)) + c.tail);
    }
    assert tbs.body == Tbs(w, c);
    assert outer.body == OuterBody(w, c);
  }

  lemma SeqInjective(a: Bytes, b: Bytes)
    requires Small(W64, a) && Small(W64, b) && Seq(a) == Seq(b)
    ensures a == b
  {
    ReadUndoesEncode(W64, TAG_SEQUENCE, a, []);
    ReadUndoesEncode(W64, TAG_SEQUENCE, b, []);
  }

  lemma EncodedIsNarrow(w: Width, tag: Byte, body: Bytes, rest: Bytes)
    requires Small(w, body)
    ensures Narrow(w, EncodeTlv(tag, body) + rest)
  {
    hide BigEndian;
    if w == W16 && |body| >= 0x80 {
      OctetBound(|body|, 2);
    }
  }

  lemma EncodingIsNarrowOuter(w: Width, c: Cert, after: Bytes)
    requires Encodable(w, c) && ParseOuter(w, EncodeCert(w, c) + after).Ok?
    ensures NarrowOuter(w, EncodeCert(w, c) + after)
  {
    hide EncodeTlv, Take, Full, TakeBits, Narrow, ParseOuter;
    var bits := EncodeTlv(TAG_BIT_STRING, [0] + c.signature);
    TakeEncoded(w, TAG_SEQUENCE, OuterBody(w, c), after);
    TakeEncoded(w, TAG_SEQUENCE, Tbs(w, c), Seq(c.alg) + bits);
    TakeEncoded(w, TAG_SEQUENCE, c.alg, bits);
    EncodedIsNarrow(w, TAG_SEQUENCE, OuterBody(w, c), after);
    EncodedIsNarrow(w, TAG_SEQUENCE, Tbs(w, c), Seq(c.alg) + bits);
    EncodedIsNarrow(w, TAG_SEQUENCE, c.alg, bits);
    EncodedIsNarrow(w, TAG_BIT_STRING, [0] + c.signature, []);
    assert bits + [] == bits;
  }

  lemma EncodingIsNarrowInner(w: Width, c: Cert, after: Bytes)
    requires Encodable(w, c) && ParseFields(w, EncodeCert(w, c) + after).Ok?
    ensures NarrowInner(w, EncodeCert(w, c) + after)
  {
    hide EncodeTlv, Take, Full, TakeBits, ParseOuter, ParseVersion, KeyInfo, Narrow, ParseFields;
    OuterReads(w, c, after);
    var info := KeyInfo(w, c);
    var key := Seq(info) + c.tail;
    VersionReads(w, Names(w, c) + key);
    var s4 := Seq(c.subject) + key;
    var s3 := Seq(c.validity) + s4;
    var s2 := Seq(c.issuer) + s3;
    var s1 := Seq(c.alg) + s2;
    assert Names(w, c) + key == EncodeTlv(TAG_INTEGER, c.serial) + s1;
    TakeEncoded(w, TAG_INTEGER, c.serial, s1);
    TakeEncoded(w, TAG_SEQUENCE, c.alg, s2);
    TakeEncoded(w, TAG_SEQUENCE, c.issuer, s3);
    TakeEncoded(w, TAG_SEQUENCE, c.validity, s4);
    TakeEncoded(w, TAG_SEQUENCE, c.subject, key);
    TakeEncoded(w, TAG_SEQUENCE, info, c.tail);
    EncodedIsNarrow(w, TAG_INTEGER, c.serial, s1);
    EncodedIsNarrow(w, TAG_SEQUENCE, c.alg, s2);
    EncodedIsNarrow(w, TAG_SEQUENCE, c.issuer, s3);
    EncodedIsNarrow(w, TAG_SEQUENCE, c.validity, s4);
    EncodedIsNarrow(w, TAG_SEQUENCE, c.subject, key);
    EncodedIsNarrow(w, TAG_SEQUENCE, info, c.tail);
    KeyInfoIsNarrow(w, c);
  }

  lemma KeyInfoIsNarrow(w: Width, c: Cert)
    requires Encodable(w, c)
    ensures Narrow(w, KeyInfo(w, c)) && Take(w, KeyInfo(w, c)).Ok? && Narrow(w, Take(w, KeyInfo(w, c)).value.rest)
  {
    hide EncodeTlv, Take, Full, Narrow;
    var bits := EncodeTlv(TAG_BIT_STRING, [0] + c.key);
    TakeEncoded(w, c.keyAlgTag, c.keyAlg, bits);
    EncodedIsNarrow(w, c.keyAlgTag, c.keyAlg, bits);
    EncodedIsNarrow(w, TAG_BIT_STRING, [0] + c.key, []);
    assert bits + [] == bits;
  }

  /** At every width, what the field walk accepts is an encoded certificate if and only if the
      word is wider than 16 bits or no header it reads has more than two length octets. */
  lemma ParseIsCanonical(w: Width, der: Bytes)
    requires ParseFields(w, der).Ok?
    ensures (exists c, after :: IsEncoding(w, der, c, after)) <==> w != W16 || NarrowCert(w, der)
  {
    hide EncodeCert, Encodable, NarrowOuter, NarrowInner, Take, TakeBits, Full, ParseVersion;
    if exists c, after :: IsEncoding(w, der, c, after) {
      var c, after :| IsEncoding(w, der, c, after);
      EncodingIsNarrowOuter(w, c, after);
      EncodingIsNarrowInner(w, c, after);
    }
    if w != W16 {
      WideIsNarrow(w, der);
    }
    if NarrowCert(w, der) {
      var c, after := NarrowIsEncoding(w, der);
      assert IsEncoding(w, der, c, after);
    }
  }

  lemma WideIsNarrow(w: Width, der: Bytes)
    requires w != W16 && ParseFields(w, der).Ok?
    ensures NarrowCert(w, der)
  {
    hide Take, TakeBits, Full;
  }

  /** A certificate's outer frame with a third length octet, which a 16-bit word shifts out. */
  function Overlong(c: Cert): (der: Bytes)
    requires Encodable(W16, c)
  {
    [TAG_SEQUENCE, 0x83, 1] + U16(|OuterBody(W16, c)|) + OuterBody(W16, c)
  }

  lemma ShiftedOut(n: nat)
    requires n < 0x1_0000
    ensures ShiftIn(W16, [1] + U16(n)) == n
  {
    var octets := [1] + U16(n);
    var two := octets[..2];
    assert two == [1, n / 256] && two[..1] == [1] && two[..1][..0] == [];
    assert FromBigEndian([1]) == 1 && FromBigEndian(two) == 256 + n / 256;
    assert FromBigEndian(octets) == 0x1_0000 + n;
  }

  lemma OverlongReads(c: Cert)
    requires Encodable(W16, c) && |OuterBody(W16, c)| >= 0x80
    ensures Take(W16, Overlong(c)) == Ok(Tlv(TAG_SEQUENCE, 5, OuterBody(W16, c), []))
  {
    hide PartsFit, KeyInfo, Tbs, OuterBody;
    var body, der := OuterBody(W16, c), Overlong(c);
    hide ShiftIn;
    assert der[2..5] == [1] + U16(|body|);
    ShiftedOut(|body|);
    assert der[5..] == body && der[5..5 + |body|] == body && der[5 + |body|..] == [];
  }

  /** On a 16-bit word that frame is accepted with the certificate's own fields, and is the encoding
      of no certificate. */
  lemma OverlongAccepted(c: Cert)
    requires Encodable(W16, c) && |OuterBody(W16, c)| >= 0x80
    ensures ParseFields(W16, Overlong(c)) == Ok(FieldsOf(W16, c))
    ensures !exists c', after :: IsEncoding(W16, Overlong(c), c', after)
  {
    hide PartsFit, KeyInfo, Tbs, OuterBody, Take, TakeBits, Full, ParseVersion, IsEncoding, EncodeTlv, FieldsOf, NarrowInner;
    OverlongReads(c);
    ParseUndoesEncode(W16, c, []);
    TakeEncoded(W16, TAG_SEQUENCE, OuterBody(W16, c), []);
    assert ParseOuter(W16, Overlong(c)) == ParseOuter(W16, EncodeCert(W16, c) + []);
    ParseIsCanonical(W16, Overlong(c));
  }

  /** The Ed25519 AlgorithmIdentifier's body. */
  const ED25519_ALG: Bytes := [TAG_OID, 3, 0x2B, 0x65, 0x70]

  /** An Ed25519 certificate with empty names. */
  const SMALL_CERT := Cert([1], ED25519_ALG, [], [], [], TAG_SEQUENCE, ED25519_ALG, Zeros(32), [], Zeros(64))

  lemma SmallCertEncodes()
    ensures Encodable(W16, SMALL_CERT) && |OuterBody(W16, SMALL_CERT)| >= 0x80
  {
    hide Zeros;
    var c := SMALL_CERT;
    assert |c.key| == 32 && |c.signature| == 64;
    assert PartsFit(W16, c);
    assert |KeyInfo(W16, c)| == 42;
    assert |Names(W16, c)| == 16;
    assert |Tbs(W16, c)| == 65;
  }

  lemma Ed25519Reads(w: Width, f: Fields)
    requires f.spkiAlg == Seq(ED25519_ALG) && |f.publicKey| == 32 && |f.signature| == 64
    ensures Ed25519(w, f) == Ok(f.publicKey)
  {
    hide Take, EncodeTlv;
    assert EncodeTlv(TAG_SEQUENCE, ED25519_ALG) + [] == Seq(ED25519_ALG);
    TakeEncoded(w, TAG_SEQUENCE, ED25519_ALG, []);
    ShortTlv(TAG_OID, ED25519_OID);
    assert EncodeTlv(TAG_OID, ED25519_OID) + [] == ED25519_ALG;
    TakeEncoded(w, TAG_OID, ED25519_OID, []);
  }

  lemma ShortTlv(tag: Byte, body: Bytes)
    requires |body| < 0x80
    ensures EncodeTlv(tag, body) == [tag, |body|] + body
  {
  }

  /** One such certificate, which the whole parser takes: an Ed25519 key under an overlong frame. */
  lemma SixteenBitCertificate() returns (der: Bytes)
    ensures Parse(W16, f => Ed25519(W16, f), der).Ok?
    ensures !exists c, after :: IsEncoding(W16, der, c, after)
  {
    hide ParseFields, Ed25519, OuterBody, Zeros;
    SmallCertEncodes();
    OverlongAccepted(SMALL_CERT);
    der := Overlong(SMALL_CERT);
    Ed25519Reads(W16, FieldsOf(W16, SMALL_CERT));
  }
}
