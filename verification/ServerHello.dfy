/** The build's feature selection, shared by both hello messages. */
module Features {
  const GROUP_X25519 := 0x001D
  const GROUP_SECP256R1 := 0x0017
  const GROUP_X25519MLKEM768 := 0x11EC

  const X25519_SHARE := 32
  const P256_SHARE := 65
  const MLKEM768_EK := 1184
  const MLKEM768_CT := 1088

  datatype Features = Features(x25519: bool, p256: bool, mlkem: bool,
                               aes: bool, chacha: bool,
                               rsa: bool, ecdsa: bool, mldsa: bool) {
    /** What the build accepts: some key exchange, some cipher, and mlkem only on top of x25519. */
    predicate Valid() {
      (x25519 || p256) && (aes || chacha) && (mlkem ==> x25519)
    }

    /** The group of the first key share. */
    function PrimaryGroup(): (g: nat) {
      if mlkem then GROUP_X25519MLKEM768 else if x25519 then GROUP_X25519 else GROUP_SECP256R1
    }

    /** secp256r1 is offered beside X25519. */
    predicate SecondGroup() {
      p256 && x25519
    }
  }
}

/** The strict ServerHello parser. */
module ServerHello {
  import opened Bytes
  import opened Consts
  import opened Wire
  import opened Features
  import R = Rfc8446

  const HRR_RANDOM: Bytes := [
    0xCF, 0x21, 0xAD, 0x74, 0xE5, 0x9A, 0x61, 0x11, 0xBE, 0x1D, 0x8C, 0x02, 0x1E, 0x65, 0xB8, 0x91,
    0xC2, 0xA2, 0x11, 0x16, 0x7A, 0xBB, 0x8C, 0x5E, 0x07, 0x9E, 0x09, 0xE2, 0xC8, 0xA8, 0x33, 0x9C]
  const DOWNGRADE_TLS12: Bytes := [0x44, 0x4F, 0x57, 0x4E, 0x47, 0x52, 0x44, 0x01]
  const DOWNGRADE_TLS11_OR_BELOW: Bytes := [0x44, 0x4F, 0x57, 0x4E, 0x47, 0x52, 0x44, 0x00]

  datatype ParseError =
    | Truncated
    | TrailingBytes
    | LengthMismatch
    | UnexpectedContentType(ct: Byte)
    | UnexpectedLegacyVersion(version: nat)
    | UnexpectedHandshakeType(typ: Byte)
    | HelloRetryRequested
    | DowngradeDetected
    | UnexpectedSessionIdEcho
    | UnsupportedCipherSuite(suite: nat)
    | UnexpectedCompressionMethod(compression: Byte)
    | DuplicateExtension(ext: nat)
    | UnknownExtension(ext: nat)
    | BadSupportedVersions
    | BadKeyShare
    | DhAllZero

  /** The selected group with the key in the fields the key exchange reads it from. */
  datatype Selected = Selected(group: nat, x25519Share: Option<Bytes>, hybridShare: Option<Bytes>,
                               p256Share: Option<Bytes>)

  datatype View = View(random: Bytes, sessionId: Bytes, suite: nat, selected: Selected)

  function Need<T>(o: Option<T>): (r: Result<T, ParseError>)
    ensures r.Ok? <==> o.Some?
    ensures r.Ok? ==> r.value == o.value
    ensures r.Err? ==> r.error == Truncated
  {
    match o case None => Err(Truncated) case Some(x) => Ok(x)
  }

  // ---- Specification ----

  function SelectShare(f: Features, group: nat, key: Bytes): (r: Result<Selected, ParseError>) {
    if group == f.PrimaryGroup() then
      if f.mlkem then
        if |key| != MLKEM768_CT + X25519_SHARE then Err(BadKeyShare)
        else Ok(Selected(group, Some(key[MLKEM768_CT..]), Some(key), None))
      else if f.x25519 then
        if |key| != X25519_SHARE then Err(BadKeyShare) else Ok(Selected(group, Some(key), None, None))
      else
        if |key| != P256_SHARE then Err(BadKeyShare) else Ok(Selected(group, None, None, Some(key)))
    else if f.SecondGroup() && group == GROUP_SECP256R1 then
      if |key| != P256_SHARE then Err(BadKeyShare) else Ok(Selected(group, None, None, Some(key)))
    else Err(BadKeyShare)
  }

  function ShareEntry(f: Features, data: Bytes): (r: Result<Selected, ParseError>) {
    var (group, more) :- Need(TakeU16(data));
    var (key, rest) :- Need(TakeVec16(more));
    if rest != [] then Err(BadKeyShare) else SelectShare(f, group, key)
  }

  function ScanExts(f: Features, rest: Bytes, version: bool, sel: Option<Selected>)
    : (r: Result<(bool, Option<Selected>), ParseError>)
    decreases |rest|
  {
    if rest == [] then Ok((version, sel))
    else
      var (e, more) :- Need(NextExt(rest));
      if e.typ == EXT_SUPPORTED_VERSIONS then
        if version then Err(DuplicateExtension(e.typ))
        else if |e.data| != 2 then Err(BadSupportedVersions)
        else if GetU16(e.data, 0) != TLS_1_3 then Err(BadSupportedVersions)
        else ScanExts(f, more, true, sel)
      else if e.typ == EXT_KEY_SHARE then
        if sel.Some? then Err(DuplicateExtension(e.typ))
        else
          var s :- ShareEntry(f, e.data);
          ScanExts(f, more, version, Some(s))
      else Err(UnknownExtension(e.typ))
  }

  function ParseExts(f: Features, exts: Bytes): (r: Result<Selected, ParseError>) {
    var (version, sel) :- ScanExts(f, exts, false, None);
    if sel.None? then Err(BadKeyShare) else if !version then Err(BadSupportedVersions) else Ok(sel.value)
  }

  predicate SuiteAccepted(f: Features, suite: nat) {
    suite == CIPHER_AES_128_GCM_SHA256 || (f.chacha && suite == CIPHER_CHACHA20_POLY1305_SHA256)
  }

  /** The two magic values a genuine ServerHello random never takes. */
  function RandomError(random: Bytes): (e: Option<ParseError>)
    requires |random| == 32
  {
    if random == HRR_RANDOM then Some(HelloRetryRequested)
    else if random[24..] == DOWNGRADE_TLS12 || random[24..] == DOWNGRADE_TLS11_OR_BELOW then Some(DowngradeDetected)
    else None
  }

  function ParseTail(f: Features, random: Bytes, body: Bytes): (r: Result<View, ParseError>) {
    var (sid, b1) :- Need(TakeVec8(body));
    if |sid| > LEGACY_SESSION_ID_LEN then Err(UnexpectedSessionIdEcho)
    else
      var (suite, b2) :- Need(TakeU16(b1));
      if !SuiteAccepted(f, suite) then Err(UnsupportedCipherSuite(suite))
      else
        var (compression, b3) :- Need(TakeU8(b2));
        if compression != 0 then Err(UnexpectedCompressionMethod(compression))
        else
          var (exts, b4) :- Need(TakeVec16(b3));
          if b4 != [] then Err(TrailingBytes)
          else
            var sel :- ParseExts(f, exts);
            Ok(View(random, sid, suite, sel))
  }

  function ParseBody(f: Features, body: Bytes): (r: Result<View, ParseError>) {
    var (version, b1) :- Need(TakeU16(body));
    if version != LEGACY_VERSION then Err(UnexpectedLegacyVersion(version))
    else
      var (random, b2) :- Need(Take(b1, 32));
      match RandomError(random)
      case Some(e) => Err(e)
      case None => ParseTail(f, random, b2)
  }

  /** The handshake body of a record that carries exactly one ServerHello. */
  function Unwrap(input: Bytes): (r: Result<Bytes, ParseError>) {
    var (ct, b1) :- Need(TakeU8(input));
    if ct != CT_HANDSHAKE then Err(UnexpectedContentType(ct))
    else
      var (version, b2) :- Need(TakeU16(b1));
      if version != LEGACY_VERSION then Err(UnexpectedLegacyVersion(version))
      else
        var (record, b3) :- Need(TakeVec16(b2));
        if b3 != [] then Err(TrailingBytes)
        else
          var (typ, h1) :- Need(TakeU8(record));
          if typ != HS_SERVER_HELLO then Err(UnexpectedHandshakeType(typ))
          else
            var (body, h2) :- Need(TakeVec24(h1));
            if h2 != [] then Err(LengthMismatch) else Ok(body)
  }

  function Parse(f: Features, input: Bytes): (r: Result<View, ParseError>) {
    var body :- Unwrap(input);
    ParseBody(f, body)
  }

  // ---- The serializer ----

  /** The key the server sent. */
  function Key(s: Selected): (key: Bytes) {
    match (s.hybridShare, s.p256Share, s.x25519Share)
    case (Some(k), _, _) => k
    case (None, Some(k), _) => k
    case (None, None, Some(k)) => k
    case _ => []
  }

  /** A selection that some key of the right length gives. */
  predicate ValidShare(f: Features, s: Selected) {
    s.group < 0x1_0000 && |Key(s)| < 2000 && SelectShare(f, s.group, Key(s)) == Ok(s)
  }

  predicate ValidView(f: Features, v: View) {
    && |v.random| == 32 && RandomError(v.random).None?
    && |v.sessionId| <= LEGACY_SESSION_ID_LEN
    && SuiteAccepted(f, v.suite)
    && ValidShare(f, v.selected)
  }

  function VersionExt(): (e: Ext) {
    Ext(EXT_SUPPORTED_VERSIONS, U16(TLS_1_3))
  }

  function ShareExt(s: Selected): (e: Ext)
    requires s.group < 0x1_0000 && |Key(s)| < 2000
    ensures e.Valid() && e.typ == EXT_KEY_SHARE && |e.data| < 2004
  {
    Ext(EXT_KEY_SHARE, U16(s.group) + Vec16(Key(s)))
  }

  function Exts(s: Selected, versionFirst: bool): (b: Bytes)
    requires s.group < 0x1_0000 && |Key(s)| < 2000
    ensures |b| < 2100
  {
    if versionFirst then EncodeExt(VersionExt()) + EncodeExt(ShareExt(s))
    else EncodeExt(ShareExt(s)) + EncodeExt(VersionExt())
  }

  function Body(f: Features, v: View, versionFirst: bool): (b: Bytes)
    requires ValidView(f, v)
    ensures |b| < 3000
  {
    U16(LEGACY_VERSION) + (v.random + (Vec8(v.sessionId) + (U16(v.suite) + ([0] + Vec16(Exts(v.selected, versionFirst))))))
  }

  function Serialize(f: Features, v: View, versionFirst: bool): (record: Bytes)
    requires ValidView(f, v)
  {
    [CT_HANDSHAKE] + U16(LEGACY_VERSION) + Vec16(Msg(HS_SERVER_HELLO, Body(f, v, versionFirst)).Full())
  }

  // ---- Both directions ----

  lemma SelectKeepsKey(f: Features, group: nat, key: Bytes)
    requires SelectShare(f, group, key).Ok?
    ensures var s := SelectShare(f, group, key).value; s.group == group && Key(s) == key && |key| < 2000
  {
  }

  lemma ShareReads(f: Features, s: Selected)
    requires ValidShare(f, s)
    ensures ShareEntry(f, ShareExt(s).data) == Ok(s)
  {
    hide TakeU16, TakeVec16, U16, Vec16, SelectShare, Key;
    U16Reads(s.group, Vec16(Key(s)));
    Vec16Reads(Key(s), []);
    assert Vec16(Key(s)) + [] == Vec16(Key(s));
  }

  lemma ShareCanonical(f: Features, data: Bytes)
    requires ShareEntry(f, data).Ok?
    ensures var s := ShareEntry(f, data).value;
            ValidShare(f, s) && ShareExt(s).data == data
  {
    hide TakeU16, TakeVec16, U16, Vec16, SelectShare, Key;
    var (group, more) := TakeU16(data).value;
    var (key, rest) := TakeVec16(more).value;
    SelectKeepsKey(f, group, key);
    assert Vec16(key) + [] == Vec16(key);
  }

  lemma VersionData(data: Bytes)
    ensures |data| == 2 && GetU16(data, 0) == TLS_1_3 <==> data == U16(TLS_1_3)
  {
    if |data| == 2 {
      assert data[0..2] == data;
    }
  }

  /** One extension at a time: with everything seen, nothing more is accepted. */
  lemma ScanNothing(f: Features, rest: Bytes, s: Selected)
    ensures ScanExts(f, rest, true, Some(s)).Ok? <==> rest == []
  {
  }

  lemma ScanShare(f: Features, rest: Bytes, out: Selected)
    ensures ScanExts(f, rest, true, None) == Ok((true, Some(out))) <==>
            ValidShare(f, out) && rest == EncodeExt(ShareExt(out))
  {
    hide NextExt, EncodeExt, SelectShare, Key, ShareEntry, GetU16, ShareExt;
    if ScanExts(f, rest, true, None) == Ok((true, Some(out))) {
      var (e, more) := NextExt(rest).value;
      var s := ShareEntry(f, e.data).value;
      ShareCanonical(f, e.data);
      ScanNothing(f, more, s);
      ShareExtShape(s);
      assert EncodeExt(e) + [] == EncodeExt(e);
    }
    if ValidShare(f, out) && rest == EncodeExt(ShareExt(out)) {
      ShareExtShape(out);
      ExtReads(ShareExt(out), []);
      assert EncodeExt(ShareExt(out)) + [] == EncodeExt(ShareExt(out));
      ShareReads(f, out);
    }
  }

  lemma ShareExtShape(s: Selected)
    requires s.group < 0x1_0000 && |Key(s)| < 2000
    ensures forall e: Ext :: e.typ == EXT_KEY_SHARE && e.data == ShareExt(s).data ==> e == ShareExt(s)
  {
  }

  lemma ScanVersion(f: Features, rest: Bytes, s: Selected, out: Selected)
    ensures ScanExts(f, rest, false, Some(s)) == Ok((true, Some(out))) <==>
            out == s && rest == EncodeExt(VersionExt())
  {
    hide NextExt, EncodeExt, SelectShare, Key, ShareEntry, GetU16;
    if ScanExts(f, rest, false, Some(s)) == Ok((true, Some(out))) {
      var (e, more) := NextExt(rest).value;
      ScanNothing(f, more, s);
      VersionData(e.data);
      assert e == VersionExt();
      assert EncodeExt(e) + [] == EncodeExt(e);
    }
    if out == s && rest == EncodeExt(VersionExt()) {
      ExtReads(VersionExt(), []);
      assert EncodeExt(VersionExt()) + [] == EncodeExt(VersionExt());
      VersionData(U16(TLS_1_3));
    }
  }

  /** The extension block is accepted exactly in its two orders. */
  lemma ExtsExactly(f: Features, exts: Bytes, out: Selected)
    ensures ParseExts(f, exts) == Ok(out) <==>
            && ValidShare(f, out)
            && (exts == Exts(out, true) || exts == Exts(out, false))
  {
    hide NextExt, EncodeExt, SelectShare, Key, ShareEntry, GetU16, ShareExt;
    if exts != [] && NextExt(exts).Some? {
      var (e, more) := NextExt(exts).value;
      if e.typ == EXT_SUPPORTED_VERSIONS {
        ScanShare(f, more, out);
        VersionData(e.data);
      } else if e.typ == EXT_KEY_SHARE && ShareEntry(f, e.data).Ok? {
        var s := ShareEntry(f, e.data).value;
        ScanVersion(f, more, s, out);
        ShareCanonical(f, e.data);
        ShareExtShape(s);
      }
    }
    if ValidShare(f, out) {
      ShareExtShape(out);
      ShareReads(f, out);
      ExtReads(VersionExt(), EncodeExt(ShareExt(out)));
      ExtReads(ShareExt(out), EncodeExt(VersionExt()));
      VersionData(U16(TLS_1_3));
      ScanShare(f, EncodeExt(ShareExt(out)), out);
      ScanVersion(f, EncodeExt(VersionExt()), out, out);
    }
  }

  /** The block after the random, with the extensions still in wire form. */
  function Tail(v: View, exts: Bytes): (b: Bytes)
    requires |v.sessionId| <= LEGACY_SESSION_ID_LEN && v.suite < 0x1_0000 && |exts| < 0x1_0000
  {
    Vec8(v.sessionId) + (U16(v.suite) + ([0] + Vec16(exts)))
  }

  lemma TailReads(f: Features, v: View, exts: Bytes)
    requires |v.sessionId| <= LEGACY_SESSION_ID_LEN && SuiteAccepted(f, v.suite) && |exts| < 0x1_0000
    ensures ParseTail(f, v.random, Tail(v, exts))
         == match ParseExts(f, exts)
            case Err(e) => Err(e)
            case Ok(s) => Ok(v.(selected := s))
  {
    hide TakeVec8, TakeU16, TakeVec16, Vec8, Vec16, U16, ParseExts;
    var b3 := Vec16(exts);
    var b2 := [0] + b3;
    var b1 := U16(v.suite) + b2;
    Vec8Reads(v.sessionId, b1);
    U16Reads(v.suite, b2);
    assert b2[1..] == b3;
    Vec16Reads(exts, []);
    assert b3 + [] == b3;
  }

  lemma TailCanonical(f: Features, random: Bytes, body: Bytes) returns (exts: Bytes)
    requires ParseTail(f, random, body).Ok?
    ensures var v := ParseTail(f, random, body).value;
            && v.random == random && |v.sessionId| <= LEGACY_SESSION_ID_LEN && SuiteAccepted(f, v.suite)
            && |exts| < 0x1_0000 && body == Tail(v, exts) && ParseExts(f, exts) == Ok(v.selected)
  {
    hide TakeVec8, TakeU16, TakeVec16, Vec8, Vec16, U16, ParseExts;
    var (sid, b1) := TakeVec8(body).value;
    var (suite, b2) := TakeU16(b1).value;
    var (compression, b3) := TakeU8(b2).value;
    var (es, b4) := TakeVec16(b3).value;
    exts := es;
    assert Vec16(es) + [] == Vec16(es);
  }

  lemma TailExactly(f: Features, random: Bytes, body: Bytes, v: View)
    requires |random| == 32 && RandomError(random).None?
    ensures ParseTail(f, random, body) == Ok(v) <==>
            && v.random == random && ValidView(f, v)
            && (body == Tail(v, Exts(v.selected, true)) || body == Tail(v, Exts(v.selected, false)))
  {
    hide ParseTail, Tail, Exts, ParseExts, SelectShare, Key, RandomError;
    if ParseTail(f, random, body) == Ok(v) {
      var exts := TailCanonical(f, random, body);
      ExtsExactly(f, exts, v.selected);
    }
    if v.random == random && ValidView(f, v) {
      TailReads(f, v, Exts(v.selected, true));
      TailReads(f, v, Exts(v.selected, false));
      ExtsExactly(f, Exts(v.selected, true), v.selected);
      ExtsExactly(f, Exts(v.selected, false), v.selected);
    }
  }

  lemma BodyReads(f: Features, random: Bytes, tail: Bytes)
    requires |random| == 32 && RandomError(random).None?
    ensures ParseBody(f, U16(LEGACY_VERSION) + (random + tail)) == ParseTail(f, random, tail)
  {
    hide U16, TakeU16, ParseTail, RandomError;
    U16Reads(LEGACY_VERSION, random + tail);
    TakeConcat(random, tail);
  }

  lemma BodyExactly(f: Features, body: Bytes, v: View)
    ensures ParseBody(f, body) == Ok(v) <==>
            ValidView(f, v) && (body == Body(f, v, true) || body == Body(f, v, false))
  {
    hide ParseTail, TakeU16, U16, RandomError, SelectShare, Key, Exts;
    if ParseBody(f, body) == Ok(v) {
      var (version, b1) := TakeU16(body).value;
      var (random, b2) := Take(b1, 32).value;
      TailExactly(f, random, b2, v);
    }
    if ValidView(f, v) {
      forall first: bool
        ensures ParseBody(f, Body(f, v, first)) == Ok(v)
      {
        var tail := Tail(v, Exts(v.selected, first));
        BodyReads(f, v.random, tail);
        TailExactly(f, v.random, tail, v);
      }
    }
  }

  lemma UnwrapExactly(input: Bytes, body: Bytes)
    requires |body| < 3000
    ensures Unwrap(input) == Ok(body) <==>
            input == [CT_HANDSHAKE] + U16(LEGACY_VERSION) + Vec16(Msg(HS_SERVER_HELLO, body).Full())
  {
    hide TakeU16, TakeVec16, TakeVec24, Vec24, U16, Vec16;
    var record := Msg(HS_SERVER_HELLO, body).Full();
    var wire := [CT_HANDSHAKE] + U16(LEGACY_VERSION) + Vec16(record);
    if Unwrap(input) == Ok(body) {
      var (ct, b1) := TakeU8(input).value;
      var (version, b2) := TakeU16(b1).value;
      var (rec, b3) := TakeVec16(b2).value;
      var (typ, h1) := TakeU8(rec).value;
      assert Vec24(body) + [] == Vec24(body);
      assert Vec16(rec) + [] == Vec16(rec);
      assert input == [CT_HANDSHAKE] + (U16(LEGACY_VERSION) + Vec16(rec));
    }
    assert wire == [CT_HANDSHAKE] + (U16(LEGACY_VERSION) + Vec16(record));
    assert wire[1..] == U16(LEGACY_VERSION) + Vec16(record);
    U16Reads(LEGACY_VERSION, Vec16(record));
    Vec16Reads(record, []);
    assert Vec16(record) + [] == Vec16(record);
    assert record[1..] == Vec24(body);
    Vec24Reads(body, []);
    assert Vec24(body) + [] == Vec24(body);
  }

  // ---- In the terms of section 4.1.3 of RFC 8446 ----

  /** The key of a selection, by its group. */
  function SentKey(s: Selected): (key: Option<Bytes>) {
    if s.group == 0x11EC then s.hybridShare else if s.group == 0x001D then s.x25519Share else s.p256Share
  }

  /** A group the build can select, with a key of that group's length, in the fields that group uses. */
  predicate GenuineShare(f: Features, s: Selected) {
    || (&& s.group == 0x11EC && f.mlkem && s.p256Share.None?
        && s.hybridShare.Some? && |s.hybridShare.value| == 1120 && s.x25519Share == Some(s.hybridShare.value[1088..]))
    || (&& s.group == 0x001D && f.x25519 && !f.mlkem && s.hybridShare.None? && s.p256Share.None?
        && s.x25519Share.Some? && |s.x25519Share.value| == 32)
    || (&& s.group == 0x0017 && (if f.x25519 || f.mlkem then f.x25519 && f.p256 else true)
        && s.hybridShare.None? && s.x25519Share.None? && s.p256Share.Some? && |s.p256Share.value| == 65)
  }

  /** A ServerHello that is neither a retry nor a downgrade, with a suite and a share the build knows. */
  predicate Genuine(f: Features, v: View) {
    && |v.random| == 32 && v.random != R.RETRY_RANDOM && !R.IsDowngrade(v.random)
    && |v.sessionId| <= 32
    && (v.suite == 0x1301 || (f.chacha && v.suite == 0x1303))
    && GenuineShare(f, v.selected)
  }

  function Written(f: Features, v: View, versionFirst: bool): (record: Bytes)
    requires Genuine(f, v)
  {
    R.ServerHello(v.random, v.sessionId, v.suite, v.selected.group, SentKey(v.selected).value, versionFirst)
  }

  lemma ShareExactly(f: Features, s: Selected)
    ensures ValidShare(f, s) <==> GenuineShare(f, s)
    ensures GenuineShare(f, s) ==> SentKey(s) == Some(Key(s))
  {
  }

  lemma RandomExactly(random: Bytes)
    requires |random| == 32
    ensures RandomError(random) == if random == R.RETRY_RANDOM then Some(HelloRetryRequested)
                                   else if R.IsDowngrade(random) then Some(DowngradeDetected) else None
  {
    assert HRR_RANDOM == R.RETRY_RANDOM;
    assert Ascii("DOWNGRD") + [1] == DOWNGRADE_TLS12 && Ascii("DOWNGRD") + [0] == DOWNGRADE_TLS11_OR_BELOW;
  }

  lemma GenuineExactly(f: Features, v: View)
    ensures ValidView(f, v) <==> Genuine(f, v)
  {
    hide SelectShare, Key, RandomError, R.IsDowngrade, GenuineShare, ValidShare;
    ShareExactly(f, v.selected);
    if |v.random| == 32 {
      RandomExactly(v.random);
    }
  }

  lemma WrittenExactly(f: Features, v: View, first: bool)
    requires ValidView(f, v) && Genuine(f, v)
    ensures Serialize(f, v, first) == Written(f, v, first)
  {
    hide SelectShare, Key, RandomError, R.IsDowngrade;
    ShareExactly(f, v.selected);
    var s := v.selected;
    assert U16(LEGACY_VERSION) == U16(0x0303);
    assert EncodeExt(VersionExt()) == R.VERSIONS;
    assert EncodeExt(ShareExt(s)) == R.KeyShare(s.group, Key(s));
  }

  /** What the parser accepts is never longer than the largest serialization. */
  lemma AcceptedIsShort(f: Features, body: Bytes)
    requires ParseBody(f, body).Ok?
    ensures |body| < 3000
  {
    hide ParseBody;
    BodyExactly(f, body, ParseBody(f, body).value);
  }

  /**
   * The parser is canonical: a record is accepted with view `v` exactly when it is one of the two
   * serializations of `v`, which differ in the order of the two extensions only.
   */
  lemma ParsedExactly(f: Features, input: Bytes, v: View)
    ensures Parse(f, input) == Ok(v) <==>
            ValidView(f, v) && (input == Serialize(f, v, true) || input == Serialize(f, v, false))
    ensures Parse(f, input) == Ok(v) <==> Genuine(f, v) && (input == Written(f, v, true) || input == Written(f, v, false))
  {
    hide ParseBody, Unwrap, Body, ValidView, U16, Vec16, Genuine, Written;
    GenuineExactly(f, v);
    if ValidView(f, v) {
      WrittenExactly(f, v, true);
      WrittenExactly(f, v, false);
    }
    if Parse(f, input) == Ok(v) {
      var body := Unwrap(input).value;
      AcceptedIsShort(f, body);
      BodyExactly(f, body, v);
      UnwrapExactly(input, body);
    }
    if ValidView(f, v) {
      forall first: bool
        ensures Parse(f, Serialize(f, v, first)) == Ok(v)
      {
        BodyExactly(f, Body(f, v, first), v);
        UnwrapExactly(Serialize(f, v, first), Body(f, v, first));
      }
    }
  }

  // ---- Refusals ----

  lemma RecordOpens(ct: Byte, version: nat, typ: Byte, body: Bytes)
    requires version < 0x1_0000 && |body| < 0xFFF0
    ensures var record := [ct] + U16(version) + Vec16([typ] + Vec24(body));
            Unwrap(record) == if ct != 22 then Err(UnexpectedContentType(ct))
                              else if version != 0x0303 then Err(UnexpectedLegacyVersion(version))
                              else if typ != 2 then Err(UnexpectedHandshakeType(typ))
                              else Ok(body)
  {
    hide TakeU16, TakeVec16, TakeVec24, Vec24, U16, Vec16;
    var msg := [typ] + Vec24(body);
    var record := [ct] + U16(version) + Vec16(msg);
    assert record == [ct] + (U16(version) + Vec16(msg));
    assert record[1..] == U16(version) + Vec16(msg);
    U16Reads(version, Vec16(msg));
    Vec16Reads(msg, []);
    assert Vec16(msg) + [] == Vec16(msg);
    assert msg[1..] == Vec24(body);
    Vec24Reads(body, []);
    assert Vec24(body) + [] == Vec24(body);
  }

  /** The fields after the random, in order. */
  lemma TailFault(f: Features, random: Bytes, sid: Bytes, suite: nat, compression: Byte, exts: Bytes)
    requires |sid| < 256 && suite < 0x1_0000 && |exts| < 0x1_0000
    ensures ParseTail(f, random, Vec8(sid) + (U16(suite) + ([compression] + Vec16(exts))))
         == if |sid| > 32 then Err(UnexpectedSessionIdEcho)
            else if !(suite == 0x1301 || (f.chacha && suite == 0x1303)) then Err(UnsupportedCipherSuite(suite))
            else if compression != 0 then Err(UnexpectedCompressionMethod(compression))
            else match ParseExts(f, exts)
                 case Err(e) => Err(e)
                 case Ok(s) => Ok(View(random, sid, suite, s))
  {
    hide TakeVec8, TakeU16, TakeVec16, Vec8, Vec16, U16, ParseExts;
    var b3 := Vec16(exts);
    var b2 := [compression] + b3;
    Vec8Reads(sid, U16(suite) + b2);
    U16Reads(suite, b2);
    assert b2[1..] == b3;
    Vec16Reads(exts, []);
    assert b3 + [] == b3;
  }

  /**
   * A framed ServerHello with anything in its fields gets the error of the first field that is wrong, in the
   * order of the message, and only if none is does its extension block decide.
   */
  lemma FirstFault(f: Features, ct: Byte, recordVersion: nat, typ: Byte, version: nat, random: Bytes, sid: Bytes, suite: nat,
                   compression: Byte, exts: Bytes)
    requires recordVersion < 0x1_0000 && version < 0x1_0000 && suite < 0x1_0000
    requires |random| == 32 && |sid| < 256 && |exts| < 0xF000
    ensures Parse(f, R.HelloRecord(ct, recordVersion, typ, version, random, sid, suite, compression, exts))
         == if ct != 22 then Err(UnexpectedContentType(ct))
            else if recordVersion != 0x0303 then Err(UnexpectedLegacyVersion(recordVersion))
            else if typ != 2 then Err(UnexpectedHandshakeType(typ))
            else if version != 0x0303 then Err(UnexpectedLegacyVersion(version))
            else if random == R.RETRY_RANDOM then Err(HelloRetryRequested)
            else if R.IsDowngrade(random) then Err(DowngradeDetected)
            else if |sid| > 32 then Err(UnexpectedSessionIdEcho)
            else if !(suite == 0x1301 || (f.chacha && suite == 0x1303)) then Err(UnsupportedCipherSuite(suite))
            else if compression != 0 then Err(UnexpectedCompressionMethod(compression))
            else match ParseExts(f, exts)
                 case Err(e) => Err(e)
                 case Ok(s) => Ok(View(random, sid, suite, s))
  {
    hide Unwrap, ParseTail, TakeU16, Vec8, Vec16, Vec24, U16, ParseExts, RandomError, R.IsDowngrade;
    var tail := Vec8(sid) + (U16(suite) + ([compression] + Vec16(exts)));
    var body := U16(version) + (random + tail);
    RecordOpens(ct, recordVersion, typ, body);
    U16Reads(version, random + tail);
    TakeConcat(random, tail);
    RandomExactly(random);
    TailFault(f, random, sid, suite, compression, exts);
  }

  /** A share entry with anything in it: a spare byte or a group and key the build does not select is refused. */
  lemma EntryFault(f: Features, group: nat, key: Bytes, spare: Bytes)
    requires group < 0x1_0000 && |key| < 0x1_0000
    ensures var r := ShareEntry(f, U16(group) + (Vec16(key) + spare));
            && (r.Ok? <==> spare == [] && exists s :: GenuineShare(f, s) && s.group == group && SentKey(s) == Some(key))
            && (r.Err? ==> r.error == BadKeyShare)
  {
    hide TakeU16, TakeVec16, U16, Vec16;
    U16Reads(group, Vec16(key) + spare);
    Vec16Reads(key, spare);
    var r := SelectShare(f, group, key);
    if r.Ok? {
      ShareExactly(f, r.value);
      SelectKeepsKey(f, group, key);
      assert GenuineShare(f, r.value) && r.value.group == group && SentKey(r.value) == Some(key);
    }
    forall s | GenuineShare(f, s) && s.group == group && SentKey(s) == Some(key)
      ensures r.Ok?
    {
      ShareExactly(f, s);
    }
  }

  /** An extension that is in order on its own: version 0x0304, or one share entry. */
  predicate ExtFine(f: Features, e: Ext) {
    (e.typ == 43 && e.data == [3, 4]) || (e.typ == 51 && ShareEntry(f, e.data).Ok?)
  }

  predicate HasType(es: seq<Ext>, typ: nat) {
    exists i :: 0 <= i < |es| && es[i].typ == typ
  }

  /** The first `n` extensions are in order and of different types. */
  predicate FineTo(f: Features, es: seq<Ext>, n: nat)
    requires n <= |es|
  {
    forall i :: 0 <= i < n ==> ExtFine(f, es[i]) && forall j :: 0 <= j < i ==> es[j].typ != es[i].typ
  }

  /** The error of an extension that is unknown, there already, or not in order. */
  function ExtFault(f: Features, e: Ext, seen: bool): (r: Option<ParseError>) {
    if e.typ != 43 && e.typ != 51 then Some(UnknownExtension(e.typ))
    else if seen then Some(DuplicateExtension(e.typ))
    else if ExtFine(f, e) then None
    else if e.typ == 43 then Some(BadSupportedVersions)
    else Some(ShareEntry(f, e.data).error)
  }

  /** The extension's type was met before. */
  predicate Seen(e: Ext, before: seq<Ext>, version: bool, share: bool) {
    HasType(before, e.typ) || (e.typ == 43 && version) || (e.typ == 51 && share)
  }

  lemma StepOf(f: Features, e: Ext, more: Bytes, version: bool, sel: Option<Selected>)
    requires e.Valid()
    ensures ScanExts(f, EncodeExt(e) + more, version, sel)
         == match ExtFault(f, e, Seen(e, [], version, sel.Some?))
            case Some(err) => Err(err)
            case None =>
              if e.typ == 43 then ScanExts(f, more, true, sel)
              else ScanExts(f, more, version, Some(ShareEntry(f, e.data).value))
  {
    hide NextExt, EncodeExt, ShareEntry, GetU16;
    ExtReads(e, more);
    VersionData(e.data);
    assert U16(TLS_1_3) == [3, 4];
    assert EncodeExt(e) + more != [] by { assert |EncodeExt(e)| >= 4; }
  }

  lemma HasTypeCons(e: Ext, es: seq<Ext>, typ: nat)
    ensures HasType([e] + es, typ) <==> e.typ == typ || HasType(es, typ)
  {
    var all := [e] + es;
    if HasType(es, typ) {
      var i :| 0 <= i < |es| && es[i].typ == typ;
      assert all[i + 1].typ == typ;
    }
    assert all[0] == e;
  }

  lemma {:induction false} ScanFault(f: Features, es: seq<Ext>, n: nat, version: bool, sel: Option<Selected>)
    requires AllValid(es) && n < |es| && FineTo(f, es, n)
    requires version ==> !HasType(es[..n], 43)
    requires sel.Some? ==> !HasType(es[..n], 51)
    requires ExtFault(f, es[n], Seen(es[n], es[..n], version, sel.Some?)).Some?
    ensures ScanExts(f, EncodeExts(es), version, sel)
         == Err(ExtFault(f, es[n], Seen(es[n], es[..n], version, sel.Some?)).value)
    decreases n
  {
    hide ScanExts, EncodeExt, ShareEntry, HasType;
    StepOf(f, es[0], EncodeExts(es[1..]), version, sel);
    if n == 0 {
      assert es[..0] == [];
    } else {
      var rest := es[1..];
      var before := rest[..n - 1];
      assert es[..n] == [es[0]] + before;
      HasTypeCons(es[0], before, 43);
      HasTypeCons(es[0], before, 51);
      HasTypeCons(es[0], before, es[n].typ);
      NoneYet(f, es, n);
      if es[0].typ == 43 {
        ScanFault(f, rest, n - 1, true, sel);
      } else {
        ScanFault(f, rest, n - 1, version, Some(ShareEntry(f, es[0].data).value));
      }
    }
  }

  lemma NoneYet(f: Features, es: seq<Ext>, n: nat)
    requires 0 < n <= |es| && FineTo(f, es, n)
    ensures ExtFine(f, es[0]) && FineTo(f, es[1..], n - 1) && !HasType(es[1..][..n - 1], es[0].typ)
    ensures !HasType([], es[0].typ)
  {
  }

  /** The extension block gets the error of the first extension that has one. */
  lemma ExtsFirstFault(f: Features, es: seq<Ext>, n: nat)
    requires AllValid(es) && n < |es| && FineTo(f, es, n) && ExtFault(f, es[n], HasType(es[..n], es[n].typ)).Some?
    ensures ParseExts(f, EncodeExts(es)) == Err(ExtFault(f, es[n], HasType(es[..n], es[n].typ)).value)
  {
    hide ScanExts;
    ScanFault(f, es, n, false, None);
  }

  /** With none at fault, one may still be missing. */
  lemma ExtsMissing(f: Features, e: Ext)
    requires e.Valid() && ExtFine(f, e)
    ensures ParseExts(f, []) == Err(BadKeyShare)
    ensures ParseExts(f, EncodeExt(e)) == Err(if e.typ == 43 then BadKeyShare else BadSupportedVersions)
  {
    hide EncodeExt, ShareEntry;
    StepOf(f, e, [], false, None);
    assert EncodeExt(e) + [] == EncodeExt(e);
  }

  // ---- The parser as written ----

  /** A bounds-checked cursor; a plain read that fails leaves it where it was. */
  class Reader {
    const buf: Bytes
    var pos: nat

    ghost predicate Valid()
      reads this
    {
      pos <= |buf|
    }

    ghost function Rest(): (b: Bytes)
      requires Valid()
      reads this
    {
      buf[pos..]
    }

    constructor (buf: Bytes)
      ensures Valid() && this.buf == buf && Rest() == buf
    {
      this.buf := buf;
      pos := 0;
    }

    method AtEnd() returns (b: bool)
      requires Valid()
      ensures b == (Rest() == [])
    {
      b := pos == |buf|;
    }

    method TakeN(n: nat) returns (r: Result<Bytes, ParseError>)
      requires Valid()
      modifies this
      ensures Valid()
      ensures r.Ok? ==> Take(old(Rest()), n) == Some((r.value, Rest()))
      ensures r.Err? ==> r == Err(Truncated) && Take(old(Rest()), n).None? && pos == old(pos)
    {
      TakeAt(buf, pos, n);
      if |buf| - pos < n {
        return Err(Truncated);
      }
      var slice := buf[pos..pos + n];
      pos := pos + n;
      return Ok(slice);
    }

    method U8() returns (r: Result<Byte, ParseError>)
      requires Valid()
      modifies this
      ensures Valid()
      ensures r.Ok? ==> TakeU8(old(Rest())) == Some((r.value, Rest()))
      ensures r.Err? ==> r == Err(Truncated) && TakeU8(old(Rest())).None?
    {
      var b := TakeN(1);
      if b.Err? {
        return Err(b.error);
      }
      return Ok(b.value[0]);
    }

    method U16() returns (r: Result<nat, ParseError>)
      requires Valid()
      modifies this
      ensures Valid()
      ensures r.Ok? ==> TakeU16(old(Rest())) == Some((r.value, Rest()))
      ensures r.Err? ==> r == Err(Truncated) && TakeU16(old(Rest())).None?
    {
      ghost var before := Rest();
      var b := TakeN(2);
      if b.Err? {
        return Err(b.error);
      }
      assert before[0] == b.value[0] && before[1] == b.value[1];
      return Ok(GetU16(b.value, 0));
    }

    method VecU8() returns (r: Result<Bytes, ParseError>)
      requires Valid()
      modifies this
      ensures Valid()
      ensures r.Ok? ==> TakeVec8(old(Rest())) == Some((r.value, Rest()))
      ensures r.Err? ==> r == Err(Truncated) && TakeVec8(old(Rest())).None?
    {
      var n := U8();
      if n.Err? {
        return Err(n.error);
      }
      r := TakeN(n.value);
    }

    method VecU16() returns (r: Result<Bytes, ParseError>)
      requires Valid()
      modifies this
      ensures Valid()
      ensures r.Ok? ==> TakeVec16(old(Rest())) == Some((r.value, Rest()))
      ensures r.Err? ==> r == Err(Truncated) && TakeVec16(old(Rest())).None?
    {
      hide TakeU16;
      var n := U16();
      if n.Err? {
        return Err(n.error);
      }
      r := TakeN(n.value);
    }

    method VecU24() returns (r: Result<Bytes, ParseError>)
      requires Valid()
      modifies this
      ensures Valid()
      ensures r.Ok? ==> TakeVec24(old(Rest())) == Some((r.value, Rest()))
      ensures r.Err? ==> r == Err(Truncated) && TakeVec24(old(Rest())).None?
    {
      hide GetU24;
      ghost var before := Rest();
      TakeU24Prefix(before);
      var b := TakeN(3);
      if b.Err? {
        return Err(b.error);
      }
      r := TakeN(GetU24(b.value, 0));
    }
  }

  lemma TakeU24Prefix(buf: Bytes)
    ensures |buf| >= 3 ==> TakeU24(buf) == Some((GetU24(buf[..3], 0), buf[3..]))
  {
    if |buf| >= 3 {
      var b := buf[..3];
      assert b[0] == buf[0] && b[1] == buf[1] && b[2] == buf[2];
    }
  }

  method UnwrapRecord(input: Bytes) returns (r: Result<Bytes, ParseError>)
    ensures r == Unwrap(input)
  {
    hide TakeU16, TakeVec16, TakeVec24;
    var rd := new Reader(input);
    var ct := rd.U8();
    if ct.Err? {
      return Err(ct.error);
    }
    if ct.value != CT_HANDSHAKE {
      return Err(UnexpectedContentType(ct.value));
    }
    var version := rd.U16();
    if version.Err? {
      return Err(version.error);
    }
    if version.value != LEGACY_VERSION {
      return Err(UnexpectedLegacyVersion(version.value));
    }
    var record := rd.VecU16();
    if record.Err? {
      return Err(record.error);
    }
    var end := rd.AtEnd();
    if !end {
      return Err(TrailingBytes);
    }
    var hr := new Reader(record.value);
    var typ := hr.U8();
    if typ.Err? {
      return Err(typ.error);
    }
    if typ.value != HS_SERVER_HELLO {
      return Err(UnexpectedHandshakeType(typ.value));
    }
    var body := hr.VecU24();
    if body.Err? {
      return Err(body.error);
    }
    end := hr.AtEnd();
    if !end {
      return Err(LengthMismatch);
    }
    return Ok(body.value);
  }

  method ReadShare(f: Features, data: Bytes) returns (r: Result<Selected, ParseError>)
    ensures r == ShareEntry(f, data)
  {
    hide TakeU16, TakeVec16;
    var kr := new Reader(data);
    var group := kr.U16();
    if group.Err? {
      return Err(group.error);
    }
    var key := kr.VecU16();
    if key.Err? {
      return Err(key.error);
    }
    var end := kr.AtEnd();
    if !end {
      return Err(BadKeyShare);
    }
    return SelectShare(f, group.value, key.value);
  }

  lemma NextExtSteps(rest: Bytes, typ: nat, data: Bytes, more: Bytes)
    requires TakeU16(rest).Some? && TakeU16(rest).value.0 == typ
    requires TakeVec16(TakeU16(rest).value.1) == Some((data, more))
    ensures NextExt(rest) == Some((Ext(typ, data), more))
  {
  }

  /** The extension loop, with the two results it sets along the way. */
  method ReadExts(f: Features, exts: Bytes) returns (r: Result<Selected, ParseError>)
    ensures r == ParseExts(f, exts)
  {
    hide TakeU16, TakeVec16, ShareEntry, GetU16, U16, Vec16, EncodeExt;
    var version := false;
    var sel: Option<Selected> := None;
    var rd := new Reader(exts);
    var end := rd.AtEnd();
    while !end
      invariant rd.Valid() && fresh(rd) && end == (rd.Rest() == [])
      invariant ScanExts(f, exts, false, None) == ScanExts(f, rd.Rest(), version, sel)
      decreases |rd.Rest()|
    {
      ghost var rest := rd.Rest();
      var typ := rd.U16();
      if typ.Err? {
        return Err(typ.error);
      }
      var data := rd.VecU16();
      if data.Err? {
        return Err(data.error);
      }
      NextExtSteps(rest, typ.value, data.value, rd.Rest());
      hide NextExt;
      if typ.value == EXT_SUPPORTED_VERSIONS {
        if version {
          return Err(DuplicateExtension(typ.value));
        }
        if |data.value| != 2 {
          return Err(BadSupportedVersions);
        }
        if GetU16(data.value, 0) != TLS_1_3 {
          return Err(BadSupportedVersions);
        }
        version := true;
      } else if typ.value == EXT_KEY_SHARE {
        if sel.Some? {
          return Err(DuplicateExtension(typ.value));
        }
        var share := ReadShare(f, data.value);
        if share.Err? {
          return Err(share.error);
        }
        sel := Some(share.value);
      } else {
        return Err(UnknownExtension(typ.value));
      }
      end := rd.AtEnd();
    }
    if sel.None? {
      return Err(BadKeyShare);
    }
    if !version {
      return Err(BadSupportedVersions);
    }
    return Ok(sel.value);
  }

  method ReadTail(f: Features, random: Bytes, b: Reader) returns (r: Result<View, ParseError>)
    requires b.Valid()
    modifies b
    ensures r == ParseTail(f, random, old(b.Rest()))
  {
    hide TakeU16, TakeVec16, TakeVec8, ParseExts;
    var sid := b.VecU8();
    if sid.Err? {
      return Err(sid.error);
    }
    if |sid.value| > LEGACY_SESSION_ID_LEN {
      return Err(UnexpectedSessionIdEcho);
    }
    var suite := b.U16();
    if suite.Err? {
      return Err(suite.error);
    }
    if !SuiteAccepted(f, suite.value) {
      return Err(UnsupportedCipherSuite(suite.value));
    }
    var compression := b.U8();
    if compression.Err? {
      return Err(compression.error);
    }
    if compression.value != 0 {
      return Err(UnexpectedCompressionMethod(compression.value));
    }
    var exts := b.VecU16();
    if exts.Err? {
      return Err(exts.error);
    }
    var end := b.AtEnd();
    if !end {
      return Err(TrailingBytes);
    }
    var sel := ReadExts(f, exts.value);
    if sel.Err? {
      return Err(sel.error);
    }
    return Ok(View(random, sid.value, suite.value, sel.value));
  }

  method ParseServerHello(f: Features, input: Bytes) returns (r: Result<View, ParseError>)
    ensures r == Parse(f, input)
  {
    hide Unwrap, ParseTail, TakeU16;
    var body := UnwrapRecord(input);
    if body.Err? {
      return Err(body.error);
    }
    var b := new Reader(body.value);
    var version := b.U16();
    if version.Err? {
      return Err(version.error);
    }
    if version.value != LEGACY_VERSION {
      return Err(UnexpectedLegacyVersion(version.value));
    }
    var random := b.TakeN(32);
    if random.Err? {
      return Err(random.error);
    }
    if random.value == HRR_RANDOM {
      return Err(HelloRetryRequested);
    }
    var suffix := random.value[24..];
    if suffix == DOWNGRADE_TLS12 || suffix == DOWNGRADE_TLS11_OR_BELOW {
      return Err(DowngradeDetected);
    }
    r := ReadTail(f, random.value, b);
  }
}
