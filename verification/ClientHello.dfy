/** The ClientHello: its sizing functions, its writer, and a decoder that only follows length prefixes. */
module ClientHello {
  import opened Bytes
  import opened Consts
  import opened Wire
  import opened Features

  datatype SuiteList = Default | AesOnly | ChaChaOnly

  datatype Options = Options(hostname: Option<Bytes>, recordSizeLimit: Option<nat>, sessionId: Option<Bytes>,
                             alpn: Option<seq<Bytes>>, suites: SuiteList,
                             mlkemEk: Option<Bytes>, p256Pub: Option<Bytes>) {
    /** What the option types themselves fix. */
    predicate Typed(f: Features) {
      && (recordSizeLimit.Some? ==> recordSizeLimit.value < 0x1_0000)
      && (sessionId.Some? ==> |sessionId.value| == LEGACY_SESSION_ID_LEN)
      && (suites.AesOnly? ==> f.aes)
      && (suites.ChaChaOnly? ==> f.chacha)
      && (mlkemEk.Some? ==> |mlkemEk.value| == MLKEM768_EK)
      && (p256Pub.Some? ==> |p256Pub.value| == P256_SHARE)
    }
  }

  datatype HelloError =
    | HostnameTooLong
    | RecordSizeLimitOutOfRange
    | AlpnNameLen
    | MessageTooLong
    | MissingMlKemKeyShare
    | MissingP256KeyShare
    | IntegerOverflow
    | Full

  // ---- Sizes, as computed ahead of the write ----

  function Count(b: bool): (n: nat) {
    if b then 1 else 0
  }

  function GroupCount(f: Features): (n: nat) {
    Count(f.x25519) + Count(f.p256)
  }

  function SchemeCount(f: Features): (n: nat) {
    1 + Count(f.rsa) + 3 * Count(f.mldsa) + 2 * Count(f.ecdsa)
  }

  function PrimaryKeyLen(f: Features): (n: nat) {
    if f.mlkem then MLKEM768_EK + X25519_SHARE else if f.x25519 then X25519_SHARE else P256_SHARE
  }

  /** The part of the primary key the caller passes; the ML-KEM key travels in the options. */
  function PrimaryPubLen(f: Features): (n: nat) {
    if f.mlkem then X25519_SHARE else PrimaryKeyLen(f)
  }

  function KeyShareListLen(f: Features): (n: nat) {
    4 + PrimaryKeyLen(f) + (if f.SecondGroup() then 4 + P256_SHARE else 0)
  }

  function FixedExtensionsTotal(f: Features): (n: nat) {
    (4 + 3) + (4 + 2 + 2 * GroupCount(f)) + (4 + 2 + 2 * SchemeCount(f)) + (4 + 2 + KeyShareListLen(f))
  }

  function SuiteCount(f: Features, suites: SuiteList): (n: nat) {
    match suites
    case Default => Count(f.aes) + Count(f.chacha)
    case AesOnly => 1
    case ChaChaOnly => 1
  }

  function NamesLen(names: seq<Bytes>): (n: nat) {
    if names == [] then 0 else 1 + |names[0]| + NamesLen(names[1..])
  }

  function AlpnTotal(alpn: Option<seq<Bytes>>): (n: nat) {
    match alpn case None => 0 case Some(names) => 4 + 2 + NamesLen(names)
  }

  method AlpnExtTotal(alpn: Option<seq<Bytes>>) returns (n: nat)
    ensures n == AlpnTotal(alpn)
  {
    if alpn.None? {
      return 0;
    }
    var list := alpn.value;
    var names := 0;
    var i := 0;
    assert list[0..] == list;
    while i < |list|
      invariant 0 <= i <= |list|
      invariant names + NamesLen(list[i..]) == NamesLen(list)
    {
      assert list[i..][1..] == list[i + 1..];
      names := names + 1 + |list[i]|;
      i := i + 1;
    }
    return 4 + 2 + names;
  }

  function ExtensionsTotal(f: Features, o: Options): (n: nat) {
    FixedExtensionsTotal(f)
    + (match o.hostname case None => 0 case Some(h) => 9 + |h|)
    + (if o.recordSizeLimit.Some? then 4 + 2 else 0)
    + AlpnTotal(o.alpn)
  }

  function BodyLen(f: Features, o: Options): (n: nat) {
    2 + 32
    + (1 + (if o.sessionId.Some? then LEGACY_SESSION_ID_LEN else 0))
    + (2 + 2 * SuiteCount(f, o.suites))
    + (1 + 1)
    + 2
    + ExtensionsTotal(f, o)
  }

  function ClientHelloLen(f: Features, o: Options): (n: nat) {
    5 + 4 + BodyLen(f, o)
  }

  predicate NamesLegal(names: seq<Bytes>) {
    names != [] && forall i :: 0 <= i < |names| ==> 1 <= |names[i]| <= 255
  }

  /** What the writer refuses before it writes a byte. */
  function OptionsError(f: Features, o: Options): (e: Option<HelloError>) {
    if o.hostname.Some? && |o.hostname.value| > 0xFFFF then Some(HostnameTooLong)
    else if o.recordSizeLimit.Some? && !(64 <= o.recordSizeLimit.value <= 16385) then Some(RecordSizeLimitOutOfRange)
    else if o.alpn.Some? && !NamesLegal(o.alpn.value) then Some(AlpnNameLen)
    else if ClientHelloLen(f, o) > 5 + TLS_PLAINTEXT_MAX then Some(MessageTooLong)
    else None
  }

  predicate KeysPresent(f: Features, o: Options) {
    (f.mlkem ==> o.mlkemEk.Some?) && (f.SecondGroup() ==> o.p256Pub.Some?)
  }

  // ---- The message, nested ----

  predicate AllU16(ns: seq<nat>) {
    forall i :: 0 <= i < |ns| ==> ns[i] < 0x1_0000
  }

  function U16s(ns: seq<nat>): (b: Bytes)
    requires AllU16(ns)
    ensures |b| == 2 * |ns|
  {
    if ns == [] then [] else U16(ns[0]) + U16s(ns[1..])
  }

  function EncodeNames(names: seq<Bytes>): (b: Bytes)
    requires forall i :: 0 <= i < |names| ==> |names[i]| <= 255
    ensures |b| == NamesLen(names)
  {
    if names == [] then [] else Vec8(names[0]) + EncodeNames(names[1..])
  }

  datatype KeyShare = KeyShare(group: nat, key: Bytes) {
    predicate Valid() {
      group < 0x1_0000 && |key| < 0x1_0000
    }
  }

  predicate AllShares(shares: seq<KeyShare>) {
    forall i :: 0 <= i < |shares| ==> shares[i].Valid()
  }

  function EncodeShares(shares: seq<KeyShare>): (b: Bytes)
    requires AllShares(shares)
  {
    if shares == [] then []
    else
      assert shares[0].Valid();
      U16(shares[0].group) + Vec16(shares[0].key) + EncodeShares(shares[1..])
  }

  function Suites(f: Features, suites: SuiteList): (ns: seq<nat>)
    ensures AllU16(ns)
  {
    (if f.chacha && !suites.AesOnly? then [CIPHER_CHACHA20_POLY1305_SHA256] else [])
    + (if f.aes && !suites.ChaChaOnly? then [CIPHER_AES_128_GCM_SHA256] else [])
  }

  function Groups(f: Features): (ns: seq<nat>)
    ensures AllU16(ns)
  {
    [f.PrimaryGroup()] + (if f.SecondGroup() then [GROUP_SECP256R1] else [])
  }

  function Schemes(f: Features): (ns: seq<nat>)
    ensures AllU16(ns)
  {
    [SIG_ED25519]
    + (if f.ecdsa then [SIG_ECDSA_P256, SIG_ECDSA_P384] else [])
    + (if f.rsa then [SIG_RSA_PSS] else [])
    + (if f.mldsa then [SIG_MLDSA44, SIG_MLDSA65, SIG_MLDSA87] else [])
  }

  function Shares(f: Features, pub: Bytes, o: Options): (shares: seq<KeyShare>)
    requires KeysPresent(f, o)
  {
    [KeyShare(f.PrimaryGroup(), if f.mlkem then o.mlkemEk.value + pub else pub)]
    + (if f.SecondGroup() then [KeyShare(GROUP_SECP256R1, o.p256Pub.value)] else [])
  }

  /** A call the writer accepts: options of their types, a key of the primary group's length. */
  predicate Writable(f: Features, pub: Bytes, o: Options) {
    f.Valid() && o.Typed(f) && |pub| == PrimaryPubLen(f) && OptionsError(f, o).None? && KeysPresent(f, o)
  }

  function VersionsExt(): (e: Ext)
    ensures e.Valid()
  {
    Ext(EXT_SUPPORTED_VERSIONS, Vec8(U16(TLS_1_3)))
  }

  function GroupsExt(f: Features): (e: Ext)
    ensures e.Valid()
  {
    Ext(EXT_SUPPORTED_GROUPS, Vec16(U16s(Groups(f))))
  }

  function SchemesExt(f: Features): (e: Ext)
    ensures e.Valid()
  {
    Ext(EXT_SIGNATURE_ALGORITHMS, Vec16(U16s(Schemes(f))))
  }

  function SniExt(host: Bytes): (e: Ext)
    requires |host| < 0xFFF0
    ensures e.Valid()
  {
    Ext(EXT_SERVER_NAME, Vec16([0] + Vec16(host)))
  }

  function LimitExt(n: nat): (e: Ext)
    requires n < 0x1_0000
    ensures e.Valid()
  {
    Ext(EXT_RECORD_SIZE_LIMIT, U16(n))
  }

  function AlpnExt(names: seq<Bytes>): (e: Ext)
    requires NamesLegal(names) && NamesLen(names) < 0xFFF0
    ensures e.Valid()
  {
    Ext(EXT_ALPN, Vec16(EncodeNames(names)))
  }

  function SharesExt(shares: seq<KeyShare>): (e: Ext)
    requires AllShares(shares) && |EncodeShares(shares)| < 0xFFF0
    ensures e.Valid()
  {
    Ext(EXT_KEY_SHARE, Vec16(EncodeShares(shares)))
  }

  lemma SharesFit(f: Features, pub: Bytes, o: Options)
    requires Writable(f, pub, o)
    ensures AllShares(Shares(f, pub, o))
    ensures |EncodeShares(Shares(f, pub, o))| == KeyShareListLen(f)
  {
    var s := Shares(f, pub, o);
    assert |s[0].key| == PrimaryKeyLen(f);
    assert AllShares(s);
    if f.SecondGroup() {
      assert s[1..] == [s[1]] && s[1..][1..] == [];
      assert EncodeShares(s[1..]) == U16(s[1].group) + Vec16(s[1].key) + [];
    } else {
      assert s[1..] == [];
    }
  }

  /** The optional extensions, in writing order. */
  function OptionalExts(f: Features, pub: Bytes, o: Options): (es: seq<Ext>)
    requires Writable(f, pub, o)
    ensures AllValid(es)
  {
    (match o.hostname case None => [] case Some(h) => [SniExt(h)])
    + (match o.recordSizeLimit case None => [] case Some(n) => [LimitExt(n)])
    + (match o.alpn case None => [] case Some(names) => [AlpnExt(names)])
  }

  function HelloExts(f: Features, pub: Bytes, o: Options): (es: seq<Ext>)
    requires Writable(f, pub, o)
    ensures AllValid(es)
  {
    SharesFit(f, pub, o);
    [VersionsExt(), GroupsExt(f), SchemesExt(f)] + OptionalExts(f, pub, o) + [SharesExt(Shares(f, pub, o))]
  }

  // ---- Length ----

  lemma {:induction false} EncodeExtsAppend(a: seq<Ext>, b: seq<Ext>)
    requires AllValid(a) && AllValid(b)
    ensures AllValid(a + b) && EncodeExts(a + b) == EncodeExts(a) + EncodeExts(b)
    decreases |a|
  {
    hide EncodeExt;
    if a == [] {
      assert [] + b == b;
    } else {
      EncodeExtsAppend(a[1..], b);
      assert (a + b)[1..] == a[1..] + b;
    }
  }

  lemma EncodeExtsOne(e: Ext)
    requires e.Valid()
    ensures AllValid([e]) && EncodeExts([e]) == EncodeExt(e)
  {
    assert [e][1..] == [] && EncodeExt(e) + [] == EncodeExt(e);
  }

  /** The optional part, piece by piece. */
  function SniPart(o: Options): (b: Bytes)
    requires o.hostname.Some? ==> |o.hostname.value| < 0xFFF0
  {
    match o.hostname case None => [] case Some(h) => EncodeExt(SniExt(h))
  }

  function LimitPart(o: Options): (b: Bytes)
    requires o.recordSizeLimit.Some? ==> o.recordSizeLimit.value < 0x1_0000
  {
    match o.recordSizeLimit case None => [] case Some(n) => EncodeExt(LimitExt(n))
  }

  function AlpnPart(o: Options): (b: Bytes)
    requires o.alpn.Some? ==> NamesLegal(o.alpn.value) && NamesLen(o.alpn.value) < 0xFFF0
  {
    match o.alpn case None => [] case Some(names) => EncodeExt(AlpnExt(names))
  }

  function FixedPart(f: Features): (b: Bytes) {
    EncodeExt(VersionsExt()) + EncodeExt(GroupsExt(f)) + EncodeExt(SchemesExt(f))
  }

  function SharesPart(f: Features, pub: Bytes, o: Options): (b: Bytes)
    requires Writable(f, pub, o)
  {
    SharesFit(f, pub, o);
    EncodeExt(SharesExt(Shares(f, pub, o)))
  }

  lemma FixedEncodes(f: Features)
    ensures EncodeExts([VersionsExt(), GroupsExt(f), SchemesExt(f)]) == FixedPart(f)
  {
    hide VersionsExt, GroupsExt, SchemesExt, EncodeExt;
    var v, g, s := VersionsExt(), GroupsExt(f), SchemesExt(f);
    EncodeExtsOne(v);
    EncodeExtsOne(g);
    EncodeExtsOne(s);
    EncodeExtsAppend([v], [g]);
    EncodeExtsAppend([v] + [g], [s]);
    assert [v, g, s] == [v] + [g] + [s];
  }

  lemma OptionalEncodes(f: Features, pub: Bytes, o: Options)
    requires Writable(f, pub, o)
    ensures EncodeExts(OptionalExts(f, pub, o)) == SniPart(o) + LimitPart(o) + AlpnPart(o)
  {
    hide EncodeExt, SniExt, LimitExt, AlpnExt, NamesLegal, FixedExtensionsTotal;
    var a: seq<Ext> := match o.hostname case None => [] case Some(h) => [SniExt(h)];
    var b: seq<Ext> := match o.recordSizeLimit case None => [] case Some(n) => [LimitExt(n)];
    var c: seq<Ext> := match o.alpn case None => [] case Some(names) => [AlpnExt(names)];
    if o.hostname.Some? {
      EncodeExtsOne(SniExt(o.hostname.value));
    }
    if o.recordSizeLimit.Some? {
      EncodeExtsOne(LimitExt(o.recordSizeLimit.value));
    }
    if o.alpn.Some? {
      EncodeExtsOne(AlpnExt(o.alpn.value));
    }
    EncodeExtsAppend(a, b);
    EncodeExtsAppend(a + b, c);
  }

  lemma HelloExtsEncode(f: Features, pub: Bytes, o: Options)
    requires Writable(f, pub, o)
    ensures EncodeExts(HelloExts(f, pub, o))
         == FixedPart(f) + (SniPart(o) + LimitPart(o) + AlpnPart(o)) + SharesPart(f, pub, o)
  {
    hide EncodeExt, FixedPart, SniPart, LimitPart, AlpnPart, OptionalExts, Shares, SharesExt;
    SharesFit(f, pub, o);
    var fixed := [VersionsExt(), GroupsExt(f), SchemesExt(f)];
    var optional := OptionalExts(f, pub, o);
    var shares := SharesExt(Shares(f, pub, o));
    FixedEncodes(f);
    OptionalEncodes(f, pub, o);
    EncodeExtsOne(shares);
    EncodeExtsAppend(fixed, optional);
    EncodeExtsAppend(fixed + optional, [shares]);
  }

  lemma FixedLength(f: Features)
    requires f.Valid()
    ensures |FixedPart(f)| == 4 + 3 + (4 + 2 + 2 * GroupCount(f)) + (4 + 2 + 2 * SchemeCount(f))
    ensures |EncodeExt(VersionsExt())| == 7
    ensures |EncodeExt(GroupsExt(f))| == 4 + 2 + 2 * GroupCount(f)
    ensures |EncodeExt(SchemesExt(f))| == 4 + 2 + 2 * SchemeCount(f)
    ensures |Groups(f)| == GroupCount(f) && |Schemes(f)| == SchemeCount(f)
  {
  }

  /** The precomputed total is the length of the extension block. */
  lemma ExtensionsLength(f: Features, pub: Bytes, o: Options)
    requires Writable(f, pub, o)
    ensures |EncodeExts(HelloExts(f, pub, o))| == ExtensionsTotal(f, o) <= TLS_PLAINTEXT_MAX
  {
    HelloExtsEncode(f, pub, o);
    hide FixedPart, Shares, Schemes, Groups, HelloExts, EncodeExts, EncodeShares;
    FixedLength(f);
    SharesFit(f, pub, o);
  }

  // ---- The record ----

  function Hello(random: Bytes, sid: Bytes, suites: Bytes, exts: Bytes): (body: Bytes)
    requires |random| == 32 && |sid| < 256 && |suites| < 0x1_0000 && |exts| < 0x1_0000
    ensures |body| == 2 + 32 + 1 + |sid| + 2 + |suites| + 2 + 2 + |exts|
  {
    U16(LEGACY_VERSION) + (random + (Vec8(sid) + (Vec16(suites) + (Vec8([0]) + Vec16(exts)))))
  }

  function SessionId(o: Options): (sid: Bytes) {
    match o.sessionId case None => [] case Some(id) => id
  }

  function HelloBody(f: Features, random: Bytes, pub: Bytes, o: Options): (body: Bytes)
    requires |random| == 32 && Writable(f, pub, o)
    ensures |body| == BodyLen(f, o) <= TLS_PLAINTEXT_MAX - 4
  {
    ExtensionsLength(f, pub, o);
    Hello(random, SessionId(o), U16s(Suites(f, o.suites)), EncodeExts(HelloExts(f, pub, o)))
  }

  function Serialize(f: Features, random: Bytes, pub: Bytes, o: Options): (record: Bytes)
    requires |random| == 32 && Writable(f, pub, o)
    ensures |record| == ClientHelloLen(f, o)
  {
    [CT_HANDSHAKE] + U16(LEGACY_VERSION) + Vec16(Msg(HS_CLIENT_HELLO, HelloBody(f, random, pub, o)).Full())
  }

  // ---- A decoder that follows the length prefixes ----

  datatype Fields = Fields(random: Bytes, sessionId: Bytes, suites: seq<nat>, groups: seq<nat>, schemes: seq<nat>,
                           sni: Option<Bytes>, recordSizeLimit: Option<nat>, alpn: Option<seq<Bytes>>,
                           shares: seq<KeyShare>, order: seq<nat>)

  /** A value that must use up its input. */
  function Whole<T>(o: Option<(T, Bytes)>): (r: Option<T>) {
    match o
    case None => None
    case Some((x, rest)) => if rest == [] then Some(x) else None
  }

  function DecodeU16s(b: Bytes): (r: Option<seq<nat>>)
    decreases |b|
  {
    if b == [] then Some([])
    else
      var (n, rest) :- TakeU16(b);
      assert |rest| < |b|;
      var ns :- DecodeU16s(rest);
      Some([n] + ns)
  }

  function DecodeNames(b: Bytes): (r: Option<seq<Bytes>>)
    decreases |b|
  {
    if b == [] then Some([])
    else
      var (name, rest) :- TakeVec8(b);
      var names :- DecodeNames(rest);
      Some([name] + names)
  }

  function DecodeShares(b: Bytes): (r: Option<seq<KeyShare>>)
    decreases |b|
  {
    if b == [] then Some([])
    else
      var (group, more) :- TakeU16(b);
      assert |more| < |b|;
      var (key, rest) :- TakeVec16(more);
      var shares :- DecodeShares(rest);
      Some([KeyShare(group, key)] + shares)
  }

  function DecodeExts(b: Bytes): (r: Option<seq<Ext>>)
    decreases |b|
  {
    if b == [] then Some([])
    else
      var (e, rest) :- NextExt(b);
      var es :- DecodeExts(rest);
      Some([e] + es)
  }

  function FindExt(es: seq<Ext>, typ: nat): (r: Option<Bytes>) {
    if es == [] then None else if es[0].typ == typ then Some(es[0].data) else FindExt(es[1..], typ)
  }

  function DecodeSni(data: Bytes): (r: Option<Bytes>) {
    var list :- Whole(TakeVec16(data));
    var (kind, more) :- TakeU8(list);
    if kind != 0 then None else Whole(TakeVec16(more))
  }

  function DecodeU16List(data: Bytes): (r: Option<seq<nat>>) {
    var list :- Whole(TakeVec16(data));
    DecodeU16s(list)
  }

  function DecodeAlpn(data: Bytes): (r: Option<seq<Bytes>>) {
    var list :- Whole(TakeVec16(data));
    DecodeNames(list)
  }

  function DecodeKeyShares(data: Bytes): (r: Option<seq<KeyShare>>) {
    var list :- Whole(TakeVec16(data));
    DecodeShares(list)
  }

  /** The extension types in the order they stand in. */
  function Types(es: seq<Ext>): (ts: seq<nat>)
    ensures |ts| == |es|
  {
    seq(|es|, i requires 0 <= i < |es| => es[i].typ)
  }

  /** An extension that may be missing, but not malformed. */
  function Maybe<T>(data: Option<Bytes>, decode: Bytes -> Option<T>): (r: Option<Option<T>>) {
    match data
    case None => Some(None)
    case Some(d) =>
      var x :- decode(d);
      Some(Some(x))
  }

  function DecodeFields(random: Bytes, sid: Bytes, suites: seq<nat>, es: seq<Ext>): (r: Option<Fields>) {
    var groupsData :- FindExt(es, 10);
    var groups :- DecodeU16List(groupsData);
    var schemesData :- FindExt(es, 13);
    var schemes :- DecodeU16List(schemesData);
    var sni :- Maybe(FindExt(es, 0), DecodeSni);
    var limit :- Maybe(FindExt(es, 28), d => Whole(TakeU16(d)));
    var alpn :- Maybe(FindExt(es, 16), DecodeAlpn);
    var sharesData :- FindExt(es, 51);
    var shares :- DecodeKeyShares(sharesData);
    if FindExt(es, 43) != Some([2, 3, 4]) then None
    else Some(Fields(random, sid, suites, groups, schemes, sni, limit, alpn, shares, Types(es)))
  }

  function DecodeHello(body: Bytes): (r: Option<(Bytes, Bytes, Bytes, Bytes)>) {
    var (version, b1) :- TakeU16(body);
    var (random, b2) :- Take(b1, 32);
    var (sid, b3) :- TakeVec8(b2);
    var (suites, b4) :- TakeVec16(b3);
    var (compression, b5) :- TakeVec8(b4);
    var exts :- Whole(TakeVec16(b5));
    if version != 0x0303 || compression != [0] then None else Some((random, sid, suites, exts))
  }

  function DecodeRecord(record: Bytes): (r: Option<Bytes>) {
    var (ct, b1) :- TakeU8(record);
    var (version, b2) :- TakeU16(b1);
    var msg :- Whole(TakeVec16(b2));
    var m :- Whole(NextMsg(msg));
    if ct != 22 || version != 0x0303 || m.typ != 1 then None else Some(m.body)
  }

  function Decode(record: Bytes): (r: Option<Fields>) {
    var body :- DecodeRecord(record);
    var (random, sid, suiteBytes, extBytes) :- DecodeHello(body);
    var suites :- DecodeU16s(suiteBytes);
    var es :- DecodeExts(extBytes);
    DecodeFields(random, sid, suites, es)
  }

  // ---- Round trip ----

  lemma {:induction false} U16sRead(ns: seq<nat>)
    requires AllU16(ns)
    ensures DecodeU16s(U16s(ns)) == Some(ns)
    decreases |ns|
  {
    if ns != [] {
      U16Reads(ns[0], U16s(ns[1..]));
      U16sRead(ns[1..]);
      assert [ns[0]] + ns[1..] == ns;
    }
  }

  lemma {:induction false} NamesRead(names: seq<Bytes>)
    requires forall i :: 0 <= i < |names| ==> |names[i]| <= 255
    ensures DecodeNames(EncodeNames(names)) == Some(names)
    decreases |names|
  {
    hide Vec8, TakeVec8;
    if names != [] {
      Vec8Reads(names[0], EncodeNames(names[1..]));
      NamesRead(names[1..]);
      assert [names[0]] + names[1..] == names;
    }
  }

  lemma {:induction false} SharesRead(shares: seq<KeyShare>)
    requires AllShares(shares)
    ensures DecodeShares(EncodeShares(shares)) == Some(shares)
    decreases |shares|
  {
    hide Vec16, TakeVec16, TakeU16;
    if shares != [] {
      var s, rest := shares[0], EncodeShares(shares[1..]);
      assert s.Valid();
      assert EncodeShares(shares) == U16(s.group) + (Vec16(s.key) + rest);
      U16Reads(s.group, Vec16(s.key) + rest);
      Vec16Reads(s.key, rest);
      SharesRead(shares[1..]);
      assert [s] + shares[1..] == shares;
    }
  }

  lemma {:induction false} ExtsRead(es: seq<Ext>)
    requires AllValid(es)
    ensures DecodeExts(EncodeExts(es)) == Some(es)
    decreases |es|
  {
    hide EncodeExt, NextExt;
    if es != [] {
      ExtReads(es[0], EncodeExts(es[1..]));
      ExtsRead(es[1..]);
      assert [es[0]] + es[1..] == es;
    }
  }

  lemma Vec16Whole(v: Bytes)
    requires |v| < 0x1_0000
    ensures Whole(TakeVec16(Vec16(v))) == Some(v)
  {
    Vec16Reads(v, []);
    assert Vec16(v) + [] == Vec16(v);
  }

  lemma SniReads(host: Bytes)
    requires |host| < 0xFFF0
    ensures DecodeSni(SniExt(host).data) == Some(host)
  {
    hide Whole, TakeVec16, Vec16;
    Vec16Whole([0] + Vec16(host));
    assert ([0] + Vec16(host))[1..] == Vec16(host);
    Vec16Whole(host);
  }

  lemma {:induction false} FindAppend(a: seq<Ext>, b: seq<Ext>, typ: nat)
    ensures FindExt(a + b, typ) == if FindExt(a, typ).Some? then FindExt(a, typ) else FindExt(b, typ)
    decreases |a|
  {
    if a == [] {
      assert [] + b == b;
    } else {
      FindAppend(a[1..], b, typ);
      assert (a + b)[1..] == a[1..] + b;
    }
  }

  lemma FindOne(e: Ext, typ: nat)
    ensures FindExt([e], typ) == if e.typ == typ then Some(e.data) else None
  {
  }

  /** Each extension is found where it is, the optional ones exactly when they were asked for. */
  lemma HelloExtsFind(f: Features, pub: Bytes, o: Options, typ: nat)
    requires Writable(f, pub, o)
    ensures FindExt(HelloExts(f, pub, o), typ)
         == (SharesFit(f, pub, o);
             if typ == EXT_SUPPORTED_VERSIONS then Some(VersionsExt().data)
             else if typ == EXT_SUPPORTED_GROUPS then Some(GroupsExt(f).data)
             else if typ == EXT_SIGNATURE_ALGORITHMS then Some(SchemesExt(f).data)
             else if typ == EXT_SERVER_NAME && o.hostname.Some? then Some(SniExt(o.hostname.value).data)
             else if typ == EXT_RECORD_SIZE_LIMIT && o.recordSizeLimit.Some? then Some(LimitExt(o.recordSizeLimit.value).data)
             else if typ == EXT_ALPN && o.alpn.Some? then Some(AlpnExt(o.alpn.value).data)
             else if typ == EXT_KEY_SHARE then Some(SharesExt(Shares(f, pub, o)).data)
             else None)
  {
    hide FindExt, Shares, EncodeShares, OptionalExts, SniExt, LimitExt, AlpnExt, VersionsExt, GroupsExt, SchemesExt,
         NamesLegal, FixedExtensionsTotal;
    SharesFit(f, pub, o);
    var fixed := [VersionsExt(), GroupsExt(f), SchemesExt(f)];
    var last := SharesExt(Shares(f, pub, o));
    FindFixed(f, typ);
    FindOptional(f, pub, o, typ);
    FindOne(last, typ);
    FindAppend(fixed, OptionalExts(f, pub, o), typ);
    FindAppend(fixed + OptionalExts(f, pub, o), [last], typ);
  }

  lemma FindFixed(f: Features, typ: nat)
    ensures FindExt([VersionsExt(), GroupsExt(f), SchemesExt(f)], typ)
         == if typ == EXT_SUPPORTED_VERSIONS then Some(VersionsExt().data)
            else if typ == EXT_SUPPORTED_GROUPS then Some(GroupsExt(f).data)
            else if typ == EXT_SIGNATURE_ALGORITHMS then Some(SchemesExt(f).data)
            else None
  {
    hide FindExt, U16s, Groups, Schemes, Vec8, Vec16;
    var v, g, s := VersionsExt(), GroupsExt(f), SchemesExt(f);
    FindOne(v, typ);
    FindOne(g, typ);
    FindOne(s, typ);
    FindAppend([v], [g], typ);
    FindAppend([v] + [g], [s], typ);
    assert [v, g, s] == [v] + [g] + [s];
  }

  lemma FindOptional(f: Features, pub: Bytes, o: Options, typ: nat)
    requires Writable(f, pub, o)
    ensures FindExt(OptionalExts(f, pub, o), typ)
         == if typ == EXT_SERVER_NAME && o.hostname.Some? then Some(SniExt(o.hostname.value).data)
            else if typ == EXT_RECORD_SIZE_LIMIT && o.recordSizeLimit.Some? then Some(LimitExt(o.recordSizeLimit.value).data)
            else if typ == EXT_ALPN && o.alpn.Some? then Some(AlpnExt(o.alpn.value).data)
            else None
  {
    var a: seq<Ext> := match o.hostname case None => [] case Some(h) => [SniExt(h)];
    var b: seq<Ext> := match o.recordSizeLimit case None => [] case Some(n) => [LimitExt(n)];
    var c: seq<Ext> := match o.alpn case None => [] case Some(names) => [AlpnExt(names)];
    FindNone(typ);
    hide FindExt, EncodeNames, NamesLegal, FixedExtensionsTotal, Vec16, U16;
    if o.hostname.Some? {
      FindOne(SniExt(o.hostname.value), typ);
    }
    if o.recordSizeLimit.Some? {
      FindOne(LimitExt(o.recordSizeLimit.value), typ);
    }
    if o.alpn.Some? {
      FindOne(AlpnExt(o.alpn.value), typ);
    }
    FindAppend(a, b, typ);
    FindAppend(a + b, c, typ);
  }

  lemma FindNone(typ: nat)
    ensures FindExt([], typ) == None
  {
  }

  lemma HelloReads(random: Bytes, sid: Bytes, suites: Bytes, exts: Bytes)
    requires |random| == 32 && |sid| < 256 && |suites| < 0x1_0000 && |exts| < 0x1_0000
    ensures DecodeHello(Hello(random, sid, suites, exts)) == Some((random, sid, suites, exts))
  {
    hide U16, Vec8, Vec16, TakeU16, TakeVec8, TakeVec16, Whole;
    var b5 := Vec16(exts);
    var b4 := Vec8([0]) + b5;
    var b3 := Vec16(suites) + b4;
    var b2 := Vec8(sid) + b3;
    U16Reads(LEGACY_VERSION, random + b2);
    TakeConcat(random, b2);
    Vec8Reads(sid, b3);
    Vec16Reads(suites, b4);
    Vec8Reads([0], b5);
    Vec16Whole(exts);
  }

  lemma RecordReads(body: Bytes)
    requires |body| <= TLS_PLAINTEXT_MAX
    ensures DecodeRecord([CT_HANDSHAKE] + U16(LEGACY_VERSION) + Vec16(Msg(HS_CLIENT_HELLO, body).Full())) == Some(body)
  {
    hide U16, Vec16, Vec24, TakeU16, TakeVec16, NextMsg;
    var m := Msg(HS_CLIENT_HELLO, body);
    var record := [CT_HANDSHAKE] + U16(LEGACY_VERSION) + Vec16(m.Full());
    assert record == [CT_HANDSHAKE] + (U16(LEGACY_VERSION) + Vec16(m.Full()));
    assert record[1..] == U16(LEGACY_VERSION) + Vec16(m.Full());
    U16Reads(LEGACY_VERSION, Vec16(m.Full()));
    Vec16Whole(m.Full());
    MsgReads(m, []);
    assert m.Full() + [] == m.Full();
  }

  lemma FieldsRead(f: Features, random: Bytes, pub: Bytes, o: Options)
    requires Writable(f, pub, o)
    ensures DecodeFields(random, SessionId(o), Suites(f, o.suites), HelloExts(f, pub, o))
         == Some(Fields(random, SessionId(o), Suites(f, o.suites), Groups(f), Schemes(f),
                        o.hostname, o.recordSizeLimit, o.alpn, Shares(f, pub, o), Order(o)))
  {
    hide FindExt, HelloExts, Groups, Schemes, Shares, EncodeShares, DecodeFields, Suites, OptionsError, Order, Types,
         DecodeU16List, DecodeKeyShares, Maybe;
    OrderOf(f, pub, o);
    FixedFound(f, pub, o);
    OptionalFound(f, pub, o);
    DecodeFound(random, SessionId(o), Suites(f, o.suites), HelloExts(f, pub, o), Groups(f), Schemes(f), o.hostname,
                o.recordSizeLimit, o.alpn, Shares(f, pub, o));
  }

  /** The mandatory extensions are there and read back. */
  predicate Mandatory(es: seq<Ext>, groups: seq<nat>, schemes: seq<nat>, shares: seq<KeyShare>) {
    && FindExt(es, 43) == Some([2, 3, 4])
    && FindExt(es, 10).Some? && DecodeU16List(FindExt(es, 10).value) == Some(groups)
    && FindExt(es, 13).Some? && DecodeU16List(FindExt(es, 13).value) == Some(schemes)
    && FindExt(es, 51).Some? && DecodeKeyShares(FindExt(es, 51).value) == Some(shares)
  }

  lemma DecodeFound(random: Bytes, sid: Bytes, suites: seq<nat>, es: seq<Ext>, groups: seq<nat>, schemes: seq<nat>,
                    sni: Option<Bytes>, limit: Option<nat>, alpn: Option<seq<Bytes>>, shares: seq<KeyShare>)
    requires Mandatory(es, groups, schemes, shares)
    requires Maybe(FindExt(es, 0), DecodeSni) == Some(sni)
    requires Maybe(FindExt(es, 28), d => Whole(TakeU16(d))) == Some(limit)
    requires Maybe(FindExt(es, 16), DecodeAlpn) == Some(alpn)
    ensures DecodeFields(random, sid, suites, es)
         == Some(Fields(random, sid, suites, groups, schemes, sni, limit, alpn, shares, Types(es)))
  {
    hide FindExt, DecodeU16List, DecodeKeyShares, Types;
  }

  lemma FixedFound(f: Features, pub: Bytes, o: Options)
    requires Writable(f, pub, o)
    ensures Mandatory(HelloExts(f, pub, o), Groups(f), Schemes(f), Shares(f, pub, o))
  {
    SharesFit(f, pub, o);
    VersionsRead();
    hide FindExt, HelloExts, Groups, Schemes, Shares, EncodeShares, DecodeU16List, DecodeKeyShares, OptionsError, GroupsExt,
         SchemesExt, SharesExt, VersionsExt;
    HelloExtsFind(f, pub, o, EXT_SUPPORTED_VERSIONS);
    HelloExtsFind(f, pub, o, EXT_SUPPORTED_GROUPS);
    HelloExtsFind(f, pub, o, EXT_SIGNATURE_ALGORITHMS);
    HelloExtsFind(f, pub, o, EXT_KEY_SHARE);
    FixedRead(f);
    KeySharesRead(Shares(f, pub, o));
  }

  lemma OptionalFound(f: Features, pub: Bytes, o: Options)
    requires Writable(f, pub, o)
    ensures Maybe(FindExt(HelloExts(f, pub, o), 0), DecodeSni) == Some(o.hostname)
    ensures Maybe(FindExt(HelloExts(f, pub, o), 28), d => Whole(TakeU16(d))) == Some(o.recordSizeLimit)
    ensures Maybe(FindExt(HelloExts(f, pub, o), 16), DecodeAlpn) == Some(o.alpn)
  {
    hide FindExt, HelloExts, Groups, Schemes, Shares, EncodeShares, Whole, DecodeSni, DecodeAlpn, OptionsError, SniExt, LimitExt,
         AlpnExt, SharesExt, GroupsExt, SchemesExt, VersionsExt;
    HelloExtsFind(f, pub, o, EXT_SERVER_NAME);
    HelloExtsFind(f, pub, o, EXT_RECORD_SIZE_LIMIT);
    HelloExtsFind(f, pub, o, EXT_ALPN);
    OptionalRead(f, pub, o);
  }

  /** supported_versions, supported_groups, signature_algorithms, what was asked for, key_share. */
  function Order(o: Options): (ts: seq<nat>) {
    [43, 10, 13] + (if o.hostname.Some? then [0] else []) + (if o.recordSizeLimit.Some? then [28] else [])
    + (if o.alpn.Some? then [16] else []) + [51]
  }

  lemma OrderOf(f: Features, pub: Bytes, o: Options)
    requires Writable(f, pub, o)
    ensures Types(HelloExts(f, pub, o)) == Order(o)
  {
    hide OptionsError, Shares, EncodeShares, Vec16, U16s, EncodeNames;
  }

  lemma VersionsRead()
    ensures VersionsExt().data == [2, 3, 4]
  {
  }

  lemma FixedRead(f: Features)
    ensures DecodeU16List(GroupsExt(f).data) == Some(Groups(f))
    ensures DecodeU16List(SchemesExt(f).data) == Some(Schemes(f))
  {
    hide Whole, TakeVec16, Vec16, DecodeU16s, U16s;
    Vec16Whole(U16s(Groups(f)));
    U16sRead(Groups(f));
    Vec16Whole(U16s(Schemes(f)));
    U16sRead(Schemes(f));
  }

  lemma OptionalRead(f: Features, pub: Bytes, o: Options)
    requires Writable(f, pub, o)
    ensures o.hostname.Some? ==> DecodeSni(SniExt(o.hostname.value).data) == o.hostname
    ensures o.recordSizeLimit.Some? ==> Whole(TakeU16(LimitExt(o.recordSizeLimit.value).data)) == o.recordSizeLimit
    ensures o.alpn.Some? ==> DecodeAlpn(AlpnExt(o.alpn.value).data) == o.alpn
  {
    hide Whole, TakeVec16, Vec16, TakeU16, DecodeNames, EncodeNames, U16, DecodeSni, FixedExtensionsTotal;
    if o.hostname.Some? {
      SniReads(o.hostname.value);
    }
    if o.recordSizeLimit.Some? {
      LimitReads(o.recordSizeLimit.value);
    }
    if o.alpn.Some? {
      Vec16Whole(EncodeNames(o.alpn.value));
      NamesRead(o.alpn.value);
    }
  }

  lemma KeySharesRead(shares: seq<KeyShare>)
    requires AllShares(shares) && |EncodeShares(shares)| < 0xFFF0
    ensures DecodeKeyShares(SharesExt(shares).data) == Some(shares)
  {
    hide Whole, TakeVec16, Vec16, DecodeShares, EncodeShares;
    Vec16Whole(EncodeShares(shares));
    SharesRead(shares);
  }

  lemma LimitReads(n: nat)
    requires n < 0x1_0000
    ensures Whole(TakeU16(U16(n))) == Some(n)
  {
    U16Reads(n, []);
    assert U16(n) + [] == U16(n);
  }

  // ---- What a build offers, by code point ----

  /** The code points of a menu that are to be offered, in its order. */
  function Chosen(menu: seq<(nat, bool)>): (ns: seq<nat>) {
    if menu == [] then [] else (if menu[0].1 then [menu[0].0] else []) + Chosen(menu[1..])
  }

  lemma {:induction false} ChosenAppend(a: seq<(nat, bool)>, b: seq<(nat, bool)>)
    ensures Chosen(a + b) == Chosen(a) + Chosen(b)
    decreases |a|
  {
    hide Chosen;
    if a == [] {
      assert a + b == b;
      assert Chosen(a) == [] by { ChosenNone(); }
    } else {
      var first: seq<nat> := if a[0].1 then [a[0].0] else [];
      ChosenAppend(a[1..], b);
      assert (a + b)[1..] == a[1..] + b;
      ChosenCons(a);
      ChosenCons(a + b);
      assert first + (Chosen(a[1..]) + Chosen(b)) == first + Chosen(a[1..]) + Chosen(b);
    }
  }

  lemma ChosenNone()
    ensures Chosen([]) == []
  {
  }

  lemma ChosenCons(menu: seq<(nat, bool)>)
    requires menu != []
    ensures Chosen(menu) == (if menu[0].1 then [menu[0].0] else []) + Chosen(menu[1..])
  {
  }

  lemma ChosenOne(n: nat, b: bool)
    ensures Chosen([(n, b)]) == if b then [n] else []
  {
  }

  /** ChaCha20-Poly1305 before AES-128-GCM, each when built in and not excluded. */
  function SuiteMenu(f: Features, suites: SuiteList): (menu: seq<(nat, bool)>) {
    [(0x1303, f.chacha && !suites.AesOnly?)] + [(0x1301, f.aes && !suites.ChaChaOnly?)]
  }

  /** X25519MLKEM768 in place of X25519 when built in; secp256r1 beside either or alone. */
  function GroupMenu(f: Features): (menu: seq<(nat, bool)>) {
    [(0x11EC, f.mlkem)] + [(0x001D, f.x25519 && !f.mlkem)] + [(0x0017, f.p256)]
  }

  /** Ed25519 always; ECDSA, RSA-PSS and ML-DSA when built in. */
  function SchemeMenu(f: Features): (menu: seq<(nat, bool)>) {
    [(0x0807, true)] + [(0x0403, f.ecdsa)] + [(0x0503, f.ecdsa)] + [(0x0804, f.rsa)]
    + [(0x0904, f.mldsa)] + [(0x0905, f.mldsa)] + [(0x0906, f.mldsa)]
  }

  /** The key sent for a group: the encapsulation key and the X25519 key, the X25519 key, or the P-256 point, which
      is the primary key of a build without X25519. */
  function ShareKey(f: Features, pub: Bytes, o: Options, group: nat): (key: Option<Bytes>) {
    if group == 0x11EC then if o.mlkemEk.Some? then Some(o.mlkemEk.value + pub) else None
    else if group == 0x001D then Some(pub)
    else if f.x25519 then o.p256Pub
    else Some(pub)
  }

  /** The lists are the menus' choices, with one share for each group, in order. */
  predicate Offers(f: Features, pub: Bytes, o: Options)
    requires KeysPresent(f, o)
  {
    && Suites(f, o.suites) == Chosen(SuiteMenu(f, o.suites)) && Groups(f) == Chosen(GroupMenu(f))
    && Schemes(f) == Chosen(SchemeMenu(f))
    && |Shares(f, pub, o)| == |Groups(f)|
    && forall i :: 0 <= i < |Groups(f)| ==>
         Shares(f, pub, o)[i].group == Groups(f)[i] && Some(Shares(f, pub, o)[i].key) == ShareKey(f, pub, o, Groups(f)[i])
  }

  lemma ChosenSnoc(menu: seq<(nat, bool)>, n: nat, b: bool)
    ensures Chosen(menu + [(n, b)]) == Chosen(menu) + (if b then [n] else [])
  {
    ChosenAppend(menu, [(n, b)]);
    ChosenOne(n, b);
  }

  lemma SchemesChosen(f: Features)
    ensures Schemes(f) == Chosen(SchemeMenu(f))
  {
    hide Chosen;
    var m1 := [(0x0807, true)];
    var m2 := m1 + [(0x0403, f.ecdsa)];
    var m3 := m2 + [(0x0503, f.ecdsa)];
    var m4 := m3 + [(0x0804, f.rsa)];
    var m5 := m4 + [(0x0904, f.mldsa)];
    var m6 := m5 + [(0x0905, f.mldsa)];
    ChosenOne(0x0807, true);
    ChosenSnoc(m1, 0x0403, f.ecdsa);
    ChosenSnoc(m2, 0x0503, f.ecdsa);
    ChosenSnoc(m3, 0x0804, f.rsa);
    ChosenSnoc(m4, 0x0904, f.mldsa);
    ChosenSnoc(m5, 0x0905, f.mldsa);
    ChosenSnoc(m6, 0x0906, f.mldsa);
  }

  lemma SuitesChosen(f: Features, suites: SuiteList)
    ensures Suites(f, suites) == Chosen(SuiteMenu(f, suites))
  {
    hide Chosen;
    ChosenOne(0x1303, f.chacha && !suites.AesOnly?);
    ChosenSnoc([(0x1303, f.chacha && !suites.AesOnly?)], 0x1301, f.aes && !suites.ChaChaOnly?);
  }

  lemma GroupsChosen(f: Features)
    requires f.Valid()
    ensures Groups(f) == Chosen(GroupMenu(f))
  {
    hide Chosen;
    ChosenOne(0x11EC, f.mlkem);
    ChosenSnoc([(0x11EC, f.mlkem)], 0x001D, f.x25519 && !f.mlkem);
    ChosenSnoc([(0x11EC, f.mlkem)] + [(0x001D, f.x25519 && !f.mlkem)], 0x0017, f.p256);
  }

  lemma OfferedExactly(f: Features, pub: Bytes, o: Options)
    requires f.Valid() && KeysPresent(f, o)
    ensures Offers(f, pub, o)
  {
    SchemesChosen(f);
    SuitesChosen(f, o.suites);
    GroupsChosen(f);
    hide Schemes, SchemeMenu, Suites, SuiteMenu, GroupMenu, Chosen;
  }

  /** The writer's refusals, each by its cause, in order; the last on the length of the whole record. */
  lemma OptionsRefused(f: Features, o: Options)
    ensures OptionsError(f, o)
         == if o.hostname.Some? && |o.hostname.value| >= 65536 then Some(HostnameTooLong)
            else if o.recordSizeLimit.Some? && (o.recordSizeLimit.value < 64 || o.recordSizeLimit.value > 16385)
            then Some(RecordSizeLimitOutOfRange)
            else if o.alpn.Some? && (o.alpn.value == [] || exists i :: 0 <= i < |o.alpn.value|
                                                                       && (o.alpn.value[i] == [] || |o.alpn.value[i]| >= 256))
            then Some(AlpnNameLen)
            else if ClientHelloLen(f, o) > 16389 then Some(MessageTooLong)
            else None
  {
  }

  /**
   * For every build and every accepted option set, following nothing but the length prefixes gives
   * back every field that was put in.
   */
  lemma DecodeUndoesSerialize(f: Features, random: Bytes, pub: Bytes, o: Options)
    requires |random| == 32 && Writable(f, pub, o)
    ensures Decode(Serialize(f, random, pub, o))
         == Some(Fields(random, SessionId(o), Suites(f, o.suites), Groups(f), Schemes(f),
                        o.hostname, o.recordSizeLimit, o.alpn, Shares(f, pub, o), Order(o)))
    ensures Offers(f, pub, o)
  {
    OfferedExactly(f, pub, o);
    hide DecodeRecord, DecodeHello, DecodeFields, DecodeExts, DecodeU16s, Hello, HelloExts, EncodeExts, U16s, Suites,
         Groups, Schemes, Shares, U16, Vec16, Vec24, FixedExtensionsTotal, Offers, Order;
    var body := HelloBody(f, random, pub, o);
    RecordReads(body);
    ExtensionsLength(f, pub, o);
    HelloReads(random, SessionId(o), U16s(Suites(f, o.suites)), EncodeExts(HelloExts(f, pub, o)));
    U16sRead(Suites(f, o.suites));
    ExtsRead(HelloExts(f, pub, o));
    FieldsRead(f, random, pub, o);
  }
}
