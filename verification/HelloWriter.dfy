/** The ClientHello writer, field by field into a bounded sink, with every length computed ahead. */
module HelloWriter {
  import opened Bytes
  import opened Consts
  import opened Wire
  import opened Features
  import opened ClientHello

  /** `&mut [u8]` as a writer: a write that does not fit fills the room and fails. */
  class Sink {
    const capacity: nat
    var buf: Bytes

    ghost predicate Valid()
      reads this
    {
      |buf| <= capacity
    }

    constructor (capacity: nat)
      ensures Valid() && this.capacity == capacity && buf == []
    {
      this.capacity := capacity;
      buf := [];
    }

    method WriteAll(bytes: Bytes) returns (r: Result<(), HelloError>)
      requires Valid()
      modifies this
      ensures Valid()
      ensures r.Ok? <==> |old(buf)| + |bytes| <= capacity
      ensures r.Ok? ==> buf == old(buf) + bytes
      ensures r.Err? ==> r.error == Full
    {
      var room := capacity - |buf|;
      if |bytes| > room {
        buf := buf + bytes[..room];
        return Err(Full);
      }
      buf := buf + bytes;
      return Ok(());
    }

    method WriteU8(n: Byte) returns (r: Result<(), HelloError>)
      requires Valid()
      modifies this
      ensures Valid()
      ensures r.Ok? <==> |old(buf)| + 1 <= capacity
      ensures r.Ok? ==> buf == old(buf) + [n]
      ensures r.Err? ==> r.error == Full
    {
      r := WriteAll([n]);
    }

    method WriteU16(n: nat) returns (r: Result<(), HelloError>)
      requires Valid() && n < 0x1_0000
      modifies this
      ensures Valid()
      ensures r.Ok? <==> |old(buf)| + 2 <= capacity
      ensures r.Ok? ==> buf == old(buf) + U16(n)
      ensures r.Err? ==> r.error == Full
    {
      r := WriteAll(U16(n));
    }

    /** Three bytes, or an overflow that is reported rather than truncated. */
    method WriteU24(n: nat) returns (r: Result<(), HelloError>)
      requires Valid()
      modifies this
      ensures Valid()
      ensures n >= 0x100_0000 ==> r == Err(IntegerOverflow)
      ensures n < 0x100_0000 ==> (r.Ok? <==> |old(buf)| + 3 <= capacity) && (r.Err? ==> r.error == Full)
      ensures n < 0x100_0000 && r.Ok? ==> buf == old(buf) + U24(n)
    {
      if n > 0xFF_FFFF {
        return Err(IntegerOverflow);
      }
      r := WriteAll(U24(n));
    }
  }

  /** An extension whose data is one u16-prefixed list, as the writer lays it out. */
  lemma ListExtFlat(typ: nat, list: Bytes)
    requires typ < 0x1_0000 && |list| < 0xFFF8
    ensures EncodeExt(Ext(typ, Vec16(list))) == U16(typ) + U16(2 + |list|) + U16(|list|) + list
  {
    hide U16;
    assert U16(typ) + (U16(2 + |list|) + (U16(|list|) + list)) == U16(typ) + U16(2 + |list|) + U16(|list|) + list;
  }

  lemma {:induction false} U16sAppend(a: seq<nat>, b: seq<nat>)
    requires AllU16(a) && AllU16(b)
    ensures U16s(a + b) == U16s(a) + U16s(b)
    decreases |a|
  {
    hide U16;
    if a == [] {
      assert [] + b == b;
    } else {
      U16sAppend(a[1..], b);
      assert (a + b)[1..] == a[1..] + b;
    }
  }

  lemma U16sOne(n: nat)
    requires n < 0x1_0000
    ensures U16s([n]) == U16(n)
  {
    assert U16(n) + [] == U16(n);
  }

  method WriteVersions(out: Sink) returns (r: Result<(), HelloError>)
    requires out.Valid()
    modifies out
    ensures out.Valid()
    ensures r.Ok? <==> |old(out.buf)| + 7 <= out.capacity
    ensures r.Ok? ==> out.buf == old(out.buf) + EncodeExt(VersionsExt())
    ensures r.Err? ==> r.error == Full
  {
    var _ :- out.WriteU16(EXT_SUPPORTED_VERSIONS);
    var _ :- out.WriteU16(3);
    var _ :- out.WriteU8(2);
    var _ :- out.WriteU16(TLS_1_3);
    return Ok(());
  }

  lemma GroupsFlat(f: Features)
    ensures U16s(Groups(f)) == U16(f.PrimaryGroup()) + (if f.SecondGroup() then U16(GROUP_SECP256R1) else [])
  {
    hide U16, U16s;
    U16sOne(f.PrimaryGroup());
    if f.SecondGroup() {
      U16sOne(GROUP_SECP256R1);
      U16sAppend([f.PrimaryGroup()], [GROUP_SECP256R1]);
    } else {
      assert Groups(f) == [f.PrimaryGroup()];
    }
  }

  method WriteGroups(f: Features, out: Sink) returns (r: Result<(), HelloError>)
    requires f.Valid() && out.Valid()
    modifies out
    ensures out.Valid()
    ensures r.Ok? <==> |old(out.buf)| + 4 + 2 + 2 * GroupCount(f) <= out.capacity
    ensures r.Ok? ==> out.buf == old(out.buf) + EncodeExt(GroupsExt(f))
    ensures r.Err? ==> r.error == Full
  {
    hide U16, EncodeExt, U16s, Groups;
    FixedLength(f);
    ListExtFlat(EXT_SUPPORTED_GROUPS, U16s(Groups(f)));
    GroupsFlat(f);
    var _ :- out.WriteU16(EXT_SUPPORTED_GROUPS);
    var _ :- out.WriteU16(2 + 2 * GroupCount(f));
    var _ :- out.WriteU16(2 * GroupCount(f));
    var _ :- out.WriteU16(f.PrimaryGroup());
    if f.SecondGroup() {
      var _ :- out.WriteU16(GROUP_SECP256R1);
    }
    return Ok(());
  }

  lemma SchemesFlat(f: Features)
    ensures U16s(Schemes(f))
         == ClassicSchemes(f)
            + (if f.mldsa then U16(SIG_MLDSA44) + U16(SIG_MLDSA65) + U16(SIG_MLDSA87) else [])
  {
    hide U16, U16s;
    var a: seq<nat> := if f.ecdsa then [SIG_ECDSA_P256, SIG_ECDSA_P384] else [];
    var b: seq<nat> := if f.rsa then [SIG_RSA_PSS] else [];
    var c: seq<nat> := if f.mldsa then [SIG_MLDSA44, SIG_MLDSA65, SIG_MLDSA87] else [];
    U16sAppend([SIG_ED25519], a);
    U16sAppend([SIG_ED25519] + a, b);
    U16sAppend([SIG_ED25519] + a + b, c);
    U16sOne(SIG_ED25519);
    U16sOne(SIG_RSA_PSS);
    U16sTwo(SIG_ECDSA_P256, SIG_ECDSA_P384);
    U16sTwo(SIG_MLDSA44, SIG_MLDSA65);
    U16sOne(SIG_MLDSA87);
    U16sAppend([SIG_MLDSA44, SIG_MLDSA65], [SIG_MLDSA87]);
    assert [SIG_MLDSA44, SIG_MLDSA65] + [SIG_MLDSA87] == [SIG_MLDSA44, SIG_MLDSA65, SIG_MLDSA87];
  }

  lemma U16sTwo(m: nat, n: nat)
    requires m < 0x1_0000 && n < 0x1_0000
    ensures U16s([m, n]) == U16(m) + U16(n)
  {
    U16sOne(n);
    assert [m, n][1..] == [n];
  }

  function ClassicSchemes(f: Features): (b: Bytes)
    ensures |b| == 2 + 4 * Count(f.ecdsa) + 2 * Count(f.rsa)
  {
    U16(SIG_ED25519)
    + (if f.ecdsa then U16(SIG_ECDSA_P256) + U16(SIG_ECDSA_P384) else [])
    + (if f.rsa then U16(SIG_RSA_PSS) else [])
  }

  method WriteClassicSchemes(f: Features, out: Sink) returns (r: Result<(), HelloError>)
    requires out.Valid()
    modifies out
    ensures out.Valid()
    ensures r.Ok? <==> |old(out.buf)| + |ClassicSchemes(f)| <= out.capacity
    ensures r.Ok? ==> out.buf == old(out.buf) + ClassicSchemes(f)
    ensures r.Err? ==> r.error == Full
  {
    hide U16;
    var _ :- out.WriteU16(SIG_ED25519);
    if f.ecdsa {
      var _ :- out.WriteU16(SIG_ECDSA_P256);
      var _ :- out.WriteU16(SIG_ECDSA_P384);
    }
    if f.rsa {
      var _ :- out.WriteU16(SIG_RSA_PSS);
    }
    return Ok(());
  }

  method WriteSchemeList(f: Features, out: Sink) returns (r: Result<(), HelloError>)
    requires out.Valid()
    modifies out
    ensures out.Valid()
    ensures r.Ok? <==> |old(out.buf)| + 2 * SchemeCount(f) <= out.capacity
    ensures r.Ok? ==> out.buf == old(out.buf) + U16s(Schemes(f))
    ensures r.Err? ==> r.error == Full
  {
    hide U16, U16s, Schemes, ClassicSchemes;
    SchemesFlat(f);
    var _ :- WriteClassicSchemes(f, out);
    if f.mldsa {
      var _ :- out.WriteU16(SIG_MLDSA44);
      var _ :- out.WriteU16(SIG_MLDSA65);
      var _ :- out.WriteU16(SIG_MLDSA87);
    }
    return Ok(());
  }

  method WriteSchemes(f: Features, out: Sink) returns (r: Result<(), HelloError>)
    requires f.Valid() && out.Valid()
    modifies out
    ensures out.Valid()
    ensures r.Ok? <==> |old(out.buf)| + 4 + 2 + 2 * SchemeCount(f) <= out.capacity
    ensures r.Ok? ==> out.buf == old(out.buf) + EncodeExt(SchemesExt(f))
    ensures r.Err? ==> r.error == Full
  {
    hide U16, EncodeExt, U16s, Schemes;
    FixedLength(f);
    ListExtFlat(EXT_SIGNATURE_ALGORITHMS, U16s(Schemes(f)));
    var _ :- out.WriteU16(EXT_SIGNATURE_ALGORITHMS);
    var _ :- out.WriteU16(2 + 2 * SchemeCount(f));
    var _ :- out.WriteU16(2 * SchemeCount(f));
    r := WriteSchemeList(f, out);
  }

  method WriteSni(o: Options, out: Sink) returns (r: Result<(), HelloError>)
    requires out.Valid() && (o.hostname.Some? ==> |o.hostname.value| < 0xFFF0)
    modifies out
    ensures out.Valid()
    ensures r.Ok? <==> |old(out.buf)| + |SniPart(o)| <= out.capacity
    ensures r.Ok? ==> out.buf == old(out.buf) + SniPart(o)
    ensures r.Err? ==> r.error == Full
  {
    hide U16, EncodeExt;
    if o.hostname.None? {
      return Ok(());
    }
    var h := o.hostname.value;
    var hostLen := |h| % 0x1_0000;
    var listLen := 1 + 2 + hostLen;
    var dataLen := 2 + listLen;
    ListExtFlat(EXT_SERVER_NAME, [0] + Vec16(h));
    var _ :- out.WriteU16(EXT_SERVER_NAME);
    var _ :- out.WriteU16(dataLen);
    var _ :- out.WriteU16(listLen);
    var _ :- out.WriteU8(0);
    var _ :- out.WriteU16(hostLen);
    r := out.WriteAll(h);
  }

  method WriteLimit(o: Options, out: Sink) returns (r: Result<(), HelloError>)
    requires out.Valid() && (o.recordSizeLimit.Some? ==> o.recordSizeLimit.value < 0x1_0000)
    modifies out
    ensures out.Valid()
    ensures r.Ok? <==> |old(out.buf)| + |LimitPart(o)| <= out.capacity
    ensures r.Ok? ==> out.buf == old(out.buf) + LimitPart(o)
    ensures r.Err? ==> r.error == Full
  {
    if o.recordSizeLimit.None? {
      return Ok(());
    }
    var _ :- out.WriteU16(EXT_RECORD_SIZE_LIMIT);
    var _ :- out.WriteU16(2);
    r := out.WriteU16(o.recordSizeLimit.value);
  }

  lemma NameNext(names: seq<Bytes>, i: nat, done: Bytes)
    requires NamesLegal(names) && i < |names| && done + EncodeNames(names[i..]) == EncodeNames(names)
    ensures done + ([|names[i]|] + names[i]) + EncodeNames(names[i + 1..]) == EncodeNames(names)
    ensures |done| + 1 + |names[i]| <= NamesLen(names)
  {
    assert names[i..][1..] == names[i + 1..];
    assert EncodeNames(names[i..]) == [|names[i]|] + names[i] + EncodeNames(names[i + 1..]);
  }

  lemma NoNames()
    ensures EncodeNames([]) == []
  {
  }

  method WriteNames(names: seq<Bytes>, out: Sink) returns (r: Result<(), HelloError>)
    requires out.Valid() && NamesLegal(names)
    modifies out
    ensures out.Valid()
    ensures r.Ok? <==> |old(out.buf)| + NamesLen(names) <= out.capacity
    ensures r.Ok? ==> out.buf == old(out.buf) + EncodeNames(names)
    ensures r.Err? ==> r.error == Full
  {
    hide EncodeNames, NamesLen;
    var i := 0;
    ghost var done: Bytes := [];
    assert names[0..] == names;
    assert EncodeNames([]) == [] by { NoNames(); }
    while i < |names|
      invariant 0 <= i <= |names| && out.Valid()
      invariant out.buf == old(out.buf) + done
      invariant done + EncodeNames(names[i..]) == EncodeNames(names)
      decreases |names| - i
    {
      var name := names[i];
      NameNext(names, i, done);
      var _ :- out.WriteU8(|name| % 256);
      var _ :- out.WriteAll(name);
      done := done + ([|name|] + name);
      i := i + 1;
    }
    return Ok(());
  }

  method WriteAlpn(o: Options, out: Sink) returns (r: Result<(), HelloError>)
    requires out.Valid() && (o.alpn.Some? ==> NamesLegal(o.alpn.value) && NamesLen(o.alpn.value) < 0xFFF0)
    modifies out
    ensures out.Valid()
    ensures r.Ok? <==> |old(out.buf)| + |AlpnPart(o)| <= out.capacity
    ensures r.Ok? ==> out.buf == old(out.buf) + AlpnPart(o)
    ensures r.Err? ==> r.error == Full
  {
    hide U16, EncodeExt, EncodeNames, NamesLen;
    if o.alpn.None? {
      return Ok(());
    }
    var total := AlpnExtTotal(o.alpn);
    var listLen := total - 6;
    ListExtFlat(EXT_ALPN, EncodeNames(o.alpn.value));
    var _ :- out.WriteU16(EXT_ALPN);
    var _ :- out.WriteU16((2 + listLen) % 0x1_0000);
    var _ :- out.WriteU16(listLen % 0x1_0000);
    r := WriteNames(o.alpn.value, out);
  }

  lemma SharesFlat(f: Features, pub: Bytes, o: Options)
    requires Writable(f, pub, o)
    ensures SharesPart(f, pub, o) == FirstPart(f, pub, o) + SecondPart(f, o)
  {
    SharesFit(f, pub, o);
    var s := Shares(f, pub, o);
    ListExtFlat(EXT_KEY_SHARE, EncodeShares(s));
    hide U16, OptionsError, EncodeExt;
    assert |s[0].key| == PrimaryKeyLen(f) && s[0].Valid();
    if f.SecondGroup() {
      assert s[1..] == [s[1]] && s[1..][1..] == [] && s[1].Valid();
      assert EncodeShares(s[1..]) == U16(GROUP_SECP256R1) + Vec16(o.p256Pub.value) + [];
    } else {
      assert s[1..] == [];
    }
  }

  function SecondPart(f: Features, o: Options): (b: Bytes) {
    if f.SecondGroup() && o.p256Pub.Some? then U16(GROUP_SECP256R1) + U16(P256_SHARE) + o.p256Pub.value else []
  }

  function FirstPart(f: Features, pub: Bytes, o: Options): (b: Bytes)
    requires f.mlkem ==> o.mlkemEk.Some?
    ensures o.Typed(f) && |pub| == PrimaryPubLen(f) ==> |b| == 10 + PrimaryKeyLen(f)
  {
    U16(EXT_KEY_SHARE) + U16(2 + KeyShareListLen(f)) + U16(KeyShareListLen(f))
    + U16(f.PrimaryGroup()) + U16(PrimaryKeyLen(f)) + (if f.mlkem then o.mlkemEk.value else []) + pub
  }

  method WriteFirstShare(f: Features, pub: Bytes, o: Options, out: Sink) returns (r: Result<(), HelloError>)
    requires o.Typed(f) && |pub| == PrimaryPubLen(f) && out.Valid()
    modifies out
    ensures out.Valid()
    ensures r.Ok? <==> (f.mlkem ==> o.mlkemEk.Some?) && |old(out.buf)| + 10 + PrimaryKeyLen(f) <= out.capacity
    ensures r.Ok? ==> out.buf == old(out.buf) + FirstPart(f, pub, o)
    ensures r.Err? ==>
              r.error == if f.mlkem && o.mlkemEk.None? && |old(out.buf)| + 10 <= out.capacity then MissingMlKemKeyShare
                         else Full
  {
    hide U16;
    var _ :- out.WriteU16(EXT_KEY_SHARE);
    var _ :- out.WriteU16(2 + KeyShareListLen(f));
    var _ :- out.WriteU16(KeyShareListLen(f));
    var _ :- out.WriteU16(f.PrimaryGroup());
    var _ :- out.WriteU16(PrimaryKeyLen(f));
    if f.mlkem {
      if o.mlkemEk.None? {
        return Err(MissingMlKemKeyShare);
      }
      var _ :- out.WriteAll(o.mlkemEk.value);
    }
    r := out.WriteAll(pub);
  }

  method WriteSecondShare(f: Features, o: Options, out: Sink) returns (r: Result<(), HelloError>)
    requires o.Typed(f) && out.Valid()
    modifies out
    ensures out.Valid()
    ensures f.SecondGroup() ==> (r.Ok? <==> o.p256Pub.Some? && |old(out.buf)| + 4 + P256_SHARE <= out.capacity)
    ensures !f.SecondGroup() ==> r.Ok?
    ensures r.Ok? ==> out.buf == old(out.buf) + SecondPart(f, o)
    ensures r.Err? ==>
              r.error == if o.p256Pub.None? && |old(out.buf)| + 4 <= out.capacity then MissingP256KeyShare else Full
  {
    hide U16;
    if !f.SecondGroup() {
      return Ok(());
    }
    var _ :- out.WriteU16(GROUP_SECP256R1);
    var _ :- out.WriteU16(P256_SHARE);
    if o.p256Pub.None? {
      return Err(MissingP256KeyShare);
    }
    r := out.WriteAll(o.p256Pub.value);
  }

  /** What key_share fails with in `room` bytes: a missing key is noticed when its turn to be written comes. */
  function ShareError(f: Features, o: Options, room: int): (e: HelloError) {
    if f.mlkem && o.mlkemEk.None? then if room < 10 then Full else MissingMlKemKeyShare
    else if f.SecondGroup() && o.p256Pub.None? && room >= 10 + PrimaryKeyLen(f) + 4 then MissingP256KeyShare
    else Full
  }

  method WriteShares(f: Features, pub: Bytes, o: Options, out: Sink) returns (r: Result<(), HelloError>)
    requires f.Valid() && o.Typed(f) && |pub| == PrimaryPubLen(f) && OptionsError(f, o).None? && out.Valid()
    modifies out
    ensures out.Valid()
    ensures r.Ok? <==> KeysPresent(f, o) && |old(out.buf)| + 6 + KeyShareListLen(f) <= out.capacity
    ensures r.Ok? ==> out.buf == old(out.buf) + SharesPart(f, pub, o)
    ensures r.Err? ==> r.error == ShareError(f, o, out.capacity - |old(out.buf)|)
  {
    hide FirstPart, SecondPart, SharesPart, OptionsError;
    if KeysPresent(f, o) {
      SharesFlat(f, pub, o);
    }
    var _ :- WriteFirstShare(f, pub, o, out);
    r := WriteSecondShare(f, o, out);
  }

  // ---- Everything before the extensions ----

  function PrefixLen(f: Features, o: Options): (n: nat) {
    5 + 4 + BodyLen(f, o) - ExtensionsTotal(f, o)
  }

  function Prefix(f: Features, random: Bytes, o: Options): (b: Bytes)
    requires |random| == 32 && f.Valid() && o.Typed(f) && OptionsError(f, o).None?
    ensures |b| == PrefixLen(f, o)
  {
    SuitesLength(f, o);
    [CT_HANDSHAKE] + U16(LEGACY_VERSION) + U16(4 + BodyLen(f, o)) + [HS_CLIENT_HELLO] + U24(BodyLen(f, o))
    + HelloFront(random, o) + HelloBack(f, o)
  }

  /** Version, random and session id. */
  function HelloFront(random: Bytes, o: Options): (b: Bytes)
    requires |SessionId(o)| <= LEGACY_SESSION_ID_LEN
    ensures |b| == 2 + |random| + 1 + |SessionId(o)|
  {
    U16(LEGACY_VERSION) + random + Vec8(SessionId(o))
  }

  /** Suites, compression, and the length of the extensions. */
  function HelloBack(f: Features, o: Options): (b: Bytes)
    requires f.Valid() && o.Typed(f) && OptionsError(f, o).None?
    ensures |b| == 2 + 2 * SuiteCount(f, o.suites) + 4
  {
    SuitesLength(f, o);
    Vec16(U16s(Suites(f, o.suites))) + [1, 0] + U16(ExtensionsTotal(f, o))
  }

  lemma SuitesLength(f: Features, o: Options)
    requires f.Valid() && o.Typed(f)
    ensures 1 <= |Suites(f, o.suites)| == SuiteCount(f, o.suites) <= 2
    ensures |U16s(Suites(f, o.suites))| == 2 * SuiteCount(f, o.suites)
  {
  }

  lemma PrefixThenExtensions(f: Features, random: Bytes, pub: Bytes, o: Options)
    requires |random| == 32 && Writable(f, pub, o)
    ensures Serialize(f, random, pub, o) == Prefix(f, random, o) + EncodeExts(HelloExts(f, pub, o))
  {
    hide U16, U24, EncodeExts, HelloExts, U16s, Suites, OptionsError, Vec8, Vec16, Hello, HelloFront, HelloBack, BodyLen;
    ExtensionsLength(f, pub, o);
    SuitesLength(f, o);
    var exts := EncodeExts(HelloExts(f, pub, o));
    var body := HelloBody(f, random, pub, o);
    FrontBack(f, random, o, exts);
    RecordFlat(body);
    assert body == HelloFront(random, o) + HelloBack(f, o) + exts;
  }

  lemma RecordFlat(body: Bytes)
    requires |body| <= TLS_PLAINTEXT_MAX
    ensures [CT_HANDSHAKE] + U16(LEGACY_VERSION) + Vec16(Msg(HS_CLIENT_HELLO, body).Full())
         == [CT_HANDSHAKE] + U16(LEGACY_VERSION) + U16(4 + |body|) + [HS_CLIENT_HELLO] + U24(|body|) + body
  {
    hide U16, U24;
  }

  lemma FrontBack(f: Features, random: Bytes, o: Options, exts: Bytes)
    requires |random| == 32 && f.Valid() && o.Typed(f) && OptionsError(f, o).None? && |exts| == ExtensionsTotal(f, o)
    ensures |exts| < 0x1_0000 && |U16s(Suites(f, o.suites))| < 0x1_0000
    ensures Hello(random, SessionId(o), U16s(Suites(f, o.suites)), exts) == HelloFront(random, o) + HelloBack(f, o) + exts
  {
    hide U16, U16s, Suites, ExtensionsTotal;
    SuitesLength(f, o);
    var suites := Vec16(U16s(Suites(f, o.suites)));
    hide Vec16;
    assert Vec8([0]) == [1, 0];
    VecFlat(exts);
    assert Hello(random, SessionId(o), U16s(Suites(f, o.suites)), exts)
        == HelloFront(random, o) + (suites + (Vec8([0]) + Vec16(exts)));
  }

  lemma VecFlat(v: Bytes)
    requires |v| < 0x1_0000
    ensures Vec16(v) == U16(|v|) + v
  {
  }

  method WriteSuites(f: Features, o: Options, out: Sink) returns (r: Result<(), HelloError>)
    requires f.Valid() && o.Typed(f) && out.Valid()
    modifies out
    ensures out.Valid()
    ensures r.Ok? <==> |old(out.buf)| + 2 + 2 * SuiteCount(f, o.suites) <= out.capacity
    ensures r.Ok? ==> out.buf == old(out.buf) + Vec16(U16s(Suites(f, o.suites)))
    ensures r.Err? ==> r.error == Full
  {
    hide U16, U16s;
    SuitesLength(f, o);
    SuitesFlat(f, o);
    var _ :- out.WriteU16(2 * SuiteCount(f, o.suites) % 0x1_0000);
    if f.chacha && (o.suites.Default? || o.suites.ChaChaOnly?) {
      var _ :- out.WriteU16(CIPHER_CHACHA20_POLY1305_SHA256);
    }
    if f.aes && (!f.chacha || !o.suites.ChaChaOnly?) {
      var _ :- out.WriteU16(CIPHER_AES_128_GCM_SHA256);
    }
    return Ok(());
  }

  lemma SuitesFlat(f: Features, o: Options)
    ensures U16s(Suites(f, o.suites))
         == (if f.chacha && !o.suites.AesOnly? then U16(CIPHER_CHACHA20_POLY1305_SHA256) else [])
            + (if f.aes && !o.suites.ChaChaOnly? then U16(CIPHER_AES_128_GCM_SHA256) else [])
  {
    hide U16;
    U16sOne(CIPHER_CHACHA20_POLY1305_SHA256);
    U16sOne(CIPHER_AES_128_GCM_SHA256);
    U16sAppend(if f.chacha && !o.suites.AesOnly? then [CIPHER_CHACHA20_POLY1305_SHA256] else [],
               if f.aes && !o.suites.ChaChaOnly? then [CIPHER_AES_128_GCM_SHA256] else []);
  }

  method WriteSessionId(o: Options, out: Sink) returns (r: Result<(), HelloError>)
    requires out.Valid() && |SessionId(o)| <= LEGACY_SESSION_ID_LEN
    requires o.sessionId.Some? ==> |o.sessionId.value| == LEGACY_SESSION_ID_LEN
    modifies out
    ensures out.Valid()
    ensures r.Ok? <==> |old(out.buf)| + 1 + |SessionId(o)| <= out.capacity
    ensures r.Ok? ==> out.buf == old(out.buf) + Vec8(SessionId(o))
    ensures r.Err? ==> r.error == Full
  {
    if o.sessionId.None? {
      r := out.WriteU8(0);
    } else {
      var _ :- out.WriteU8(LEGACY_SESSION_ID_LEN % 256);
      r := out.WriteAll(o.sessionId.value);
    }
  }

  method WriteHeaders(f: Features, o: Options, out: Sink) returns (r: Result<(), HelloError>)
    requires f.Valid() && o.Typed(f) && OptionsError(f, o).None? && out.Valid()
    modifies out
    ensures out.Valid()
    ensures r.Ok? <==> |old(out.buf)| + 9 <= out.capacity
    ensures r.Ok? ==> out.buf == old(out.buf) + ([CT_HANDSHAKE] + U16(LEGACY_VERSION) + U16(4 + BodyLen(f, o))
                                                 + [HS_CLIENT_HELLO] + U24(BodyLen(f, o)))
    ensures r.Err? ==> r.error == Full
  {
    hide U16, U24, BodyLen;
    var bodyLen := BodyLen(f, o);
    var hsLen := 4 + bodyLen;
    var _ :- out.WriteU8(CT_HANDSHAKE);
    var _ :- out.WriteU16(LEGACY_VERSION);
    var _ :- out.WriteU16(hsLen % 0x1_0000);
    var _ :- out.WriteU8(HS_CLIENT_HELLO);
    r := out.WriteU24(bodyLen % 0x1_0000_0000);
  }

  method WriteHelloFront(random: Bytes, o: Options, out: Sink) returns (r: Result<(), HelloError>)
    requires |random| == 32 && out.Valid()
    requires o.sessionId.Some? ==> |o.sessionId.value| == LEGACY_SESSION_ID_LEN
    modifies out
    ensures out.Valid()
    ensures r.Ok? <==> |old(out.buf)| + 2 + 32 + 1 + |SessionId(o)| <= out.capacity
    ensures r.Ok? ==> out.buf == old(out.buf) + HelloFront(random, o)
    ensures r.Err? ==> r.error == Full
  {
    hide U16, Vec8;
    var _ :- out.WriteU16(LEGACY_VERSION);
    var _ :- out.WriteAll(random);
    r := WriteSessionId(o, out);
  }

  method WriteHelloBack(f: Features, o: Options, out: Sink) returns (r: Result<(), HelloError>)
    requires f.Valid() && o.Typed(f) && OptionsError(f, o).None? && out.Valid()
    modifies out
    ensures out.Valid()
    ensures r.Ok? <==> |old(out.buf)| + 2 + 2 * SuiteCount(f, o.suites) + 4 <= out.capacity
    ensures r.Ok? ==> out.buf == old(out.buf) + HelloBack(f, o)
    ensures r.Err? ==> r.error == Full
  {
    hide U16, U16s, Suites, Vec16, ExtensionsTotal, SuiteCount;
    SuitesLength(f, o);
    var _ :- WriteSuites(f, o, out);
    var _ :- out.WriteU8(1);
    var _ :- out.WriteU8(0);
    r := out.WriteU16(ExtensionsTotal(f, o) % 0x1_0000);
  }

  method WritePrefix(f: Features, random: Bytes, o: Options, out: Sink) returns (r: Result<(), HelloError>)
    requires |random| == 32 && f.Valid() && o.Typed(f) && OptionsError(f, o).None? && out.Valid()
    modifies out
    ensures out.Valid()
    ensures r.Ok? <==> |old(out.buf)| + PrefixLen(f, o) <= out.capacity
    ensures r.Ok? ==> out.buf == old(out.buf) + Prefix(f, random, o)
    ensures r.Err? ==> r.error == Full
  {
    hide U16, U24, HelloFront, HelloBack, OptionsError, ExtensionsTotal, SuiteCount;
    var _ :- WriteHeaders(f, o, out);
    var _ :- WriteHelloFront(random, o, out);
    r := WriteHelloBack(f, o, out);
  }

  method WriteFixed(f: Features, out: Sink) returns (r: Result<(), HelloError>)
    requires f.Valid() && out.Valid()
    modifies out
    ensures out.Valid()
    ensures r.Ok? <==> |old(out.buf)| + |FixedPart(f)| <= out.capacity
    ensures r.Ok? ==> out.buf == old(out.buf) + FixedPart(f)
    ensures r.Err? ==> r.error == Full
  {
    hide EncodeExt, VersionsExt, GroupsExt, SchemesExt, Groups, Schemes;
    FixedLength(f);
    var _ :- WriteVersions(out);
    var _ :- WriteGroups(f, out);
    r := WriteSchemes(f, out);
  }

  method WriteOptional(f: Features, pub: Bytes, o: Options, out: Sink) returns (r: Result<(), HelloError>)
    requires f.Valid() && o.Typed(f) && |pub| == PrimaryPubLen(f) && OptionsError(f, o).None? && out.Valid()
    modifies out
    ensures out.Valid()
    ensures r.Ok? <==> |old(out.buf)| + |SniPart(o) + LimitPart(o) + AlpnPart(o)| <= out.capacity
    ensures r.Ok? ==> out.buf == old(out.buf) + (SniPart(o) + LimitPart(o) + AlpnPart(o))
    ensures r.Err? ==> r.error == Full
  {
    hide SniPart, LimitPart, AlpnPart, FixedExtensionsTotal;
    var _ :- WriteSni(o, out);
    var _ :- WriteLimit(o, out);
    r := WriteAlpn(o, out);
  }

  /** The optional extensions are as long as the total counts them. */
  lemma OptionalLength(f: Features, o: Options)
    requires f.Valid() && o.Typed(f) && OptionsError(f, o).None?
    ensures PrefixLen(f, o) + |FixedPart(f)| + |SniPart(o) + LimitPart(o) + AlpnPart(o)| + 6 + KeyShareListLen(f)
         == ClientHelloLen(f, o)
  {
    FixedLength(f);
    hide FixedPart;
  }

  /** The length of everything ahead of key_share. */
  function BeforeShares(f: Features, o: Options): (n: int) {
    ClientHelloLen(f, o) - 6 - KeyShareListLen(f)
  }

  /**
   * Refuses bad options before writing; otherwise writes exactly the nested message, whose length
   * is the one announced, when the keys are there and the sink has room, and fails when not.
   */
  method WriteClientHello(f: Features, random: Bytes, pub: Bytes, o: Options, out: Sink)
    returns (r: Result<nat, HelloError>)
    requires f.Valid() && o.Typed(f) && |random| == 32 && |pub| == PrimaryPubLen(f) && out.Valid()
    modifies out
    ensures out.Valid()
    ensures OptionsError(f, o).Some? ==> r == Err(OptionsError(f, o).value) && out.buf == old(out.buf)
    ensures OptionsError(f, o).None? ==>
      && (r.Ok? <==> KeysPresent(f, o) && |old(out.buf)| + ClientHelloLen(f, o) <= out.capacity)
      && (r.Ok? ==> r.value == ClientHelloLen(f, o) && out.buf == old(out.buf) + Serialize(f, random, pub, o))
      && (r.Err? ==> r.error == ShareError(f, o, out.capacity - |old(out.buf)| - BeforeShares(f, o)))
  {
    if o.hostname.Some? && |o.hostname.value| > 0xFFFF {
      return Err(HostnameTooLong);
    }
    if o.recordSizeLimit.Some? && !(64 <= o.recordSizeLimit.value <= 16385) {
      return Err(RecordSizeLimitOutOfRange);
    }
    if o.alpn.Some? && !NamesLegal(o.alpn.value) {
      return Err(AlpnNameLen);
    }
    var total := ClientHelloLen(f, o);
    if total > 5 + TLS_PLAINTEXT_MAX {
      return Err(MessageTooLong);
    }
    assert OptionsError(f, o).None?;
    var _ :- WriteExtended(f, random, pub, o, out);
    return Ok(total);
  }

  method WriteExtended(f: Features, random: Bytes, pub: Bytes, o: Options, out: Sink)
    returns (r: Result<(), HelloError>)
    requires f.Valid() && o.Typed(f) && |random| == 32 && |pub| == PrimaryPubLen(f) && out.Valid()
    requires OptionsError(f, o).None?
    modifies out
    ensures out.Valid()
    ensures r.Ok? <==> KeysPresent(f, o) && |old(out.buf)| + ClientHelloLen(f, o) <= out.capacity
    ensures r.Ok? ==> out.buf == old(out.buf) + Serialize(f, random, pub, o)
    ensures r.Err? ==> r.error == ShareError(f, o, out.capacity - |old(out.buf)| - BeforeShares(f, o))
  {
    hide Prefix, FixedPart, SniPart, LimitPart, AlpnPart, SharesPart, OptionsError, Serialize, HelloExts, EncodeExts,
         BodyLen, ExtensionsTotal, KeyShareListLen, PrefixLen;
    OptionalLength(f, o);
    if KeysPresent(f, o) {
      PrefixThenExtensions(f, random, pub, o);
      HelloExtsEncode(f, pub, o);
    }
    var _ :- WritePrefix(f, random, o, out);
    var _ :- WriteFixed(f, out);
    var _ :- WriteOptional(f, pub, o, out);
    r := WriteShares(f, pub, o, out);
  }
}
