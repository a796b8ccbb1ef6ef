/** The decrypted server flight: message order, CertificateRequest and the certificate list. */
module ServerFlight {
  import opened Bytes
  import opened Consts
  import opened Wire

  datatype FlightError =
    | Truncated
    | TrailingBytes
    | UnexpectedHandshakeType(expected: Byte, got: Byte)
    | DuplicateExtension(typ: nat)
    | CertChainTooLong
    | UnexpectedSignatureScheme(scheme: nat)
    | WrongSignatureLength
    | CertVerifyInvalid
    | FinishedWrongLength
    | FinishedMacInvalid
    | BadCert
    | HkdfLabel
    | TranscriptBackend
    | InternalEncoding

  // ---- Messages ----

  predicate AllMsgsValid(ms: seq<Msg>) {
    forall i :: 0 <= i < |ms| ==> ms[i].Valid()
  }

  function EncodeMsgs(ms: seq<Msg>): (b: Bytes)
    requires AllMsgsValid(ms)
  {
    if ms == [] then [] else ms[0].Full() + EncodeMsgs(ms[1..])
  }

  datatype FlightView = FlightView(ee: Msg, request: Option<Msg>, cert: Msg, cv: Msg, fin: Msg) {
    function Messages(): (ms: seq<Msg>) {
      [ee] + (if request.Some? then [request.value] else []) + [cert, cv, fin]
    }

    predicate Valid() {
      && ee.Valid() && (request.Some? ==> request.value.Valid()) && cert.Valid() && cv.Valid() && fin.Valid()
      && ee.typ == 8 && (request.Some? ==> request.value.typ == 13) && cert.typ == 11 && cv.typ == 15 && fin.typ == 20
    }
  }

  function Expect(buf: Bytes, typ: Byte): (r: Result<(Msg, Bytes), FlightError>)
    ensures r.Ok? ==> r.value.0.Valid() && r.value.0.typ == typ && r.value.0.Full() + r.value.1 == buf
  {
    match NextMsg(buf)
    case None => Err(Truncated)
    case Some((m, rest)) =>
      if m.typ != typ then Err(UnexpectedHandshakeType(typ, m.typ)) else Ok((m, rest))
  }

  function ParseTail(ee: Msg, request: Option<Msg>, buf: Bytes): (r: Result<FlightView, FlightError>) {
    var (cert, b1) :- Expect(buf, HS_CERTIFICATE);
    var (cv, b2) :- Expect(b1, HS_CERTIFICATE_VERIFY);
    var (fin, b3) :- Expect(b2, HS_FINISHED);
    if b3 != [] then Err(TrailingBytes) else Ok(FlightView(ee, request, cert, cv, fin))
  }

  function ParseFlight(content: Bytes): (r: Result<FlightView, FlightError>) {
    var (ee, b1) :- Expect(content, HS_ENCRYPTED_EXTENSIONS);
    match NextMsg(b1)
    case None => Err(Truncated)
    case Some((m, b2)) =>
      if m.typ == HS_CERTIFICATE_REQUEST then ParseTail(ee, Some(m), b2) else ParseTail(ee, None, b1)
  }

  /** The flight reader: a cursor over the plaintext. */
  class HsReader {
    const buf: Bytes
    var pos: nat

    ghost predicate Valid()
      reads this
    {
      pos <= |buf|
    }

    ghost function Rest(): (b: Bytes)
      requires Valid()
      reads this
    {
      buf[pos..]
    }

    constructor (buf: Bytes)
      ensures Valid() && this.buf == buf && Rest() == buf
    {
      this.buf := buf;
      pos := 0;
    }

    method AtEnd() returns (b: bool)
      requires Valid()
      ensures b == (Rest() == [])
    {
      b := pos == |buf|;
    }

    /** One framed message, or `None` when it does not fit; the cursor moves only on success. */
    method Next() returns (r: Option<Msg>)
      requires Valid()
      modifies this
      ensures Valid()
      ensures r.None? ==> NextMsg(old(Rest())).None? && Rest() == old(Rest())
      ensures r.Some? ==> NextMsg(old(Rest())) == Some((r.value, Rest()))
    {
      hide U24, GetU24, TakeVec24, Vec24;
      if |buf| < pos + 4 {
        return None;
      }
      var typ := buf[pos];
      var len := GetU24(buf, pos + 1);
      NextMsgAt(buf, pos);
      if len > |buf| - pos - 4 {
        return None;
      }
      var body := buf[pos + 4..pos + 4 + len];
      pos := pos + 4 + len;
      r := Some(Msg(typ, body));
    }

    method NextOf(typ: Byte) returns (r: Result<Msg, FlightError>)
      requires Valid()
      modifies this
      ensures Valid()
      ensures r.Ok? ==> Expect(old(Rest()), typ) == Ok((r.value, Rest()))
      ensures r.Err? ==> Expect(old(Rest()), typ) == Err(r.error)
    {
      var m := Next();
      if m.None? {
        return Err(Truncated);
      }
      if m.value.typ != typ {
        return Err(UnexpectedHandshakeType(typ, m.value.typ));
      }
      return Ok(m.value);
    }
  }

  method ParseServerFlight(content: Bytes) returns (r: Result<FlightView, FlightError>)
    ensures r == ParseFlight(content)
  {
    var reader := new HsReader(content);
    var ee := reader.NextOf(HS_ENCRYPTED_EXTENSIONS);
    if ee.Err? {
      return Err(ee.error);
    }
    var next := reader.Next();
    if next.None? {
      return Err(Truncated);
    }
    var request := None;
    if next.value.typ == HS_CERTIFICATE_REQUEST {
      request := next;
      next := reader.Next();
      if next.None? {
        return Err(Truncated);
      }
    }
    if next.value.typ != HS_CERTIFICATE {
      return Err(UnexpectedHandshakeType(HS_CERTIFICATE, next.value.typ));
    }
    var cv := reader.NextOf(HS_CERTIFICATE_VERIFY);
    if cv.Err? {
      return Err(cv.error);
    }
    var fin := reader.NextOf(HS_FINISHED);
    if fin.Err? {
      return Err(fin.error);
    }
    var done := reader.AtEnd();
    if !done {
      return Err(TrailingBytes);
    }
    return Ok(FlightView(ee.value, request, next.value, cv.value, fin.value));
  }

  lemma ExpectReads(m: Msg, rest: Bytes, typ: Byte)
    requires m.Valid()
    ensures Expect(m.Full() + rest, typ)
         == if m.typ == typ then Ok((m, rest)) else Err(UnexpectedHandshakeType(typ, m.typ))
  {
    MsgReads(m, rest);
  }

  lemma EncodeMsgsCons(m: Msg, ms: seq<Msg>)
    requires m.Valid() && AllMsgsValid(ms)
    ensures AllMsgsValid([m] + ms) && EncodeMsgs([m] + ms) == m.Full() + EncodeMsgs(ms)
  {
    assert ([m] + ms)[1..] == ms;
  }

  lemma TailEncodes(cert: Msg, cv: Msg, fin: Msg)
    requires cert.Valid() && cv.Valid() && fin.Valid()
    ensures AllMsgsValid([cert, cv, fin])
    ensures EncodeMsgs([cert, cv, fin]) == cert.Full() + (cv.Full() + fin.Full())
  {
    EncodeMsgsCons(fin, []);
    EncodeMsgsCons(cv, [fin]);
    EncodeMsgsCons(cert, [cv, fin]);
    assert [cert] + [cv, fin] == [cert, cv, fin] && [cv] + [fin] == [cv, fin] && [fin] + [] == [fin];
    assert fin.Full() + [] == fin.Full();
  }

  /** The view's messages, written out, are one length-prefixed string after the other. */
  lemma ViewEncodes(v: FlightView)
    requires v.Valid()
    ensures v.request.None? ==> EncodeMsgs(v.Messages()) == v.ee.Full() + EncodeMsgs([v.cert, v.cv, v.fin])
    ensures v.request.Some? ==>
      EncodeMsgs(v.Messages()) == v.ee.Full() + (v.request.value.Full() + EncodeMsgs([v.cert, v.cv, v.fin]))
  {
    TailEncodes(v.cert, v.cv, v.fin);
    var tail := [v.cert, v.cv, v.fin];
    if v.request.Some? {
      EncodeMsgsCons(v.request.value, tail);
      EncodeMsgsCons(v.ee, [v.request.value] + tail);
      assert v.Messages() == [v.ee] + ([v.request.value] + tail);
    } else {
      EncodeMsgsCons(v.ee, tail);
      assert v.Messages() == [v.ee] + tail;
    }
  }

  lemma TailReads(ee: Msg, request: Option<Msg>, cert: Msg, cv: Msg, fin: Msg)
    requires FlightView(ee, request, cert, cv, fin).Valid()
    ensures AllMsgsValid([cert, cv, fin])
    ensures ParseTail(ee, request, EncodeMsgs([cert, cv, fin])) == Ok(FlightView(ee, request, cert, cv, fin))
  {
    TailEncodes(cert, cv, fin);
    ExpectReads(cert, cv.Full() + fin.Full(), HS_CERTIFICATE);
    ExpectReads(cv, fin.Full(), HS_CERTIFICATE_VERIFY);
    assert fin.Full() + [] == fin.Full();
    ExpectReads(fin, [], HS_FINISHED);
  }

  /** A flight in the right order parses to exactly its messages. */
  lemma ParseUndoesFlight(v: FlightView)
    requires v.Valid()
    ensures ParseFlight(EncodeMsgs(v.Messages())) == Ok(v)
  {
    hide ParseTail;
    ViewEncodes(v);
    TailReads(v.ee, v.request, v.cert, v.cv, v.fin);
    var tail := EncodeMsgs([v.cert, v.cv, v.fin]);
    TailEncodes(v.cert, v.cv, v.fin);
    if v.request.Some? {
      ExpectReads(v.ee, v.request.value.Full() + tail, HS_ENCRYPTED_EXTENSIONS);
      MsgReads(v.request.value, tail);
    } else {
      ExpectReads(v.ee, tail, HS_ENCRYPTED_EXTENSIONS);
      MsgReads(v.cert, v.cv.Full() + v.fin.Full());
    }
  }

  lemma TailCanonical(ee: Msg, request: Option<Msg>, buf: Bytes)
    requires ParseTail(ee, request, buf).Ok?
    ensures var v := ParseTail(ee, request, buf).value;
            && v.ee == ee && v.request == request
            && v.cert.typ == HS_CERTIFICATE && v.cv.typ == HS_CERTIFICATE_VERIFY && v.fin.typ == HS_FINISHED
            && v.cert.Valid() && v.cv.Valid() && v.fin.Valid() && AllMsgsValid([v.cert, v.cv, v.fin])
            && EncodeMsgs([v.cert, v.cv, v.fin]) == buf
  {
    hide NextMsg, Vec24, EncodeMsgs;
    var v := ParseTail(ee, request, buf).value;
    TailEncodes(v.cert, v.cv, v.fin);
    assert v.fin.Full() + [] == v.fin.Full();
  }

  /** `parse_server_flight` accepts exactly the concatenations of correctly ordered messages. */
  lemma ParsedExactly(content: Bytes, v: FlightView)
    ensures ParseFlight(content) == Ok(v) <==> v.Valid() && EncodeMsgs(v.Messages()) == content
  {
    hide ParseTail, EncodeMsgs, Vec24, NextMsg;
    if ParseFlight(content) == Ok(v) {
      var (ee, b1) := Expect(content, HS_ENCRYPTED_EXTENSIONS).value;
      var (m, b2) := NextMsg(b1).value;
      if m.typ == HS_CERTIFICATE_REQUEST {
        TailCanonical(ee, Some(m), b2);
      } else {
        TailCanonical(ee, None, b1);
      }
      ViewEncodes(v);
    }
    if v.Valid() && EncodeMsgs(v.Messages()) == content {
      ParseUndoesFlight(v);
    }
  }

  // ---- CertificateRequest ----

  /** The context and the extension block of a framed CertificateRequest. */
  function RequestParts(full: Bytes): (r: Result<(Bytes, Bytes), FlightError>) {
    if |full| == 0 then Err(UnexpectedHandshakeType(HS_CERTIFICATE_REQUEST, 0))
    else if full[0] != HS_CERTIFICATE_REQUEST then Err(UnexpectedHandshakeType(HS_CERTIFICATE_REQUEST, full[0]))
    else if |full| < 4 then Err(Truncated)
    else
      match TakeVec8(full[4..])
      case None => Err(Truncated)
      case Some((ctx, more)) =>
        match TakeU16(more)
        case None => Err(Truncated)
        case Some((n, exts)) =>
          if |exts| < n then Err(Truncated) else if |exts| > n then Err(TrailingBytes) else Ok((ctx, exts))
  }

  /** The scheme list inside a signature_algorithms extension. */
  function Schemes(data: Bytes): (r: Result<Bytes, FlightError>) {
    match TakeU16(data)
    case None => Err(Truncated)
    case Some((n, list)) => if n != |list| || n < 2 || n % 2 != 0 then Err(Truncated) else Ok(list)
  }

  function FindSchemes(exts: Bytes): (r: Result<Bytes, FlightError>)
    decreases |exts|
  {
    if |exts| < 4 then if exts == [] then Ok([]) else Err(Truncated)
    else
      match NextExt(exts)
      case None => Err(Truncated)
      case Some((e, rest)) => if e.typ == EXT_SIGNATURE_ALGORITHMS then Schemes(e.data) else FindSchemes(rest)
  }

  function SigAlgs(full: Bytes): (r: Result<Bytes, FlightError>) {
    var (_, exts) :- RequestParts(full);
    FindSchemes(exts)
  }

  method CertificateRequestSigAlgs(full: Bytes) returns (r: Result<Bytes, FlightError>)
    ensures r == SigAlgs(full)
  {
    hide RequestParts, NextExt, GetU16, TakeU16, U16;
    var parts := RequestParts(full);
    if parts.Err? {
      return Err(parts.error);
    }
    var exts := parts.value.1;
    var i := 0;
    assert exts[0..] == exts;
    while |exts| - i >= 4
      invariant 0 <= i <= |exts|
      invariant FindSchemes(exts) == FindSchemes(exts[i..])
      decreases |exts| - i
    {
      var etype := GetU16(exts, i);
      var dlen := GetU16(exts, i + 2);
      NextExtAt(exts, i);
      if dlen > |exts| - (i + 4) {
        return Err(Truncated);
      }
      var data := exts[i + 4..i + 4 + dlen];
      if etype == EXT_SIGNATURE_ALGORITHMS {
        if |data| < 2 {
          return Err(Truncated);
        }
        var llen := GetU16(data, 0);
        TakeU16At(data, 0);
        assert data[0..] == data;
        if llen != |data| - 2 || llen < 2 || llen % 2 != 0 {
          return Err(Truncated);
        }
        assert data[2..2 + llen] == data[2..];
        return Ok(data[2..2 + llen]);
      }
      i := i + 4 + dlen;
    }
    assert exts[i..] == [] <==> i == |exts|;
    if i != |exts| {
      return Err(Truncated);
    }
    return Ok([]);
  }

  function EncodeRequest(ctx: Bytes, es: seq<Ext>): (full: Bytes)
    requires |ctx| < 256 && AllValid(es) && |EncodeExts(es)| < 0x1_0000
  {
    Msg(13, Vec8(ctx) + Vec16(EncodeExts(es))).Full()
  }

  /** What the server offers: the first signature_algorithms extension, nothing when there is none. */
  function Offered(es: seq<Ext>): (r: Result<Bytes, FlightError>)
  {
    if es == [] then Ok([])
    else if es[0].typ == 13 then Schemes(es[0].data)
    else Offered(es[1..])
  }

  lemma {:induction false} FindSchemesReads(es: seq<Ext>)
    requires AllValid(es)
    ensures FindSchemes(EncodeExts(es)) == Offered(es)
  {
    if es != [] {
      ExtReads(es[0], EncodeExts(es[1..]));
      FindSchemesReads(es[1..]);
    }
  }

  lemma SchemesExactly(data: Bytes, list: Bytes)
    ensures Schemes(data) == Ok(list) <==>
            2 <= |list| < 0x1_0000 && |list| % 2 == 0 && data == Vec16(list)
  {
    if 2 <= |list| < 0x1_0000 && data == Vec16(list) {
      U16Reads(|list|, list);
    }
  }

  lemma RequestFramed(ctx: Bytes, exts: Bytes)
    requires |ctx| < 256 && |exts| < 0x1_0000
    ensures var full := Msg(HS_CERTIFICATE_REQUEST, Vec8(ctx) + Vec16(exts)).Full();
            full[0] == HS_CERTIFICATE_REQUEST && full[4..] == Vec8(ctx) + Vec16(exts)
    ensures Vec16(exts) == U16(|exts|) + exts
  {
  }

  /** A CertificateRequest gives back its context and the first scheme list it carries. */
  lemma RequestReads(ctx: Bytes, es: seq<Ext>)
    requires |ctx| < 256 && AllValid(es) && |EncodeExts(es)| < 0x1_0000
    ensures RequestParts(EncodeRequest(ctx, es)) == Ok((ctx, EncodeExts(es)))
    ensures SigAlgs(EncodeRequest(ctx, es)) == Offered(es)
  {
    hide TakeVec8, Vec8, Vec16, TakeU16, U16, EncodeExts;
    var exts := EncodeExts(es);
    var full := EncodeRequest(ctx, es);
    RequestFramed(ctx, exts);
    Vec8Reads(ctx, Vec16(exts));
    U16Reads(|exts|, exts);
    FindSchemesReads(es);
  }

  /** The parts are read exactly off a framed request: its type, context and extension block, and nothing after. */
  lemma RequestExactly(full: Bytes, ctx: Bytes, exts: Bytes)
    ensures RequestParts(full) == Ok((ctx, exts)) <==>
            && |full| >= 4 && full[0] == 13 && |ctx| < 256 && |exts| < 0x1_0000
            && full[4..] == Vec8(ctx) + Vec16(exts)
  {
    hide TakeVec8, Vec8, TakeU16, U16;
    if RequestParts(full) == Ok((ctx, exts)) {
      var (c, more) := TakeVec8(full[4..]).value;
      assert more == U16(|exts|) + exts;
    }
    if |full| >= 4 && |ctx| < 256 && |exts| < 0x1_0000 && full[4..] == Vec8(ctx) + Vec16(exts) {
      Vec8Reads(ctx, Vec16(exts));
      U16Reads(|exts|, exts);
      assert Vec16(exts) == U16(|exts|) + exts;
    }
  }

  /** The schemes are those of the first signature_algorithms, whatever follows it, or none when the block has none;
      everything else is refused as truncated. */
  lemma {:induction false} SchemesFound(exts: Bytes) returns (before: seq<Ext>, rest: Bytes)
    ensures AllValid(before) && (forall i :: 0 <= i < |before| ==> before[i].typ != 13) && exts == EncodeExts(before) + rest
    ensures match FindSchemes(exts)
            case Err(e) => e == Truncated
            case Ok(list) =>
              if rest == [] then list == []
              else && 2 <= |list| < 0xFFFE && |list| % 2 == 0
                   && EncodeExt(Ext(13, Vec16(list))) <= rest
    decreases |exts|
  {
    hide NextExt, EncodeExt, Schemes, Vec16;
    before, rest := [], exts;
    assert EncodeExts([]) + exts == exts;
    if |exts| >= 4 && NextExt(exts).Some? {
      var (e, more) := NextExt(exts).value;
      if e.typ != 13 {
        before, rest := SchemesFound(more);
        assert ([e] + before)[1..] == before;
        assert EncodeExt(e) + (EncodeExts(before) + rest) == EncodeExt(e) + EncodeExts(before) + rest;
        before := [e] + before;
      } else {
        SchemesRefuse(e.data);
        if Schemes(e.data).Ok? {
          SchemesExactly(e.data, Schemes(e.data).value);
          assert e == Ext(13, Vec16(Schemes(e.data).value));
          assert exts == EncodeExt(e) + more;
        }
      }
    }
  }

  lemma SchemesRefuse(data: Bytes)
    ensures Schemes(data).Err? ==> Schemes(data).error == Truncated
  {
  }

  // ---- Certificate list ----

  datatype Entry = Entry(cert: Bytes, exts: Bytes) {
    predicate Valid() {
      |cert| < 0x100_0000 && |exts| < 0x1_0000
    }
  }

  predicate AllEntriesValid(es: seq<Entry>) {
    forall i :: 0 <= i < |es| ==> es[i].Valid()
  }

  function EncodeEntries(es: seq<Entry>): (b: Bytes)
    requires AllEntriesValid(es)
  {
    if es == [] then [] else Vec24(es[0].cert) + Vec16(es[0].exts) + EncodeEntries(es[1..])
  }

  function Certs(es: seq<Entry>): (cs: seq<Bytes>)
    ensures |cs| == |es|
  {
    if es == [] then [] else [es[0].cert] + Certs(es[1..])
  }

  /** The list walk, with the chain collected so far. The bound is tested before the extensions. */
  function WalkEntries(list: Bytes, chain: seq<Bytes>, max: nat): (r: Result<seq<Bytes>, FlightError>)
    decreases |list|
  {
    if list == [] then Ok(chain)
    else
      match TakeVec24(list)
      case None => Err(Truncated)
      case Some((cert, more)) =>
        if |more| < 2 then Err(Truncated)
        else if |chain| >= max then Err(CertChainTooLong)
        else
          match TakeVec16(more)
          case None => Err(Truncated)
          case Some((_, rest)) => WalkEntries(rest, chain + [cert], max)
  }

  function Chain(body: Bytes, max: nat): (r: Result<seq<Bytes>, FlightError>) {
    match TakeVec8(body)
    case None => Err(Truncated)
    case Some((_, more)) =>
      match TakeVec24(more)
      case None => Err(Truncated)
      case Some((list, _)) => WalkEntries(list, [], max)
  }

  method ExtractChain(body: Bytes, max: nat) returns (r: Result<seq<Bytes>, FlightError>)
    ensures r == Chain(body, max)
  {
    hide GetU24, TakeVec24, U24, Vec24, WalkEntries;
    if |body| == 0 {
      return Err(Truncated);
    }
    var afterCtx := 1 + body[0] as int;
    if |body| < afterCtx + 3 {
      return Err(Truncated);
    }
    assert TakeVec8(body) == Some((body[1..afterCtx], body[afterCtx..])) by {
      assert body[1..][..body[0]] == body[1..afterCtx];
      assert body[1..][body[0]..] == body[afterCtx..];
    }
    var listLen := GetU24(body, afterCtx);
    var listStart := afterCtx + 3;
    TakeVec24At(body, afterCtx);
    if listLen > |body| - listStart {
      return Err(Truncated);
    }
    var list := body[listStart..listStart + listLen];
    r := WalkList(list, max);
  }

  method WalkList(list: Bytes, max: nat) returns (r: Result<seq<Bytes>, FlightError>)
    ensures r == WalkEntries(list, [], max)
  {
    hide GetU16, GetU24, TakeVec16, TakeVec24, U16, U24, Vec16, Vec24;
    var chain: seq<Bytes> := [];
    var pos := 0;
    assert list[0..] == list;
    while pos < |list|
      invariant 0 <= pos <= |list|
      invariant WalkEntries(list, [], max) == WalkEntries(list[pos..], chain, max)
    {
      if |list| - pos < 3 {
        assert TakeVec24(list[pos..]).None?;
        return Err(Truncated);
      }
      var certLen := GetU24(list, pos);
      var certStart := pos + 3;
      TakeVec24At(list, pos);
      if |list| - certStart < certLen || |list| - certStart - certLen < 2 {
        return Err(Truncated);
      }
      var certEnd := certStart + certLen;
      if |chain| >= max {
        return Err(CertChainTooLong);
      }
      chain := chain + [list[certStart..certEnd]];
      var extsLen := GetU16(list, certEnd);
      TakeVec16At(list, certEnd);
      if |list| - certEnd - 2 < extsLen {
        return Err(Truncated);
      }
      pos := certEnd + 2 + extsLen;
    }
    return Ok(chain);
  }

  lemma NothingReads(chain: seq<Bytes>, max: nat)
    ensures WalkEntries([], chain, max) == Ok(chain)
  {
  }

  lemma EntryReads(e: Entry, rest: Bytes, chain: seq<Bytes>, max: nat)
    requires e.Valid()
    ensures WalkEntries(Vec24(e.cert) + Vec16(e.exts) + rest, chain, max)
         == if |chain| >= max then Err(CertChainTooLong) else WalkEntries(rest, chain + [e.cert], max)
  {
    hide TakeVec16, TakeVec24, Vec16, Vec24;
    var more := Vec16(e.exts) + rest;
    assert Vec24(e.cert) + Vec16(e.exts) + rest == Vec24(e.cert) + more;
    Vec24Reads(e.cert, more);
    Vec16Reads(e.exts, rest);
  }

  lemma {:induction false} WalkReads(es: seq<Entry>, chain: seq<Bytes>, max: nat)
    requires AllEntriesValid(es) && |chain| <= max
    ensures WalkEntries(EncodeEntries(es), chain, max)
         == if |chain| + |es| <= max then Ok(chain + Certs(es)) else Err(CertChainTooLong)
    decreases |es|
  {
    hide Vec16, Vec24, WalkEntries;
    if es == [] {
      assert chain + [] == chain;
      NothingReads(chain, max);
    } else {
      EntryReads(es[0], EncodeEntries(es[1..]), chain, max);
      if |chain| < max {
        WalkReads(es[1..], chain + [es[0].cert], max);
        assert chain + [es[0].cert] + Certs(es[1..]) == chain + Certs(es);
      }
    }
  }

  /**
   * Every serialized list is read whole or refused whole. Bytes after the list do not matter: the
   * code never looks past `list_len`.
   */
  lemma ChainReads(ctx: Bytes, es: seq<Entry>, after: Bytes, max: nat)
    requires |ctx| < 256 && AllEntriesValid(es) && |EncodeEntries(es)| < 0x100_0000
    ensures Chain(Vec8(ctx) + (Vec24(EncodeEntries(es)) + after), max)
         == if |es| <= max then Ok(Certs(es)) else Err(CertChainTooLong)
  {
    Vec8Reads(ctx, Vec24(EncodeEntries(es)) + after);
    Vec24Reads(EncodeEntries(es), after);
    WalkReads(es, [], max);
    assert [] + Certs(es) == Certs(es);
  }

  lemma {:induction false} WalkCanonical(list: Bytes, chain: seq<Bytes>, max: nat) returns (es: seq<Entry>)
    requires WalkEntries(list, chain, max).Ok? && |chain| <= max
    ensures AllEntriesValid(es) && EncodeEntries(es) == list
    ensures |chain| + |es| <= max && WalkEntries(list, chain, max).value == chain + Certs(es)
    decreases |list|
  {
    hide TakeVec16, TakeVec24, Vec16, Vec24;
    if list == [] {
      es := [];
      assert chain + [] == chain;
    } else {
      var (cert, more) := TakeVec24(list).value;
      var (exts, rest) := TakeVec16(more).value;
      var tail := WalkCanonical(rest, chain + [cert], max);
      es := [Entry(cert, exts)] + tail;
      assert es[1..] == tail;
      assert Vec24(cert) + Vec16(exts) + rest == list;
      assert chain + [cert] + Certs(tail) == chain + Certs(es);
    }
  }

  /** An accepted body is a serialized list of at most `max` entries, and the chain is its certificates. */
  lemma ChainCanonical(body: Bytes, max: nat) returns (ctx: Bytes, es: seq<Entry>, after: Bytes)
    requires Chain(body, max).Ok?
    ensures |ctx| < 256 && AllEntriesValid(es) && |EncodeEntries(es)| < 0x100_0000
    ensures body == Vec8(ctx) + (Vec24(EncodeEntries(es)) + after)
    ensures |es| <= max && Chain(body, max).value == Certs(es)
  {
    var (c, more) := TakeVec8(body).value;
    var (list, tail) := TakeVec24(more).value;
    ctx, after := c, tail;
    es := WalkCanonical(list, [], max);
    assert [] + Certs(es) == Certs(es);
  }
}
