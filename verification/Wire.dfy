/** TLS presentation-language pieces: length-prefixed vectors, extensions, handshake messages. */
module Wire {
  import opened Bytes

  // ---- Vectors ----

  function Vec8(v: Bytes): (b: Bytes)
    requires |v| < 256
    ensures |b| == 1 + |v|
  {
    [|v|] + v
  }

  function Vec16(v: Bytes): (b: Bytes)
    requires |v| < 0x1_0000
    ensures |b| == 2 + |v|
  {
    U16(|v|) + v
  }

  function Vec24(v: Bytes): (b: Bytes)
    requires |v| < 0x100_0000
    ensures |b| == 3 + |v|
  {
    U24(|v|) + v
  }

  /** The first `n` bytes and the rest. */
  function Take(buf: Bytes, n: nat): (r: Option<(Bytes, Bytes)>)
    ensures r.Some? <==> n <= |buf|
    ensures r.Some? ==> |r.value.0| == n && r.value.0 + r.value.1 == buf
  {
    if |buf| < n then None else Some((buf[..n], buf[n..]))
  }

  function TakeU8(buf: Bytes): (r: Option<(Byte, Bytes)>)
    ensures r.Some? ==> [r.value.0] + r.value.1 == buf
  {
    if |buf| < 1 then None else Some((buf[0], buf[1..]))
  }

  function TakeU16(buf: Bytes): (r: Option<(nat, Bytes)>)
    ensures r.Some? ==> r.value.0 < 0x1_0000 && U16(r.value.0) + r.value.1 == buf
  {
    if |buf| < 2 then None
    else
      assert buf[0..2] + buf[2..] == buf;
      Some((GetU16(buf, 0), buf[2..]))
  }

  function TakeU24(buf: Bytes): (r: Option<(nat, Bytes)>)
    ensures r.Some? ==> r.value.0 < 0x100_0000 && U24(r.value.0) + r.value.1 == buf
  {
    if |buf| < 3 then None
    else
      assert buf[0..3] + buf[3..] == buf;
      Some((GetU24(buf, 0), buf[3..]))
  }

  function TakeVec8(buf: Bytes): (r: Option<(Bytes, Bytes)>)
    ensures r.Some? ==> |r.value.0| < 256 && Vec8(r.value.0) + r.value.1 == buf
    ensures r.Some? ==> |buf| == 1 + |r.value.0| + |r.value.1|
  {
    match TakeU8(buf)
    case None => None
    case Some((n, rest)) => Take(rest, n)
  }

  function TakeVec16(buf: Bytes): (r: Option<(Bytes, Bytes)>)
    ensures r.Some? ==> |r.value.0| < 0x1_0000 && Vec16(r.value.0) + r.value.1 == buf
    ensures r.Some? ==> |buf| == 2 + |r.value.0| + |r.value.1|
  {
    match TakeU16(buf)
    case None => None
    case Some((n, rest)) => Take(rest, n)
  }

  function TakeVec24(buf: Bytes): (r: Option<(Bytes, Bytes)>)
    ensures r.Some? ==> |r.value.0| < 0x100_0000 && Vec24(r.value.0) + r.value.1 == buf
    ensures r.Some? ==> |buf| == 3 + |r.value.0| + |r.value.1|
  {
    match TakeU24(buf)
    case None => None
    case Some((n, rest)) => Take(rest, n)
  }

  lemma TakeConcat(v: Bytes, rest: Bytes)
    ensures Take(v + rest, |v|) == Some((v, rest))
  {
  }

  lemma U16Reads(n: nat, rest: Bytes)
    requires n < 0x1_0000
    ensures TakeU16(U16(n) + rest) == Some((n, rest))
  {
    var b := U16(n) + rest;
    assert b[2..] == rest && b[0] == n / 256 && b[1] == n % 256;
  }

  lemma U24Reads(n: nat, rest: Bytes)
    requires n < 0x100_0000
    ensures TakeU24(U24(n) + rest) == Some((n, rest))
  {
    var b := U24(n) + rest;
    assert b[3..] == rest && b[0] == n / 0x1_0000 && b[1] == n % 0x1_0000 / 256 && b[2] == n % 0x1_0000 % 256;
  }

  lemma Vec8Reads(v: Bytes, rest: Bytes)
    requires |v| < 256
    ensures TakeVec8(Vec8(v) + rest) == Some((v, rest))
  {
    var b := Vec8(v) + rest;
    assert b[1..] == v + rest;
    TakeConcat(v, rest);
  }

  lemma Vec16Reads(v: Bytes, rest: Bytes)
    requires |v| < 0x1_0000
    ensures TakeVec16(Vec16(v) + rest) == Some((v, rest))
  {
    assert Vec16(v) + rest == U16(|v|) + (v + rest);
    U16Reads(|v|, v + rest);
    TakeConcat(v, rest);
  }

  lemma Vec24Reads(v: Bytes, rest: Bytes)
    requires |v| < 0x100_0000
    ensures TakeVec24(Vec24(v) + rest) == Some((v, rest))
  {
    assert Vec24(v) + rest == U24(|v|) + (v + rest);
    U24Reads(|v|, v + rest);
    TakeConcat(v, rest);
  }

  // The same readers at an offset, as the indexed loops use them.

  lemma TakeAt(buf: Bytes, pos: nat, n: nat)
    requires pos <= |buf|
    ensures Take(buf[pos..], n) == if n > |buf| - pos then None else Some((buf[pos..pos + n], buf[pos + n..]))
  {
    if n <= |buf| - pos {
      assert buf[pos..][..n] == buf[pos..pos + n] && buf[pos..][n..] == buf[pos + n..];
    }
  }

  lemma TakeU16At(buf: Bytes, pos: nat)
    requires pos + 2 <= |buf|
    ensures TakeU16(buf[pos..]) == Some((GetU16(buf, pos), buf[pos + 2..]))
  {
    assert buf[pos..][0] == buf[pos] && buf[pos..][1] == buf[pos + 1] && buf[pos..][2..] == buf[pos + 2..];
  }

  lemma TakeU24At(buf: Bytes, pos: nat)
    requires pos + 3 <= |buf|
    ensures TakeU24(buf[pos..]) == Some((GetU24(buf, pos), buf[pos + 3..]))
  {
    var rest := buf[pos..];
    assert rest[0..3] == buf[pos..pos + 3] && rest[3..] == buf[pos + 3..];
    assert rest[0] == buf[pos] && rest[1] == buf[pos + 1] && rest[2] == buf[pos + 2];
  }

  lemma TakeVec16At(buf: Bytes, pos: nat)
    requires pos + 2 <= |buf|
    ensures var n := GetU16(buf, pos);
            TakeVec16(buf[pos..])
              == if n > |buf| - pos - 2 then None else Some((buf[pos + 2..pos + 2 + n], buf[pos + 2 + n..]))
  {
    hide U16, GetU16, TakeU16;
    TakeU16At(buf, pos);
    TakeAt(buf, pos + 2, GetU16(buf, pos));
  }

  lemma TakeVec24At(buf: Bytes, pos: nat)
    requires pos + 3 <= |buf|
    ensures var n := GetU24(buf, pos);
            TakeVec24(buf[pos..])
              == if n > |buf| - pos - 3 then None else Some((buf[pos + 3..pos + 3 + n], buf[pos + 3 + n..]))
  {
    hide U24, GetU24, TakeU24;
    TakeU24At(buf, pos);
    TakeAt(buf, pos + 3, GetU24(buf, pos));
  }

  // ---- Extensions ----

  datatype Ext = Ext(typ: nat, data: Bytes) {
    predicate Valid() {
      typ < 0x1_0000 && |data| < 0x1_0000
    }
  }

  function EncodeExt(e: Ext): (b: Bytes)
    requires e.Valid()
    ensures |b| == 4 + |e.data|
  {
    U16(e.typ) + Vec16(e.data)
  }

  predicate AllValid(es: seq<Ext>) {
    forall i :: 0 <= i < |es| ==> es[i].Valid()
  }

  function EncodeExts(es: seq<Ext>): (b: Bytes)
    requires AllValid(es)
  {
    if es == [] then [] else EncodeExt(es[0]) + EncodeExts(es[1..])
  }

  function NextExt(buf: Bytes): (r: Option<(Ext, Bytes)>)
    ensures r.Some? ==> r.value.0.Valid() && EncodeExt(r.value.0) + r.value.1 == buf
    ensures r.Some? ==> |r.value.1| < |buf|
  {
    match TakeU16(buf)
    case None => None
    case Some((typ, more)) =>
      match TakeVec16(more)
      case None => None
      case Some((data, rest)) =>
        assert U16(typ) + (Vec16(data) + rest) == EncodeExt(Ext(typ, data)) + rest;
        Some((Ext(typ, data), rest))
  }

  lemma NextExtAt(buf: Bytes, pos: nat)
    requires pos + 4 <= |buf|
    ensures var n := GetU16(buf, pos + 2);
            NextExt(buf[pos..])
              == if n > |buf| - pos - 4 then None
                 else Some((Ext(GetU16(buf, pos), buf[pos + 4..pos + 4 + n]), buf[pos + 4 + n..]))
  {
    hide U16, GetU16, TakeU16, TakeVec16, Vec16;
    TakeU16At(buf, pos);
    TakeVec16At(buf, pos + 2);
  }

  lemma ExtReads(e: Ext, rest: Bytes)
    requires e.Valid()
    ensures NextExt(EncodeExt(e) + rest) == Some((e, rest))
  {
    assert EncodeExt(e) + rest == U16(e.typ) + (Vec16(e.data) + rest);
    U16Reads(e.typ, Vec16(e.data) + rest);
    Vec16Reads(e.data, rest);
  }

  // ---- Handshake messages ----

  datatype Msg = Msg(typ: Byte, body: Bytes) {
    predicate Valid() {
      |body| < 0x100_0000
    }

    /** Header and body. */
    function Full(): (b: Bytes)
      requires Valid()
      ensures |b| == 4 + |body|
    {
      [typ] + Vec24(body)
    }
  }

  function NextMsg(buf: Bytes): (r: Option<(Msg, Bytes)>)
    ensures r.Some? ==> r.value.0.Valid() && r.value.0.Full() + r.value.1 == buf
    ensures r.Some? ==> |r.value.1| + 4 <= |buf|
  {
    if |buf| < 4 then None
    else
      match TakeVec24(buf[1..])
      case None => None
      case Some((body, rest)) =>
        assert [buf[0]] + (Vec24(body) + rest) == buf;
        Some((Msg(buf[0], body), rest))
  }

  lemma NextMsgAt(buf: Bytes, pos: nat)
    requires pos + 4 <= |buf|
    ensures var n := GetU24(buf, pos + 1);
            NextMsg(buf[pos..])
              == if n > |buf| - pos - 4 then None
                 else Some((Msg(buf[pos], buf[pos + 4..pos + 4 + n]), buf[pos + 4 + n..]))
  {
    hide U24, GetU24, TakeVec24, Vec24;
    assert buf[pos..][1..] == buf[pos + 1..];
    TakeVec24At(buf, pos + 1);
  }

  lemma MsgReads(m: Msg, rest: Bytes)
    requires m.Valid()
    ensures NextMsg(m.Full() + rest) == Some((m, rest))
  {
    var buf := m.Full() + rest;
    assert buf[1..] == Vec24(m.body) + rest;
    Vec24Reads(m.body, rest);
  }
}
