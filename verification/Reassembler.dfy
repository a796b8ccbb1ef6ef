/** Multi-record server-flight reassembly: concatenation, end-of-flight detection, the EE peek. */
module Reassembler {
  import opened Bytes
  import opened Consts
  import opened Wire
  import opened ServerFlight

  datatype ReassemblyError = Overflow

  // ---- End of flight ----

  /** A flight: one Finished, at the end. */
  predicate IsFlight(ms: seq<Msg>) {
    && AllMsgsValid(ms)
    && |ms| > 0
    && ms[|ms| - 1].typ == 20
    && forall i :: 0 <= i < |ms| - 1 ==> ms[i].typ != 20
  }

  /** The messages up to the first complete Finished, if there is one. */
  function FlightMsgs(buf: Bytes): (r: Option<seq<Msg>>)
    decreases |buf|
  {
    match NextMsg(buf)
    case None => None
    case Some((m, rest)) =>
      if m.typ == HS_FINISHED then Some([m])
      else match FlightMsgs(rest) case None => None case Some(ms) => Some([m] + ms)
  }

  lemma {:induction false} FlightMsgsSound(buf: Bytes)
    requires FlightMsgs(buf).Some?
    ensures IsFlight(FlightMsgs(buf).value)
    ensures EncodeMsgs(FlightMsgs(buf).value) <= buf
    decreases |buf|
  {
    hide NextMsg, Vec24;
    var (m, rest) := NextMsg(buf).value;
    if m.typ == HS_FINISHED {
      EncodeMsgsCons(m, []);
      assert [m] + [] == [m] && m.Full() + [] == m.Full();
    } else {
      FlightMsgsSound(rest);
      EncodeMsgsCons(m, FlightMsgs(rest).value);
    }
  }

  lemma {:induction false} FlightMsgsComplete(ms: seq<Msg>, more: Bytes)
    requires IsFlight(ms)
    ensures FlightMsgs(EncodeMsgs(ms) + more) == Some(ms)
    decreases |ms|
  {
    hide NextMsg, Vec24;
    var rest := EncodeMsgs(ms[1..]) + more;
    assert EncodeMsgs(ms) + more == ms[0].Full() + rest;
    MsgReads(ms[0], rest);
    if |ms| > 1 {
      FlightMsgsComplete(ms[1..], more);
      assert [ms[0]] + ms[1..] == ms;
    } else {
      assert [ms[0]] == ms;
    }
  }

  /** The offset just past the first Finished. */
  function FlightEnd(buf: Bytes): (r: Option<nat>)
    ensures r.Some? ==> r.value <= |buf|
  {
    if FlightMsgs(buf).Some? then
      FlightMsgsSound(buf);
      Some(|EncodeMsgs(FlightMsgs(buf).value)|)
    else None
  }

  function FlightBytes(buf: Bytes): (r: Option<Bytes>) {
    match FlightEnd(buf)
    case None => None
    case Some(end) => Some(buf[..end])
  }

  /** The buffered prefix is a flight exactly when some flight, written out, starts the buffer. */
  lemma FlightExactly(buf: Bytes, ms: seq<Msg>)
    ensures FlightMsgs(buf) == Some(ms) <==> IsFlight(ms) && EncodeMsgs(ms) <= buf
    ensures FlightMsgs(buf) == Some(ms) ==> FlightBytes(buf) == Some(EncodeMsgs(ms))
  {
    hide FlightMsgs, EncodeMsgs;
    if FlightMsgs(buf) == Some(ms) {
      FlightMsgsSound(buf);
    }
    if IsFlight(ms) && EncodeMsgs(ms) <= buf {
      FlightMsgsComplete(ms, buf[|EncodeMsgs(ms)|..]);
      assert EncodeMsgs(ms) + buf[|EncodeMsgs(ms)|..] == buf;
    }
  }

  /** Once the flight is complete, what is pushed later changes nothing. */
  lemma FlightIsStable(buf: Bytes, more: Bytes)
    requires FlightBytes(buf).Some?
    ensures FlightBytes(buf + more) == FlightBytes(buf)
  {
    var ms := FlightMsgs(buf).value;
    FlightExactly(buf, ms);
    FlightExactly(buf + more, ms);
  }

  // ---- Chunks ----

  /** All the pushes of a run; one that does not fit fails the handshake. */
  function PushAll(buf: Bytes, capacity: nat, chunks: seq<Bytes>): (r: Result<Bytes, ReassemblyError>)
    decreases |chunks|
  {
    if chunks == [] then Ok(buf)
    else if |buf| + |chunks[0]| > capacity then Err(Overflow)
    else PushAll(buf + chunks[0], capacity, chunks[1..])
  }

  /** Reassembly sees only the concatenation of the chunks. */
  lemma {:induction false} ChunkingIrrelevant(buf: Bytes, capacity: nat, chunks: seq<Bytes>)
    requires |buf| <= capacity
    ensures PushAll(buf, capacity, chunks)
         == if |buf| + |Flatten(chunks)| <= capacity then Ok(buf + Flatten(chunks)) else Err(Overflow)
    decreases |chunks|
  {
    if chunks == [] {
      assert buf + [] == buf;
    } else if |buf| + |chunks[0]| <= capacity {
      ChunkingIrrelevant(buf + chunks[0], capacity, chunks[1..]);
      assert buf + chunks[0] + Flatten(chunks[1..]) == buf + Flatten(chunks);
    }
  }

  // ---- Agreement with the flight parser ----

  function Types(ms: seq<Msg>): (ts: seq<Byte>)
    ensures |ts| == |ms|
  {
    seq(|ms|, i requires 0 <= i < |ms| => ms[i].typ)
  }

  const PLAIN_ORDER: seq<Byte> :=
    [8, 11, 15, 20]
  const REQUEST_ORDER: seq<Byte> :=
    [8, 13, 11, 15, 20]

  /** The order a flight has to have, by its second message. */
  function OrderFor(ms: seq<Msg>): (order: seq<Byte>) {
    if |ms| > 1 && ms[1].typ == 13 then REQUEST_ORDER else PLAIN_ORDER
  }

  /** The first message out of order is the one reported, with the type that had to be there. */
  ghost predicate Misordered(r: Result<FlightView, FlightError>, ms: seq<Msg>, order: seq<Byte>) {
    exists i :: && 0 <= i < |ms| && i < |order| && (forall j :: 0 <= j < i ==> ms[j].typ == order[j])
                && ms[i].typ != order[i] && r == Err(UnexpectedHandshakeType(order[i], ms[i].typ))
  }

  /** On a flight suffix a parser step either reports the wrong type or consumes one message. */
  lemma ExpectInFlight(ms: seq<Msg>, typ: Byte)
    requires IsFlight(ms)
    ensures ms[0].Valid() && AllMsgsValid(ms[1..])
    ensures Expect(EncodeMsgs(ms), typ)
         == if ms[0].typ == typ then Ok((ms[0], EncodeMsgs(ms[1..])))
            else Err(UnexpectedHandshakeType(typ, ms[0].typ))
    ensures NextMsg(EncodeMsgs(ms)) == Some((ms[0], EncodeMsgs(ms[1..])))
    ensures ms[0].typ != HS_FINISHED ==> IsFlight(ms[1..])
    ensures ms[0].typ == HS_FINISHED ==> ms[1..] == [] && EncodeMsgs(ms[1..]) == []
  {
    hide NextMsg, Expect, Vec24;
    ExpectReads(ms[0], EncodeMsgs(ms[1..]), typ);
    MsgReads(ms[0], EncodeMsgs(ms[1..]));
  }

  lemma TailInFlight(ee: Msg, request: Option<Msg>, ms: seq<Msg>)
    requires IsFlight(ms)
    ensures Misordered(ParseTail(ee, request, EncodeMsgs(ms)), ms, [11, 15, 20])
         || (|ms| == 3 && ParseTail(ee, request, EncodeMsgs(ms)) == Ok(FlightView(ee, request, ms[0], ms[1], ms[2])))
  {
    hide EncodeMsgs, NextMsg, Expect, Misordered;
    var r := ParseTail(ee, request, EncodeMsgs(ms));
    ExpectInFlight(ms, HS_CERTIFICATE);
    if ms[0].typ != 11 {
      OutOfOrder(r, ms, [11, 15, 20], 0);
    } else {
      ExpectInFlight(ms[1..], HS_CERTIFICATE_VERIFY);
      if ms[1].typ != 15 {
        OutOfOrder(r, ms, [11, 15, 20], 1);
      } else {
        assert ms[1..][1..] == ms[2..];
        ExpectInFlight(ms[2..], HS_FINISHED);
        assert ms[2..][1..] == ms[3..];
        if ms[2].typ != 20 {
          OutOfOrder(r, ms, [11, 15, 20], 2);
        }
      }
    }
  }

  lemma MisorderedFails(r: Result<FlightView, FlightError>, ms: seq<Msg>, order: seq<Byte>)
    ensures Misordered(r, ms, order) ==> r.Err?
  {
  }

  lemma OutOfOrder(r: Result<FlightView, FlightError>, ms: seq<Msg>, order: seq<Byte>, i: nat)
    requires i < |ms| && i < |order| && (forall j :: 0 <= j < i ==> ms[j].typ == order[j]) && ms[i].typ != order[i]
    requires r == Err(UnexpectedHandshakeType(order[i], ms[i].typ))
    ensures Misordered(r, ms, order)
  {
  }

  /** A tail out of order is a flight out of order. */
  lemma MisorderedTail(r: Result<FlightView, FlightError>, ms: seq<Msg>, n: nat)
    requires n <= |ms| && n <= |OrderFor(ms)| && Misordered(r, ms[n..], OrderFor(ms)[n..])
    requires forall j :: 0 <= j < n ==> ms[j].typ == OrderFor(ms)[j]
    ensures Misordered(r, ms, OrderFor(ms))
  {
    var order := OrderFor(ms);
    var i :| && 0 <= i < |ms[n..]| && i < |order[n..]| && (forall j :: 0 <= j < i ==> ms[n..][j].typ == order[n..][j])
             && ms[n..][i].typ != order[n..][i] && r == Err(UnexpectedHandshakeType(order[n..][i], ms[n..][i].typ));
    forall j | 0 <= j < n + i
      ensures ms[j].typ == order[j]
    {
      if j >= n {
        assert ms[n..][j - n].typ == order[n..][j - n];
      }
    }
    assert ms[n + i] == ms[n..][i] && order[n + i] == order[n..][i];
  }

  /**
   * What reassembly hands over, the strict parser never finds truncated or over-long: it is either
   * the two legal message orders or a message of the wrong type.
   */
  lemma ParseOfFlight(buf: Bytes)
    requires FlightBytes(buf).Some?
    ensures var r := ParseFlight(FlightBytes(buf).value);
            && FlightMsgs(buf).Some?
            && (r.Ok? <==> Types(FlightMsgs(buf).value) in [PLAIN_ORDER, REQUEST_ORDER])
            && (r.Ok? ==> r.value.Messages() == FlightMsgs(buf).value)
            && (r.Err? ==> Misordered(r, FlightMsgs(buf).value, OrderFor(FlightMsgs(buf).value)))
  {
    hide EncodeMsgs, NextMsg, Expect, ParseTail;
    var ms := FlightMsgs(buf).value;
    FlightExactly(buf, ms);
    ParseOfMsgs(ms);
  }

  lemma OrderReported(ms: seq<Msg>)
    requires IsFlight(ms)
    ensures var r := ParseFlight(EncodeMsgs(ms));
            if r.Ok? then r.value.Messages() == ms else Misordered(r, ms, OrderFor(ms))
  {
    hide EncodeMsgs, NextMsg, Expect, ParseTail, Misordered;
    var r := ParseFlight(EncodeMsgs(ms));
    ExpectInFlight(ms, HS_ENCRYPTED_EXTENSIONS);
    if ms[0].typ != 8 {
      OutOfOrder(r, ms, OrderFor(ms), 0);
    } else {
      ExpectInFlight(ms[1..], HS_CERTIFICATE_REQUEST);
      if ms[1].typ == 13 {
        assert ms[1..][1..] == ms[2..];
        TailInFlight(ms[0], Some(ms[1]), ms[2..]);
        assert REQUEST_ORDER[2..] == [11, 15, 20];
        if r.Err? {
          MisorderedTail(r, ms, 2);
        } else {
          MisorderedFails(r, ms[2..], [11, 15, 20]);
        }
      } else {
        TailInFlight(ms[0], None, ms[1..]);
        assert PLAIN_ORDER[1..] == [11, 15, 20];
        if r.Err? {
          MisorderedTail(r, ms, 1);
        } else {
          MisorderedFails(r, ms[1..], [11, 15, 20]);
        }
      }
    }
  }

  lemma ParseOfMsgs(ms: seq<Msg>)
    requires IsFlight(ms)
    ensures var r := ParseFlight(EncodeMsgs(ms));
            && (r.Ok? <==> Types(ms) in [PLAIN_ORDER, REQUEST_ORDER])
            && (r.Ok? ==> r.value.Messages() == ms)
            && (r.Err? ==> Misordered(r, ms, OrderFor(ms)))
  {
    hide EncodeMsgs, NextMsg, Expect, ParseTail, Types, Misordered, OrderFor, ParseFlight;
    OrderReported(ms);
    var r := ParseFlight(EncodeMsgs(ms));
    if r.Ok? {
      ParsedExactly(EncodeMsgs(ms), r.value);
      assert r.value.Messages() == ms;
      ViewOrder(r.value);
    }
    if Types(ms) in [PLAIN_ORDER, REQUEST_ORDER] {
      OrderedParses(ms);
    }
  }

  lemma ViewOrder(v: FlightView)
    requires v.Valid()
    ensures Types(v.Messages()) in [PLAIN_ORDER, REQUEST_ORDER]
  {
    assert Types(v.Messages()) == if v.request.Some? then REQUEST_ORDER else PLAIN_ORDER;
  }

  lemma OrderedParses(ms: seq<Msg>)
    requires AllMsgsValid(ms) && Types(ms) in [PLAIN_ORDER, REQUEST_ORDER]
    ensures ParseFlight(EncodeMsgs(ms)).Ok?
  {
    hide ParseFlight, EncodeMsgs;
    assert forall i :: 0 <= i < |ms| ==> Types(ms)[i] == ms[i].typ;
    var v := if Types(ms) == PLAIN_ORDER then FlightView(ms[0], None, ms[1], ms[2], ms[3])
             else FlightView(ms[0], Some(ms[1]), ms[2], ms[3], ms[4]);
    assert v.Messages() == ms;
    ParseUndoesFlight(v);
  }

  // ---- The record_size_limit peek ----

  /** Walks the extensions of EncryptedExtensions. */
  function ScanLimit(rest: Bytes, found: Option<nat>): (r: Result<Option<nat>, FlightError>)
    decreases |rest|
  {
    if rest == [] then Ok(found)
    else
      match NextExt(rest)
      case None => Err(Truncated)
      case Some((e, more)) =>
        if e.typ != EXT_RECORD_SIZE_LIMIT then ScanLimit(more, found)
        else if |e.data| != 2 then Err(Truncated)
        else if found.Some? then Err(DuplicateExtension(e.typ))
        else ScanLimit(more, Some(GetU16(e.data, 0)))
  }

  function LimitOf(body: Bytes): (r: Result<Option<nat>, FlightError>) {
    match TakeVec16(body)
    case None => Err(Truncated)
    case Some((exts, after)) => if after != [] then Err(Truncated) else ScanLimit(exts, None)
  }

  function PeekLimit(buf: Bytes): (r: Result<Option<nat>, FlightError>) {
    match FlightMsgs(buf)
    case None => Err(Truncated)
    case Some(ms) =>
      FlightMsgsSound(buf);
      if ms[0].typ != HS_ENCRYPTED_EXTENSIONS
      then Err(UnexpectedHandshakeType(HS_ENCRYPTED_EXTENSIONS, ms[0].typ))
      else LimitOf(ms[0].body)
  }

  /** The payloads of the record_size_limit extensions, in order. */
  function Limits(es: seq<Ext>): (ls: seq<Bytes>) {
    if es == [] then []
    else if es[0].typ == 28 then [es[0].data] + Limits(es[1..])
    else Limits(es[1..])
  }

  /** A value is found once: the payloads are exactly the two bytes of it. */
  predicate Single(ls: seq<Bytes>, found: Option<nat>) {
    match found
    case None => ls == []
    case Some(n) => n < 0x1_0000 && ls == [U16(n)]
  }

  lemma U16Injective(m: nat, n: nat)
    requires m < 0x1_0000 && n < 0x1_0000 && U16(m) == U16(n)
    ensures m == n
  {
    U16Reads(m, []);
    U16Reads(n, []);
  }

  lemma {:induction false} ScanReads(es: seq<Ext>, found: Option<nat>, out: Option<nat>)
    requires AllValid(es)
    ensures ScanLimit(EncodeExts(es), found) == Ok(out) <==>
            if found.Some? then Limits(es) == [] && out == found else Single(Limits(es), out)
    decreases |es|
  {
    hide NextExt, EncodeExt, GetU16;
    if es != [] {
      var e, more := es[0], EncodeExts(es[1..]);
      ExtReads(e, more);
      ScanReads(es[1..], found, out);
      if e.typ == EXT_RECORD_SIZE_LIMIT && |e.data| == 2 {
        var n := GetU16(e.data, 0);
        assert e.data[0..2] == e.data;
        ScanReads(es[1..], Some(n), out);
        assert U16(n) == e.data;
        if Single(Limits(es), out) {
          assert Limits(es)[0] == e.data;
          U16Injective(out.value, n);
        }
      }
    }
  }

  lemma {:induction false} ScanCanonical(rest: Bytes, found: Option<nat>) returns (es: seq<Ext>)
    requires ScanLimit(rest, found).Ok?
    ensures AllValid(es) && EncodeExts(es) == rest
    decreases |rest|
  {
    hide NextExt, EncodeExt, GetU16;
    if rest == [] {
      es := [];
    } else {
      var (e, more) := NextExt(rest).value;
      var tail := ScanCanonical(more, if e.typ == EXT_RECORD_SIZE_LIMIT then Some(GetU16(e.data, 0)) else found);
      es := [e] + tail;
      assert es[1..] == tail;
    }
  }

  /** The peek reports a limit exactly when the block is well formed and carries it once, none when it carries none. */
  lemma LimitExactly(es: seq<Ext>, out: Option<nat>)
    requires AllValid(es) && |EncodeExts(es)| < 0x1_0000
    ensures LimitOf(Vec16(EncodeExts(es))) == Ok(out) <==> Single(Limits(es), out)
  {
    hide TakeVec16, Vec16;
    var exts := EncodeExts(es);
    Vec16Reads(exts, []);
    assert Vec16(exts) + [] == Vec16(exts);
    ScanReads(es, None, out);
  }

  /** Of the limits in a well-formed block the first that is not two bytes is truncated, and a second is a duplicate. */
  lemma {:induction false} ScanRefused(es: seq<Ext>, found: Option<nat>)
    requires AllValid(es)
    ensures var ls := Limits(es);
            ScanLimit(EncodeExts(es), found).Err? ==>
              ScanLimit(EncodeExts(es), found).error
                == if |ls| >= 1 && |ls[0]| == 2 && (found.Some? || (|ls| >= 2 && |ls[1]| == 2)) then DuplicateExtension(28)
                   else Truncated
    decreases |es|
  {
    hide NextExt, EncodeExt, GetU16;
    if es != [] {
      var e := es[0];
      ExtReads(e, EncodeExts(es[1..]));
      ScanRefused(es[1..], found);
      if e.typ == 28 && |e.data| == 2 {
        ScanRefused(es[1..], Some(GetU16(e.data, 0)));
        assert Limits(es)[1..] == Limits(es[1..]);
      }
    }
  }

  /** The peek needs a complete flight that starts in EncryptedExtensions. */
  lemma PeekRefused(buf: Bytes)
    ensures FlightMsgs(buf).None? ==> PeekLimit(buf) == Err(Truncated)
    ensures FlightMsgs(buf).Some? ==>
              && FlightMsgs(buf).value != []
              && var first := FlightMsgs(buf).value[0];
                 && (first.typ != 8 ==> PeekLimit(buf) == Err(UnexpectedHandshakeType(8, first.typ)))
                 && (first.typ == 8 ==> PeekLimit(buf) == LimitOf(first.body))
  {
    if FlightMsgs(buf).Some? {
      FlightMsgsSound(buf);
    }
  }

  lemma LimitCanonical(body: Bytes) returns (es: seq<Ext>)
    requires LimitOf(body).Ok?
    ensures AllValid(es) && |EncodeExts(es)| < 0x1_0000 && body == Vec16(EncodeExts(es))
  {
    hide TakeVec16, Vec16;
    var (exts, after) := TakeVec16(body).value;
    es := ScanCanonical(exts, None);
    assert Vec16(exts) + [] == Vec16(exts);
  }

  // ---- The accumulator ----

  class ServerFlightReassembler {
    const capacity: nat
    var buf: Bytes

    ghost predicate Valid()
      reads this
    {
      |buf| <= capacity
    }

    constructor (capacity: nat)
      ensures Valid() && this.capacity == capacity && buf == []
    {
      this.capacity := capacity;
      buf := [];
    }

    method Clear()
      modifies this
      ensures Valid() && buf == []
    {
      buf := [];
    }

    /** All or nothing. */
    method PushContent(content: Bytes) returns (r: Result<(), ReassemblyError>)
      requires Valid()
      modifies this
      ensures Valid()
      ensures r.Ok? <==> |old(buf)| + |content| <= capacity
      ensures buf == if r.Ok? then old(buf) + content else old(buf)
    {
      if |buf| + |content| > capacity {
        return Err(Overflow);
      }
      buf := buf + content;
      return Ok(());
    }

    method FlightEndOffset() returns (r: Option<nat>)
      ensures r == FlightEnd(buf)
    {
      hide NextMsg, GetU24, FlightEnd, Walked;
      var i := 0;
      ghost var done: seq<Msg> := [];
      WalkStarts(buf);
      while i + 4 <= |buf|
        invariant 0 <= i <= |buf| && Walked(buf, i, done)
      {
        var typ := buf[i];
        var len := GetU24(buf, i + 1);
        NextMsgAt(buf, i);
        if len > |buf| - i - 4 {
          WalkStops(buf, i, done);
          return None;
        }
        ghost var m := Msg(typ, buf[i + 4..i + 4 + len]);
        WalkSteps(buf, i, done, m);
        done := done + [m];
        i := i + 4 + len;
        if typ == HS_FINISHED {
          return Some(i);
        }
      }
      WalkStops(buf, i, done);
      return None;
    }

    method GetFlightBytes() returns (r: Option<Bytes>)
      ensures r == FlightBytes(buf)
    {
      var end := FlightEndOffset();
      if end.None? {
        return None;
      }
      return Some(buf[..end.value]);
    }

    method IsComplete() returns (b: bool)
      ensures b == FlightMsgs(buf).Some?
    {
      var end := FlightEndOffset();
      b := end.Some?;
    }

    method PeekEeRecordSizeLimit() returns (r: Result<Option<nat>, FlightError>)
      ensures r == PeekLimit(buf)
    {
      var flight := GetFlightBytes();
      if flight.None? {
        return Err(Truncated);
      }
      var b := flight.value;
      ghost var ms := FlightMsgs(buf).value;
      PeekStart(buf);
      if |b| < 4 {
        return Err(Truncated);
      }
      if b[0] != HS_ENCRYPTED_EXTENSIONS {
        return Err(UnexpectedHandshakeType(HS_ENCRYPTED_EXTENSIONS, b[0]));
      }
      var len := GetU24(b, 1);
      if |b| < 4 + len {
        return Err(Truncated);
      }
      var body := b[4..4 + len];
      r := ScanBody(body);
    }
  }

  /** The first message of a flight is where the peek looks for it. */
  lemma PeekStart(buf: Bytes)
    requires FlightBytes(buf).Some?
    ensures FlightMsgs(buf).Some? && |FlightMsgs(buf).value| > 0
    ensures var b, m := FlightBytes(buf).value, FlightMsgs(buf).value[0];
            |b| >= 4 && b[0] == m.typ && |b| >= 4 + GetU24(b, 1) && b[4..4 + GetU24(b, 1)] == m.body
  {
    hide NextMsg, GetU24, Vec24, U24;
    var ms := FlightMsgs(buf).value;
    FlightExactly(buf, ms);
    var b := FlightBytes(buf).value;
    var rest := EncodeMsgs(ms[1..]);
    MsgReads(ms[0], rest);
    assert b[0..] == b;
    NextMsgAt(b, 0);
  }

  /** The offset walk has passed `done`, none of them Finished. */
  ghost predicate Walked(buf: Bytes, i: nat, done: seq<Msg>) {
    && i <= |buf| && AllMsgsValid(done) && EncodeMsgs(done) == buf[..i]
    && FlightMsgs(buf) == match FlightMsgs(buf[i..]) case None => None case Some(ms) => Some(done + ms)
  }

  lemma WalkStarts(buf: Bytes)
    ensures Walked(buf, 0, [])
  {
    assert buf[0..] == buf;
    assert forall ms: seq<Msg> :: [] + ms == ms;
  }

  lemma WalkStops(buf: Bytes, i: nat, done: seq<Msg>)
    requires Walked(buf, i, done) && NextMsg(buf[i..]).None?
    ensures FlightEnd(buf) == None
  {
  }

  lemma WalkSteps(buf: Bytes, i: nat, done: seq<Msg>, m: Msg)
    requires Walked(buf, i, done) && NextMsg(buf[i..]).Some? && NextMsg(buf[i..]).value.0 == m
    ensures m.typ == HS_FINISHED ==> FlightEnd(buf) == Some(i + 4 + |m.body|)
    ensures m.typ != HS_FINISHED ==> Walked(buf, i + 4 + |m.body|, done + [m])
  {
    hide NextMsg, EncodeMsgs, IsFlight, AllMsgsValid;
    var end := i + 4 + |m.body|;
    var rest := NextMsg(buf[i..]).value.1;
    assert buf[i..][|m.Full()|..] == rest == buf[end..];
    assert buf[i..][..|m.Full()|] == m.Full() == buf[i..end];
    EncodeMsgsSnoc(done, m);
    assert buf[..i] + buf[i..end] == buf[..end];
    if FlightMsgs(rest).Some? {
      assert done + ([m] + FlightMsgs(rest).value) == done + [m] + FlightMsgs(rest).value;
    }
  }

  lemma {:induction false} EncodeMsgsSnoc(ms: seq<Msg>, m: Msg)
    requires AllMsgsValid(ms) && m.Valid()
    ensures AllMsgsValid(ms + [m]) && EncodeMsgs(ms + [m]) == EncodeMsgs(ms) + m.Full()
    decreases |ms|
  {
    if ms == [] {
      EncodeMsgsCons(m, []);
      assert [] + [m] == [m] + [] && m.Full() + [] == [] + m.Full();
    } else {
      EncodeMsgsSnoc(ms[1..], m);
      assert (ms + [m])[1..] == ms[1..] + [m];
    }
  }

  method ScanBody(body: Bytes) returns (r: Result<Option<nat>, FlightError>)
    ensures r == LimitOf(body)
  {
    hide NextExt, GetU16, TakeVec16, Vec16, U16;
    if |body| < 2 {
      return Err(Truncated);
    }
    var total := GetU16(body, 0);
    TakeVec16At(body, 0);
    assert body[0..] == body;
    if |body| != 2 + total {
      return Err(Truncated);
    }
    var rest := body[2..];
    assert body[2..2 + total] == rest;
    var found: Option<nat> := None;
    while rest != []
      invariant LimitOf(body) == ScanLimit(rest, found)
      decreases |rest|
    {
      if |rest| < 4 {
        assert NextExt(rest).None?;
        return Err(Truncated);
      }
      var typ := GetU16(rest, 0);
      var len := GetU16(rest, 2);
      NextExtAt(rest, 0);
      assert rest[0..] == rest;
      if |rest| < 4 + len {
        return Err(Truncated);
      }
      var data := rest[4..4 + len];
      if typ == EXT_RECORD_SIZE_LIMIT {
        if |data| != 2 {
          return Err(Truncated);
        }
        if found.Some? {
          return Err(DuplicateExtension(typ));
        }
        found := Some(GetU16(data, 0));
      }
      rest := rest[4 + len..];
    }
    return Ok(found);
  }
}
