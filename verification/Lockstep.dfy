/** Two endpoints over whole conversations: any legal stream of application data, session
    tickets and KeyUpdates, fragmented in any way, keeps both ends on the same keys. */
module Lockstep {
  import opened Bytes
  import opened Consts
  import opened Aead
  import opened KeySchedule
  import opened Channel
  import opened Engine

  /** What a peer sends: application data, or a run of post-handshake messages (tickets,
      then possibly a KeyUpdate) cut into record-sized fragments. */
  datatype Item =
    | App(data: Bytes)
    | Burst(tickets: seq<Bytes>, update: Option<bool>, fragments: seq<Bytes>)

  function TicketBytes(body: Bytes): Bytes
    requires |body| < 0x100_0000
  {
    [HS_NEW_SESSION_TICKET] + U24(|body|) + body
  }

  function BurstBytes(tickets: seq<Bytes>, update: Option<bool>): Bytes
    requires forall t :: t in tickets ==> |t| < 0x100_0000
  {
    if tickets != [] then TicketBytes(tickets[0]) + BurstBytes(tickets[1..], update)
    else if update.Some? then KeyUpdateMessage(update.value)
    else []
  }

  predicate Fits(limit: nat, content: Bytes) {
    |content| + CONTENT_TYPE_LEN <= limit && |content| <= TLS_PLAINTEXT_MAX
  }

  predicate AllFit(limit: nat, contents: seq<Bytes>) {
    forall i :: 0 <= i < |contents| ==> Fits(limit, contents[i])
  }

  /** Sections 4.6.3 and 5.1 of RFC 8446 and section 4 of RFC 8449: within the receiver's
      limit, a burst's fragments join to its messages, a KeyUpdate ends its record. */
  predicate Legal(limit: nat, item: Item) {
    match item
    case App(data) => Fits(limit, data)
    case Burst(tickets, update, fragments) =>
      && (forall t :: t in tickets ==> |t| < 0x100_0000)
      && AllFit(limit, fragments)
      && Flatten(fragments) == BurstBytes(tickets, update)
      && (update.Some? ==> fragments != [] && fragments[|fragments| - 1] != [])
  }

  predicate AllLegal(limit: nat, items: seq<Item>) {
    forall i :: 0 <= i < |items| ==> Legal(limit, items[i])
  }

  // ---- The sending end ----

  function SendAll(su: Suite, limit: nat, side: Side, contents: seq<Bytes>, ct: Byte): (r: (seq<Bytes>, Side))
    requires side.Valid() && AllFit(limit, contents)
    ensures r.1.Valid() && |r.0| == |contents|
    decreases |contents|
  {
    if contents == [] then ([], side)
    else
      var record := SealRecord(su.cipher, side.keys, side.seqNo, contents[0], ct);
      var (records, end) := SendAll(su, limit, side.Bump(), contents[1..], ct);
      ([record] + records, end)
  }

  lemma SendAllOne(su: Suite, limit: nat, side: Side, content: Bytes, ct: Byte)
    requires side.Valid() && Fits(limit, content)
    ensures SendAll(su, limit, side, [content], ct)
            == ([SealRecord(su.cipher, side.keys, side.seqNo, content, ct)], side.Bump())
  {
    assert [content][1..] == [];
    var record := SealRecord(su.cipher, side.keys, side.seqNo, content, ct);
    assert [record] + [] == [record];
  }

  /** Records of one item and the side left behind; a KeyUpdate rotates after its record. */
  function SendItem(su: Suite, limit: nat, side: Side, item: Item): (r: Result<(seq<Bytes>, Side), ChannelError>)
    requires Good(su) && side.Valid() && Legal(limit, item)
    ensures r.Ok? ==> r.value.1.Valid()
  {
    match item
    case App(data) => Ok(SendAll(su, limit, side, [data], CT_APPLICATION_DATA))
    case Burst(_, update, fragments) =>
      var (records, end) := SendAll(su, limit, side, fragments, CT_HANDSHAKE);
      if update.None? then Ok((records, end))
      else
        var next :- Rotate(su, end);
        Ok((records, next))
  }

  function SendScript(su: Suite, limit: nat, side: Side, items: seq<Item>): (r: Result<(seq<Bytes>, Side), ChannelError>)
    requires Good(su) && side.Valid() && AllLegal(limit, items)
    ensures r.Ok? ==> r.value.1.Valid()
    decreases |items|
  {
    if items == [] then Ok(([], side))
    else
      var (first, middle) :- SendItem(su, limit, side, items[0]);
      var (rest, end) :- SendScript(su, limit, middle, items[1..]);
      Ok((first + rest, end))
  }

  // ---- The receiving end ----

  predicate Framed(records: seq<Bytes>) {
    forall r :: r in records ==> |r| >= RECORD_HEADER
  }

  function Run(su: Suite, limit: nat, room: nat, st: State, records: seq<Bytes>): (r: Result<State, EngineError>)
    requires Good(su) && st.Valid() && Framed(records)
    ensures r.Ok? ==> r.value.Valid()
    decreases |records|
  {
    if records == [] then Ok(st)
    else
      var next :- OnWire(su, limit, room, st, records[0]);
      Run(su, limit, room, next, records[1..])
  }

  lemma {:induction false} RunAppend(su: Suite, limit: nat, room: nat, st: State, a: seq<Bytes>, b: seq<Bytes>)
    requires Good(su) && st.Valid() && Framed(a) && Framed(b)
    ensures Framed(a + b)
    ensures Run(su, limit, room, st, a).Ok? ==>
              Run(su, limit, room, st, a + b) == Run(su, limit, room, Run(su, limit, room, st, a).value, b)
    decreases |a|
  {
    if a == [] {
      assert a + b == b;
    } else {
      assert (a + b)[0] == a[0] && (a + b)[1..] == a[1..] + b;
      var next := OnWire(su, limit, room, st, a[0]);
      if next.Ok? {
        RunAppend(su, limit, room, next.value, a[1..], b);
      }
    }
  }

  /** A record from the mirrored sender reaches content dispatch as what was sent. */
  lemma OnWireOfSealed(su: Suite, limit: nat, room: nat, st: State, content: Bytes, ct: Byte)
    requires Good(su) && st.Valid() && Fits(limit, content) && ct != 0
    ensures var record := SealRecord(su.cipher, st.incoming.keys, st.incoming.seqNo, content, ct);
            && |record| >= RECORD_HEADER
            && OnWire(su, limit, room, st, record)
               == OnContent(su, room, st.(incoming := st.incoming.Bump()), content, ct)
  {
    ReceiveUndoesSend(su, st.incoming, content, ct, RecordLen(|content|));
  }

  // ---- Post-handshake bytes ----

  lemma TicketIsSkipped(body: Bytes)
    requires |body| < 0x100_0000
    ensures OnRecord(IDLE, TicketBytes(body)) == Running(IDLE)
  {
    var bytes := TicketBytes(body);
    var header := [HS_NEW_SESSION_TICKET] + U24(|body|);
    OnRecordFills([], bytes, 4);
    assert [] + bytes[..4] == header && bytes[4..] == body;
    assert header[1..4] == U24(|body|);
    assert GetU24(header, 1) == |body|;
    OnRecordSkips(|body|, body, |body|);
  }

  lemma KeyUpdateIsRead(requested: bool)
    ensures OnRecord(IDLE, KeyUpdateMessage(requested)) == Updated(requested)
  {
    var m := KeyUpdateMessage(requested);
    OnRecordFills([], m, 4);
    var header := [HS_KEY_UPDATE, 0, 0, 1];
    assert [] + m[..4] == header && m[4..] == [m[4]];
    assert GetU24(header, 1) == 1;
    assert OnRecord(Pending(header, 0), [m[4]]) == Updated(requested);
  }

  lemma {:induction false} BurstIsRead(tickets: seq<Bytes>, update: Option<bool>)
    requires forall t :: t in tickets ==> |t| < 0x100_0000
    ensures OnRecord(IDLE, BurstBytes(tickets, update)) ==
            if update.Some? then Updated(update.value) else Running(IDLE)
  {
    if tickets != [] {
      TicketIsSkipped(tickets[0]);
      BurstIsRead(tickets[1..], update);
      OnRecordSplit(IDLE, TicketBytes(tickets[0]), BurstBytes(tickets[1..], update));
    } else if update.Some? {
      KeyUpdateIsRead(update.value);
    }
  }

  /** A whole ticket stands at the front. */
  predicate StartsWithTicket(b: Bytes) {
    |b| >= 4 && b[0] == 4 && |b| >= 4 + b[1] as int * 0x1_0000 + b[2] as int * 0x100 + b[3] as int
  }

  /** What post-handshake bytes mean once the whole tickets at their front are gone. */
  function Meaning(b: Bytes): (o: Outcome)
    requires !StartsWithTicket(b)
  {
    if |b| < 4 then Running(Pending(b, 0))
    else if b[0] == 4 then
      Running(Pending([], 4 + b[1] as int * 0x1_0000 + b[2] as int * 0x100 + b[3] as int - |b|))
    else if b[0] != 24 then Failed(PostHandshakeNotSupported)
    else if b == [24, 0, 0, 1] then Running(Pending(b, 0))
    else if b == [24, 0, 0, 1, 0] then Updated(false)
    else if b == [24, 0, 0, 1, 1] then Updated(true)
    else Failed(MalformedKeyUpdate)
  }

  lemma HeaderLength(b: Bytes)
    requires |b| >= 4
    ensures GetU24(b[..4], 1) == b[1] as int * 0x1_0000 + b[2] as int * 0x100 + b[3] as int
  {
    var n := GetU24(b[..4], 1);
    FieldsAreBigEndian(n);
    assert b[..4][1..4] == U24(n);
    assert b[..4][1..4][0] == b[1] && b[..4][1..4][1] == b[2] && b[..4][1..4][2] == b[3];
  }

  lemma MeaningOfRest(b: Bytes)
    requires !StartsWithTicket(b)
    ensures OnRecord(IDLE, b) == Meaning(b)
  {
    if |b| < 4 {
      OnRecordFills([], b, |b|);
      assert [] + b[..|b|] == b;
    } else {
      hide OnByte;
      OnRecordFills([], b, 4);
      assert [] + b[..4] == b[..4];
      HeaderLength(b);
      if b[0] == 4 {
        var n := GetU24(b[..4], 1);
        OnRecordSkips(n, b[4..], |b| - 4);
        assert b[4..][|b| - 4..] == [];
      } else if b[0] == 24 {
        KeyUpdateMeaning(b);
      }
    }
  }

  lemma KeyUpdateMeaning(b: Bytes)
    requires |b| >= 4 && b[0] == 24
    ensures AfterHeader(b[..4], b[4..]) == Meaning(b)
  {
    HeaderLength(b);
    hide GetU24;
    if GetU24(b[..4], 1) == 1 {
      assert b[..4] == [24, 0, 0, 1];
      if |b| > 4 {
        assert b == [24, 0, 0, 1] + b[4..];
        assert |b| == 5 ==> b[4..] == [b[4]];
        assert OnByte(Pending(b[..4], 0), b[4]) ==
               if b[4] == 0 then Updated(false) else if b[4] == 1 then Updated(true) else Failed(MalformedKeyUpdate);
      } else {
        assert b == b[..4];
      }
    }
  }

  /**
   * Every string of post-handshake bytes is some whole tickets and a rest that starts with none, and is read
   * as what the rest means: nothing pending, a message under way, a KeyUpdate that ends the record, or one of
   * the two refusals.
   */
  lemma {:induction false} ReadExactly(b: Bytes) returns (tickets: seq<Bytes>, rest: Bytes)
    ensures (forall t :: t in tickets ==> |t| < 0x100_0000) && b == BurstBytes(tickets, None) + rest
    ensures !StartsWithTicket(rest) && OnRecord(IDLE, b) == Meaning(rest)
    decreases |b|
  {
    hide OnRecord, Meaning;
    if StartsWithTicket(b) {
      HeaderLength(b);
      var n := GetU24(b[..4], 1);
      var body, more := b[4..4 + n], b[4 + n..];
      assert TicketBytes(body) == b[..4 + n] by {
        assert b[..4][1..4] == U24(n);
        assert b[..4] == [4] + b[..4][1..4];
      }
      assert b == TicketBytes(body) + more;
      TicketIsSkipped(body);
      OnRecordSplit(IDLE, TicketBytes(body), more);
      tickets, rest := ReadExactly(more);
      assert ([body] + tickets)[1..] == tickets;
      assert b == TicketBytes(body) + BurstBytes(tickets, None) + rest;
      tickets := [body] + tickets;
    } else {
      MeaningOfRest(b);
      tickets, rest := [], b;
      assert b == [] + rest;
    }
  }

  /** Fragments that only carry the reassembly forward. */
  lemma {:induction false} FragmentsRun(su: Suite, limit: nat, room: nat, st: State, fragments: seq<Bytes>, q: Pending)
    requires Good(su) && st.Valid() && AllFit(limit, fragments)
    requires OnRecord(st.pending, Flatten(fragments)) == Running(q)
    ensures var (records, end) := SendAll(su, limit, st.incoming, fragments, CT_HANDSHAKE);
            && Framed(records)
            && Run(su, limit, room, st, records) == Ok(st.(incoming := end, pending := q))
    decreases |fragments|
  {
    hide OnWire, OnByte, SealRecord, OnKeyUpdate;
    if fragments != [] {
      var first, rest := fragments[0], fragments[1..];
      OnRecordSplit(st.pending, first, Flatten(rest));
      OnWireOfSealed(su, limit, room, st, first, CT_HANDSHAKE);
      var p := OnRecord(st.pending, first).p;
      FragmentsRun(su, limit, room, st.(incoming := st.incoming.Bump(), pending := p), rest, q);
    }
  }

  lemma {:induction false} FlattenNonempty(parts: seq<Bytes>)
    requires parts != [] && parts[|parts| - 1] != []
    ensures Flatten(parts) != []
  {
    if |parts| > 1 {
      FlattenNonempty(parts[1..]);
    }
  }

  /** Fragments whose last byte completes a KeyUpdate. */
  lemma {:induction false} UpdateRuns(su: Suite, limit: nat, room: nat, st: State, fragments: seq<Bytes>, requested: bool)
    requires Good(su) && st.Valid() && AllFit(limit, fragments)
    requires OnRecord(st.pending, Flatten(fragments)) == Updated(requested)
    requires fragments != [] && fragments[|fragments| - 1] != []
    ensures var (records, end) := SendAll(su, limit, st.incoming, fragments, CT_HANDSHAKE);
            && Framed(records)
            && Run(su, limit, room, st, records)
               == OnKeyUpdate(su, room, st.(incoming := end, pending := IDLE), requested)
    decreases |fragments|
  {
    hide OnWire, OnByte, SealRecord, OnKeyUpdate;
    var first, rest := fragments[0], fragments[1..];
    var sealed := st.(incoming := st.incoming.Bump());
    OnRecordSplit(st.pending, first, Flatten(rest));
    OnWireOfSealed(su, limit, room, st, first, CT_HANDSHAKE);
    if rest == [] {
      UpdateIgnoresPending(su, room, sealed, requested);
    } else {
      FlattenNonempty(rest);
      var p := OnRecord(st.pending, first).p;
      UpdateRuns(su, limit, room, sealed.(pending := p), rest, requested);
    }
  }

  lemma UpdateIgnoresPending(su: Suite, room: nat, st: State, requested: bool)
    requires Good(su) && st.Valid()
    ensures OnKeyUpdate(su, room, st, requested) == OnKeyUpdate(su, room, st.(pending := IDLE), requested)
  {
  }

  // ---- Whole conversations ----

  /** HKDF-Expand answers at every length TLS 1.3 asks for; longer outputs it may refuse. */
  ghost predicate NeverFails(k: Kdf) {
    forall p, i, n: nat :: n <= HASH_LEN ==> k.expand(p, i, n).Some?
  }

  lemma RotateSucceeds(su: Suite, side: Side)
    requires Good(su) && NeverFails(su.kdf)
    ensures Rotate(su, side).Ok? && Rotate(su, side).value.Valid()
  {
  }

  /** The engine's reply to a KeyUpdate that asks for one. */
  const ANSWER: Item := Burst([], Some(false), [KeyUpdateMessage(false)])

  /** Application data the receiver hands to its caller. */
  function Delivered(items: seq<Item>): seq<Bytes> {
    if items == [] then []
    else (if items[0].App? && items[0].data != [] then [items[0].data] else []) + Delivered(items[1..])
  }

  /** How many KeyUpdates ask for one back. */
  function Requests(items: seq<Item>): nat {
    if items == [] then 0
    else (if items[0].Burst? && items[0].update == Some(true) then 1 else 0) + Requests(items[1..])
  }

  lemma AnswerIsSent(su: Suite, side: Side, room: nat)
    requires Good(su) && side.Valid() && NeverFails(su.kdf) && room >= RecordLen(5)
    ensures Legal(MIN_RECORD_SIZE_LIMIT, ANSWER)
    ensures Answer(su, side, room).Ok?
    ensures var (record, next) := Answer(su, side, room).value;
            SendItem(su, MIN_RECORD_SIZE_LIMIT, side, ANSWER) == Ok(([record], next))
  {
    var m := KeyUpdateMessage(false);
    FlattenOne(m);
    RotateSucceeds(su, side.Bump());
    SendAllOne(su, MIN_RECORD_SIZE_LIMIT, side, m, CT_HANDSHAKE);
  }

  /** `n` replies, each under its own key generation. */
  ghost function AnswerRun(su: Suite, side: Side, room: nat, n: nat): (r: (seq<Bytes>, Side))
    requires Good(su) && side.Valid() && NeverFails(su.kdf) && room >= RecordLen(5)
    ensures r.1.Valid()
    decreases n
  {
    if n == 0 then ([], side)
    else
      AnswerIsSent(su, side, room);
      var (record, next) := Answer(su, side, room).value;
      var (records, end) := AnswerRun(su, next, room, n - 1);
      ([record] + records, end)
  }

  /** `after` is `before` once `items` have arrived: the incoming direction is the sender's,
      exactly their data is delivered, exactly their requests are answered. */
  ghost predicate Caught(su: Suite, room: nat, before: State, after: State, items: seq<Item>, senderEnd: Side)
    requires Good(su) && NeverFails(su.kdf) && before.Valid() && room >= RecordLen(5)
  {
    var (answers, outgoing) := AnswerRun(su, before.outgoing, room, Requests(items));
    after == State(outgoing, senderEnd, IDLE, before.closed,
                   before.delivered + Delivered(items), before.sent + answers)
  }

  /** Running `records` from `st` succeeds and catches `items`. */
  ghost predicate Locked(su: Suite, limit: nat, room: nat, st: State, records: seq<Bytes>, items: seq<Item>, end: Side)
    requires Good(su) && NeverFails(su.kdf) && st.Valid() && room >= RecordLen(5)
  {
    && Framed(records)
    && Run(su, limit, room, st, records).Ok?
    && Caught(su, room, st, Run(su, limit, room, st, records).value, items, end)
  }

  lemma AppLockstep(su: Suite, limit: nat, room: nat, st: State, data: Bytes)
    requires Good(su) && NeverFails(su.kdf) && st.Valid() && st.pending == IDLE
    requires Fits(limit, data) && room >= RecordLen(5)
    ensures var r := SendItem(su, limit, st.incoming, App(data));
            r.Ok? && Locked(su, limit, room, st, r.value.0, [App(data)], r.value.1)
  {
    hide OnWire, SendAll, SealRecord, Answer;
    SendAllOne(su, limit, st.incoming, data, CT_APPLICATION_DATA);
    OnWireOfSealed(su, limit, room, st, data, CT_APPLICATION_DATA);
    var record := SealRecord(su.cipher, st.incoming.keys, st.incoming.seqNo, data, CT_APPLICATION_DATA);
    var items: seq<Item>, records: seq<Bytes> := [App(data)], [record];
    assert items[1..] == [] && records[1..] == [];
    assert Framed(records);
    assert Run(su, limit, room, st, records) == OnWire(su, limit, room, st, record);
    assert Delivered(items) == (if data != [] then [data] else []) + [];
    assert Requests(items) == 0;
    AnswerRunNone(su, st.outgoing, room);
    assert st.sent + [] == st.sent && st.delivered + [] == st.delivered;
  }

  lemma TicketsLockstep(su: Suite, limit: nat, room: nat, st: State, item: Item)
    requires Good(su) && NeverFails(su.kdf) && st.Valid() && st.pending == IDLE
    requires item.Burst? && Legal(limit, item) && item.update.None? && room >= RecordLen(5)
    ensures var r := SendItem(su, limit, st.incoming, item);
            r.Ok? && Locked(su, limit, room, st, r.value.0, [item], r.value.1)
  {
    hide OnWire, Answer, SendAll, OnRecord;
    BurstIsRead(item.tickets, item.update);
    FragmentsRun(su, limit, room, st, item.fragments, IDLE);
    assert [item][1..] == [];
    assert Delivered([item]) == [] && Requests([item]) == 0;
    assert st.delivered + [] == st.delivered && st.sent + [] == st.sent;
  }

  /** What a KeyUpdate leaves behind. */
  lemma UpdateCaught(su: Suite, room: nat, before: State, sealed: Side, item: Item)
    requires Good(su) && NeverFails(su.kdf) && before.Valid() && sealed.Valid() && room >= RecordLen(5)
    requires item.Burst? && item.update.Some? && before.pending == IDLE
    ensures Rotate(su, sealed).Ok?
    ensures var after := OnKeyUpdate(su, room, before.(incoming := sealed, pending := IDLE), item.update.value);
            after.Ok? && Caught(su, room, before, after.value, [item], Rotate(su, sealed).value)
  {
    hide Answer, AnswerRun, Rotate, Good, NeverFails;
    assert [item][1..] == [];
    assert Delivered([item]) == [];
    assert Requests([item]) == (if item.update == Some(true) then 1 else 0) + Requests([]);
    assert item.update == Some(item.update.value);
    assert before.delivered + [] == before.delivered && before.sent + [] == before.sent;
    RotateSucceeds(su, sealed);
    AnswerRunNone(su, before.outgoing, room);
    if item.update.value {
      var record, next := AnswerRunStep(su, before.outgoing, room, 1);
      AnswerRunNone(su, next, room);
    }
  }

  lemma UpdateLockstep(su: Suite, limit: nat, room: nat, st: State, item: Item)
    requires Good(su) && NeverFails(su.kdf) && st.Valid() && st.pending == IDLE
    requires item.Burst? && Legal(limit, item) && item.update.Some? && room >= RecordLen(5)
    ensures var r := SendItem(su, limit, st.incoming, item);
            r.Ok? && Locked(su, limit, room, st, r.value.0, [item], r.value.1)
  {
    hide OnWire, Answer, SendAll, OnRecord, Rotate, OnKeyUpdate, Caught, Good, NeverFails;
    BurstIsRead(item.tickets, item.update);
    UpdateRuns(su, limit, room, st, item.fragments, item.update.value);
    UpdateCaught(su, room, st, SendAll(su, limit, st.incoming, item.fragments, CT_HANDSHAKE).1, item);
  }

  lemma ItemLockstep(su: Suite, limit: nat, room: nat, st: State, item: Item)
    requires Good(su) && NeverFails(su.kdf) && st.Valid() && st.pending == IDLE
    requires Legal(limit, item) && room >= RecordLen(5)
    ensures var r := SendItem(su, limit, st.incoming, item);
            r.Ok? && Locked(su, limit, room, st, r.value.0, [item], r.value.1)
  {
    if item.App? {
      AppLockstep(su, limit, room, st, item.data);
    } else if item.update.None? {
      TicketsLockstep(su, limit, room, st, item);
    } else {
      UpdateLockstep(su, limit, room, st, item);
    }
  }

  lemma CaughtTwice(su: Suite, room: nat, s0: State, s1: State, s2: State, item: Item, rest: seq<Item>, e1: Side, e2: Side)
    requires Good(su) && NeverFails(su.kdf) && s0.Valid() && s1.Valid() && room >= RecordLen(5)
    requires Caught(su, room, s0, s1, [item], e1) && Caught(su, room, s1, s2, rest, e2)
    ensures Caught(su, room, s0, s2, [item] + rest, e2)
  {
    hide Answer, AnswerRun, Delivered, Requests, Good, NeverFails;
    ScriptCons(item, rest);
    AnswerRunPlus(su, s0.outgoing, room, Requests([item]), Requests(rest));
    var (a, _) := AnswerRun(su, s0.outgoing, room, Requests([item]));
    var (b, _) := AnswerRun(su, s1.outgoing, room, Requests(rest));
    assert s0.sent + (a + b) == s0.sent + a + b;
    assert s0.delivered + (Delivered([item]) + Delivered(rest)) == s0.delivered + Delivered([item]) + Delivered(rest);
  }

  lemma ScriptCons(item: Item, rest: seq<Item>)
    ensures Delivered([item] + rest) == Delivered([item]) + Delivered(rest)
    ensures Requests([item] + rest) == Requests([item]) + Requests(rest)
  {
    assert ([item] + rest)[1..] == rest && [item][1..] == [];
  }

  lemma {:induction false} AnswerRunPlus(su: Suite, side: Side, room: nat, m: nat, n: nat)
    requires Good(su) && side.Valid() && NeverFails(su.kdf) && room >= RecordLen(5)
    ensures var (a, mid) := AnswerRun(su, side, room, m);
            var (b, end) := AnswerRun(su, mid, room, n);
            AnswerRun(su, side, room, m + n) == (a + b, end)
    decreases m
  {
    hide Answer, AnswerRun, Good, NeverFails;
    AnswerRunNone(su, side, room);
    if m == 0 {
      assert [] + AnswerRun(su, side, room, n).0 == AnswerRun(su, side, room, n).0;
    } else {
      var record, next := AnswerRunStep(su, side, room, m);
      var record', next' := AnswerRunStep(su, side, room, m + n);
      AnswerRunPlus(su, next, room, m - 1, n);
      var (a, mid) := AnswerRun(su, next, room, m - 1);
      var (b, _) := AnswerRun(su, mid, room, n);
      assert [record] + (a + b) == [record] + a + b;
    }
  }

  lemma AnswerRunNone(su: Suite, side: Side, room: nat)
    requires Good(su) && side.Valid() && NeverFails(su.kdf) && room >= RecordLen(5)
    ensures AnswerRun(su, side, room, 0) == ([], side)
  {
  }

  lemma AnswerRunStep(su: Suite, side: Side, room: nat, n: nat) returns (record: Bytes, next: Side)
    requires Good(su) && side.Valid() && NeverFails(su.kdf) && room >= RecordLen(5) && n > 0
    ensures Answer(su, side, room) == Ok((record, next)) && next.Valid()
    ensures var (records, end) := AnswerRun(su, next, room, n - 1);
            AnswerRun(su, side, room, n) == ([record] + records, end)
  {
    hide Answer;
    AnswerIsSent(su, side, room);
    var (r, s) := Answer(su, side, room).value;
    record, next := r, s;
  }

  /** Locked steps compose. */
  lemma LockedTwice(su: Suite, limit: nat, room: nat, s0: State, s1: State,
                    r1: seq<Bytes>, item: Item, e1: Side, r2: seq<Bytes>, rest: seq<Item>, e2: Side)
    requires Good(su) && NeverFails(su.kdf) && s0.Valid() && s1.Valid() && room >= RecordLen(5)
    requires Locked(su, limit, room, s0, r1, [item], e1) && Run(su, limit, room, s0, r1) == Ok(s1)
    requires Locked(su, limit, room, s1, r2, rest, e2)
    ensures Locked(su, limit, room, s0, r1 + r2, [item] + rest, e2)
  {
    RunAppend(su, limit, room, s0, r1, r2);
    CaughtTwice(su, room, s0, s1, Run(su, limit, room, s1, r2).value, item, rest, e1, e2);
  }

  /** For every legal conversation, of any length and over any number of key generations,
      the receiver accepts every record, delivers exactly the application data, answers
      exactly the requested updates, and ends on the sender's keys and counter. */
  lemma {:induction false} ReceiverInLockstep(su: Suite, limit: nat, room: nat, st: State, items: seq<Item>)
    requires Good(su) && NeverFails(su.kdf) && st.Valid() && st.pending == IDLE
    requires AllLegal(limit, items) && room >= RecordLen(5)
    ensures var r := SendScript(su, limit, st.incoming, items);
            r.Ok? && Locked(su, limit, room, st, r.value.0, items, r.value.1)
    decreases |items|
  {
    hide Answer, OnWire, SendItem;
    if items != [] {
      var item, rest := items[0], items[1..];
      assert items == [item] + rest;
      ItemLockstep(su, limit, room, st, item);
      var (r1, e1) := SendItem(su, limit, st.incoming, item).value;
      var s1 := Run(su, limit, room, st, r1).value;
      ReceiverInLockstep(su, limit, room, s1, rest);
      var (r2, e2) := SendScript(su, limit, e1, rest).value;
      LockedTwice(su, limit, room, st, s1, r1, item, e1, r2, rest, e2);
    }
  }

  // ---- The way back ----

  function Repeat(n: nat): (r: seq<Item>)
    ensures |r| == n
  {
    if n == 0 then [] else [ANSWER] + Repeat(n - 1)
  }

  lemma {:induction false} AnswerRunIsScript(su: Suite, side: Side, room: nat, n: nat)
    requires Good(su) && side.Valid() && NeverFails(su.kdf) && room >= RecordLen(5)
    ensures AllLegal(MIN_RECORD_SIZE_LIMIT, Repeat(n))
    ensures SendScript(su, MIN_RECORD_SIZE_LIMIT, side, Repeat(n)) == Ok(AnswerRun(su, side, room, n))
    ensures Delivered(Repeat(n)) == [] && Requests(Repeat(n)) == 0
    decreases n
  {
    hide Answer, SendItem;
    if n > 0 {
      AnswerIsSent(su, side, room);
      AnswerRunIsScript(su, Answer(su, side, room).value.1, room, n - 1);
      assert Repeat(n)[1..] == Repeat(n - 1);
    }
  }

  /** A peer mirroring our outgoing direction reads our answers, delivers nothing, sends
      nothing, and ends on our new send keys. */
  lemma AnswersInLockstep(su: Suite, room: nat, before: State, after: State, items: seq<Item>, end: Side, peer: State)
    requires Good(su) && NeverFails(su.kdf) && before.Valid() && room >= RecordLen(5)
    requires Caught(su, room, before, after, items, end)
    requires peer.Valid() && peer.pending == IDLE && peer.incoming == before.outgoing
    ensures before.sent <= after.sent
    ensures var answers := after.sent[|before.sent|..];
            && Framed(answers)
            && Run(su, MIN_RECORD_SIZE_LIMIT, room, peer, answers) == Ok(peer.(incoming := after.outgoing))
  {
    hide Answer, OnWire, SendItem;
    var n := Requests(items);
    AnswerRunIsScript(su, before.outgoing, room, n);
    ReceiverInLockstep(su, MIN_RECORD_SIZE_LIMIT, room, peer, Repeat(n));
    var (answers, outgoing) := AnswerRun(su, before.outgoing, room, n);
    assert after.sent[|before.sent|..] == answers;
    assert peer.delivered + [] == peer.delivered && peer.sent + [] == peer.sent;
  }
}
