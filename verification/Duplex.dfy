/**
 * Both directions at once: two endpoints, each sending data and post-handshake messages of its own and
 * answering KeyUpdates, with records in flight either way and delivered one at a time in any order of turns.
 */
module Duplex {
  import opened Bytes
  import opened Consts
  import opened Aead
  import opened KeySchedule
  import opened Channel
  import opened Engine
  import opened Lockstep

  // ---- Records in flight ----

  /** What one record carries, and whether its sender rotates its keys after it. */
  datatype Packet = Packet(content: Bytes, ct: Byte, rekey: bool)

  function After(su: Suite, side: Side, p: Packet): (r: Result<Side, ChannelError>)
    requires Good(su) && side.Valid()
    ensures r.Ok? ==> r.value.Valid()
  {
    if p.rekey then Rotate(su, side.Bump()) else Ok(side.Bump())
  }

  /** The receiver's reassembly after a packet it can take. */
  function Took(pending: Pending, p: Packet): (r: Option<Pending>)
    requires pending.Valid()
    ensures r.Some? ==> r.value.Valid()
  {
    if p.ct == CT_APPLICATION_DATA then if pending == IDLE && !p.rekey then Some(IDLE) else None
    else if p.ct == CT_HANDSHAKE then
      match OnRecord(pending, p.content)
      case Running(q) => if p.rekey then None else Some(q)
      case Updated(_) => if p.rekey then Some(IDLE) else None
      case Failed(_) => None
    else None
  }

  /** `queue` holds `packets` sealed one after the other from `side`, which becomes `end`; a receiver at
      `side` and `pending` can take them all. */
  ghost predicate InFlight(su: Suite, limit: nat, side: Side, pending: Pending, queue: seq<Bytes>,
                           packets: seq<Packet>, end: Side)
    requires Good(su) && side.Valid() && pending.Valid()
    decreases |packets|
  {
    && |queue| == |packets|
    && if packets == [] then side == end && pending == IDLE
       else
         && Fits(limit, packets[0].content)
         && queue[0] == SealRecord(su.cipher, side.keys, side.seqNo, packets[0].content, packets[0].ct)
         && After(su, side, packets[0]).Ok? && Took(pending, packets[0]).Some?
         && InFlight(su, limit, After(su, side, packets[0]).value, Took(pending, packets[0]).value, queue[1..],
                     packets[1..], end)
  }

  /** The application data in flight. */
  function Data(packets: seq<Packet>): (d: seq<Bytes>) {
    if packets == [] then [] else DataOf(packets[0]) + Data(packets[1..])
  }

  function DataOf(p: Packet): (d: seq<Bytes>) {
    if p.ct == CT_APPLICATION_DATA && p.content != [] then [p.content] else []
  }

  lemma {:induction false} DataAppend(a: seq<Packet>, b: seq<Packet>)
    ensures Data(a + b) == Data(a) + Data(b)
    decreases |a|
  {
    if a == [] {
      assert a + b == b;
    } else {
      DataAppend(a[1..], b);
      assert (a + b)[1..] == a[1..] + b;
    }
  }

  lemma {:induction false} InFlightAppend(su: Suite, limit: nat, side: Side, pending: Pending,
                                          q1: seq<Bytes>, p1: seq<Packet>, mid: Side,
                                          q2: seq<Bytes>, p2: seq<Packet>, end: Side)
    requires Good(su) && side.Valid() && pending.Valid() && mid.Valid()
    requires InFlight(su, limit, side, pending, q1, p1, mid) && InFlight(su, limit, mid, IDLE, q2, p2, end)
    ensures InFlight(su, limit, side, pending, q1 + q2, p1 + p2, end)
    decreases |p1|
  {
    hide SealRecord, Good, After, Took, Fits;
    if p1 == [] {
      assert q1 + q2 == q2 && p1 + p2 == p2;
    } else {
      var next, q := After(su, side, p1[0]).value, Took(pending, p1[0]).value;
      InFlightAppend(su, limit, next, q, q1[1..], p1[1..], mid, q2, p2, end);
      assert (q1 + q2)[1..] == q1[1..] + q2 && (p1 + p2)[1..] == p1[1..] + p2;
    }
  }

  // ---- What an endpoint says ----

  /** Fragments as handshake packets; `update` marks the last. */
  function Pack(fragments: seq<Bytes>, update: bool): (ps: seq<Packet>)
    ensures |ps| == |fragments|
  {
    if fragments == [] then []
    else [Packet(fragments[0], CT_HANDSHAKE, update && |fragments| == 1)] + Pack(fragments[1..], update)
  }

  function Packets(item: Item): (ps: seq<Packet>) {
    match item
    case App(data) => [Packet(data, CT_APPLICATION_DATA, false)]
    case Burst(_, update, fragments) => Pack(fragments, update.Some?)
  }

  lemma {:induction false} PackHasNoData(fragments: seq<Bytes>, update: bool)
    ensures Data(Pack(fragments, update)) == []
    decreases |fragments|
  {
    if fragments != [] {
      PackHasNoData(fragments[1..], update);
    }
  }

  lemma {:induction false} FragmentsInFlight(su: Suite, limit: nat, side: Side, pending: Pending, fragments: seq<Bytes>)
    requires Good(su) && side.Valid() && pending.Valid() && AllFit(limit, fragments)
    requires OnRecord(pending, Flatten(fragments)) == Running(IDLE)
    ensures var (records, end) := SendAll(su, limit, side, fragments, CT_HANDSHAKE);
            InFlight(su, limit, side, pending, records, Pack(fragments, false), end)
    decreases |fragments|
  {
    hide SealRecord, Good, OnByte;
    if fragments != [] {
      OnRecordSplit(pending, fragments[0], Flatten(fragments[1..]));
      var q := OnRecord(pending, fragments[0]).p;
      FragmentsInFlight(su, limit, side.Bump(), q, fragments[1..]);
      Unpacked(fragments, false);
    }
  }

  lemma Unpacked(fragments: seq<Bytes>, update: bool)
    requires fragments != []
    ensures Pack(fragments, update)[0] == Packet(fragments[0], CT_HANDSHAKE, update && |fragments| == 1)
    ensures Pack(fragments, update)[1..] == Pack(fragments[1..], update)
  {
  }

  lemma {:induction false} UpdateInFlight(su: Suite, limit: nat, side: Side, pending: Pending, fragments: seq<Bytes>,
                                          requested: bool)
    requires Good(su) && NeverFails(su.kdf) && side.Valid() && pending.Valid() && AllFit(limit, fragments)
    requires OnRecord(pending, Flatten(fragments)) == Updated(requested)
    requires fragments != [] && fragments[|fragments| - 1] != []
    ensures var (records, sealed) := SendAll(su, limit, side, fragments, CT_HANDSHAKE);
            && Rotate(su, sealed).Ok?
            && InFlight(su, limit, side, pending, records, Pack(fragments, true), Rotate(su, sealed).value)
    decreases |fragments|
  {
    hide SealRecord, Good, NeverFails, OnByte, Rotate;
    var first, rest := fragments[0], fragments[1..];
    OnRecordSplit(pending, first, Flatten(rest));
    Unpacked(fragments, true);
    if rest == [] {
      RotateSucceeds(su, side.Bump());
      SendAllOne(su, limit, side, first, CT_HANDSHAKE);
      assert fragments == [first] && Flatten(rest) == [];
    } else {
      FlattenNonempty(rest);
      UpdateInFlight(su, limit, side.Bump(), OnRecord(pending, first).p, rest, requested);
    }
  }

  /** Everything said is in flight as one item's packets. */
  lemma ItemInFlight(su: Suite, limit: nat, side: Side, item: Item)
    requires Good(su) && NeverFails(su.kdf) && side.Valid() && Legal(limit, item)
    ensures var r := SendItem(su, limit, side, item);
            r.Ok? && InFlight(su, limit, side, IDLE, r.value.0, Packets(item), r.value.1)
    ensures Data(Packets(item)) == Delivered([item])
  {
    hide SealRecord, Good, NeverFails, OnByte, Rotate, OnRecord, SendAll;
    assert [item][1..] == [];
    match item
    case App(data) =>
      SendAllOne(su, limit, side, data, CT_APPLICATION_DATA);
      var record := SealRecord(su.cipher, side.keys, side.seqNo, data, CT_APPLICATION_DATA);
      var records: seq<Bytes>, packets := [record], Packets(item);
      assert records[1..] == [] && packets[1..] == [];
    case Burst(tickets, update, fragments) =>
      BurstIsRead(tickets, update);
      PackHasNoData(fragments, update.Some?);
      if update.None? {
        FragmentsInFlight(su, limit, side, IDLE, fragments);
      } else {
        UpdateInFlight(su, limit, side, IDLE, fragments, update.value);
      }
  }

  /** So is a reply to a KeyUpdate. */
  lemma AnswerInFlight(su: Suite, limit: nat, side: Side, room: nat)
    requires Good(su) && NeverFails(su.kdf) && side.Valid() && room >= RecordLen(5) && limit >= MIN_RECORD_SIZE_LIMIT
    ensures Answer(su, side, room).Ok?
    ensures var (record, next) := Answer(su, side, room).value;
            InFlight(su, limit, side, IDLE, [record], [Packet(KeyUpdateMessage(false), CT_HANDSHAKE, true)], next)
  {
    hide SealRecord, Good, NeverFails, Rotate;
    RotateSucceeds(su, side.Bump());
    KeyUpdateIsRead(false);
    var record := Answer(su, side, room).value.0;
    var p := Packet(KeyUpdateMessage(false), CT_HANDSHAKE, true);
    var records: seq<Bytes>, packets := [record], [p];
    assert records[1..] == [] && packets[1..] == [];
  }

  // ---- What an endpoint hears ----

  /** Whether a record made the receiver answer, and how it is left. */
  predicate Replies(su: Suite, room: nat, before: State, after: State)
    requires Good(su) && before.Valid()
  {
    || (after.outgoing == before.outgoing && after.sent == before.sent)
    || (var r := Answer(su, before.outgoing, room);
        r.Ok? && after.outgoing == r.value.1 && after.sent == before.sent + [r.value.0])
  }

  /** One packet's record: the receiver moves as the packet says and answers only when asked. */
  lemma PacketTaken(su: Suite, limit: nat, room: nat, st: State, p: Packet, record: Bytes)
    requires Good(su) && NeverFails(su.kdf) && st.Valid() && room >= RecordLen(5) && Fits(limit, p.content)
    requires record == SealRecord(su.cipher, st.incoming.keys, st.incoming.seqNo, p.content, p.ct)
    requires After(su, st.incoming, p).Ok? && Took(st.pending, p).Some?
    ensures |record| >= RECORD_HEADER
    ensures var r := OnWire(su, limit, room, st, record);
            && r.Ok? && r.value.incoming == After(su, st.incoming, p).value && r.value.pending == Took(st.pending, p).value
            && r.value.delivered == st.delivered + DataOf(p) && Replies(su, room, st, r.value)
            && (p.ct != CT_HANDSHAKE || OnRecord(st.pending, p.content) != Updated(true) ==>
                  r.value.outgoing == st.outgoing && r.value.sent == st.sent)
  {
    hide SealRecord, Good, NeverFails, Rotate, OnWire, Answer, OnRecord;
    OnWireOfSealed(su, limit, room, st, p.content, p.ct);
    if p.ct == CT_HANDSHAKE && OnRecord(st.pending, p.content).Updated? {
      AnswerIsSent(su, st.outgoing, room);
    }
  }

  /** The next record in flight is read, whatever the receiver has sent meanwhile. */
  lemma Heard(su: Suite, limit: nat, room: nat, st: State, queue: seq<Bytes>, packets: seq<Packet>, end: Side)
    requires Good(su) && NeverFails(su.kdf) && st.Valid() && room >= RecordLen(5)
    requires InFlight(su, limit, st.incoming, st.pending, queue, packets, end) && packets != []
    ensures |queue[0]| >= RECORD_HEADER
    ensures var r := OnWire(su, limit, room, st, queue[0]);
            && r.Ok? && Replies(su, room, st, r.value)
            && InFlight(su, limit, r.value.incoming, r.value.pending, queue[1..], packets[1..], end)
            && r.value.delivered + Data(packets[1..]) == st.delivered + Data(packets)
            && (Quiet(st.pending, packets) ==> && Quiet(r.value.pending, packets[1..])
                                               && r.value.outgoing == st.outgoing && r.value.sent == st.sent)
  {
    hide SealRecord, Good, NeverFails, OnWire, OnRecord, After, Took, Replies;
    PacketTaken(su, limit, room, st, packets[0], queue[0]);
    var d := DataOf(packets[0]);
    assert st.delivered + d + Data(packets[1..]) == st.delivered + (d + Data(packets[1..]));
  }

  /** No packet here asks for a reply. */
  ghost predicate Quiet(pending: Pending, packets: seq<Packet>)
    requires pending.Valid()
    decreases |packets|
  {
    packets == [] ||
    (&& Took(pending, packets[0]).Some?
     && (packets[0].ct == CT_HANDSHAKE ==> OnRecord(pending, packets[0].content) != Updated(true))
     && Quiet(Took(pending, packets[0]).value, packets[1..]))
  }

  lemma {:induction false} QuietAppend(su: Suite, limit: nat, side: Side, pending: Pending, queue: seq<Bytes>,
                                       packets: seq<Packet>, end: Side, more: seq<Packet>)
    requires Good(su) && side.Valid() && pending.Valid() && InFlight(su, limit, side, pending, queue, packets, end)
    requires Quiet(pending, packets) && Quiet(IDLE, more)
    ensures Quiet(pending, packets + more)
    decreases |packets|
  {
    hide SealRecord, Good, After, Took, Fits, OnRecord;
    if packets == [] {
      assert packets + more == more;
    } else {
      QuietAppend(su, limit, After(su, side, packets[0]).value, Took(pending, packets[0]).value, queue[1..], packets[1..],
                  end, more);
      assert (packets + more)[1..] == packets[1..] + more;
    }
  }

  /** A reply asks for none. */
  lemma ReplyIsQuiet()
    ensures Quiet(IDLE, [Packet(KeyUpdateMessage(false), CT_HANDSHAKE, true)])
  {
    KeyUpdateIsRead(false);
    var packets := [Packet(KeyUpdateMessage(false), CT_HANDSHAKE, true)];
    assert packets[1..] == [];
  }

  // ---- The conversation ----

  datatype Net = Net(su: Suite, limitA: nat, limitB: nat, room: nat) {
    ghost predicate Valid() {
      && Good(su) && NeverFails(su.kdf) && room >= RecordLen(5)
      && limitA >= MIN_RECORD_SIZE_LIMIT && limitB >= MIN_RECORD_SIZE_LIMIT
    }
  }

  /** Two endpoints, the records in flight each way, and the data each has sent. */
  datatype System = System(a: State, b: State, ab: seq<Bytes>, ba: seq<Bytes>, saidA: seq<Bytes>, saidB: seq<Bytes>)

  datatype Step = SayA(item: Item) | SayB(item: Item) | ReadA | ReadB

  predicate LegalStep(net: Net, step: Step) {
    match step
    case SayA(item) => Legal(net.limitB, item)
    case SayB(item) => Legal(net.limitA, item)
    case ReadA => true
    case ReadB => true
  }

  /** The replies queued by the last record. */
  function Replied(before: State, after: State): (records: seq<Bytes>) {
    if |before.sent| <= |after.sent| then after.sent[|before.sent|..] else []
  }

  function Say(su: Suite, limit: nat, st: State, item: Item): (r: Result<(State, seq<Bytes>), EngineError>)
    requires Good(su) && st.Valid() && Legal(limit, item)
  {
    match SendItem(su, limit, st.outgoing, item)
    case Err(e) => Err(Connection(e))
    case Ok((records, side)) => Ok((st.(outgoing := side), records))
  }

  /** Reads the oldest record; with none there is nothing to do. */
  function Hear(su: Suite, limit: nat, room: nat, st: State, queue: seq<Bytes>): (r: Result<State, EngineError>)
    requires Good(su) && st.Valid()
  {
    if queue == [] then Ok(st)
    else if |queue[0]| < RECORD_HEADER then Err(Connection(Decrypt(Truncated)))
    else OnWire(su, limit, room, st, queue[0])
  }

  function Rest(queue: seq<Bytes>): (rest: seq<Bytes>) {
    if queue == [] then [] else queue[1..]
  }

  function Next(net: Net, s: System, step: Step): (r: Result<System, EngineError>)
    requires Good(net.su) && s.a.Valid() && s.b.Valid() && LegalStep(net, step)
    ensures r.Ok? ==> r.value.a.Valid() && r.value.b.Valid()
  {
    match step
    case SayA(item) =>
      var (a, records) :- Say(net.su, net.limitB, s.a, item);
      Ok(s.(a := a, ab := s.ab + records, saidA := s.saidA + Delivered([item])))
    case SayB(item) =>
      var (b, records) :- Say(net.su, net.limitA, s.b, item);
      Ok(s.(b := b, ba := s.ba + records, saidB := s.saidB + Delivered([item])))
    case ReadA =>
      var a :- Hear(net.su, net.limitA, net.room, s.a, s.ba);
      Ok(s.(a := a, ab := s.ab + Replied(s.a, a), ba := Rest(s.ba)))
    case ReadB =>
      var b :- Hear(net.su, net.limitB, net.room, s.b, s.ab);
      Ok(s.(b := b, ba := s.ba + Replied(s.b, b), ab := Rest(s.ab)))
  }

  /** One direction: what is in flight from `sender` to `receiver`, and what it has said in all. */
  ghost predicate Carries(su: Suite, limit: nat, receiver: State, queue: seq<Bytes>, packets: seq<Packet>, end: Side,
                          said: seq<Bytes>)
    requires Good(su) && receiver.Valid()
  {
    && InFlight(su, limit, receiver.incoming, receiver.pending, queue, packets, end)
    && receiver.delivered + Data(packets) == said
  }

  ghost predicate Inv(net: Net, s: System) {
    && net.Valid() && s.a.Valid() && s.b.Valid()
    && (exists packets :: Carries(net.su, net.limitB, s.b, s.ab, packets, s.a.outgoing, s.saidA))
    && (exists packets :: Carries(net.su, net.limitA, s.a, s.ba, packets, s.b.outgoing, s.saidB))
  }

  lemma SayCarries(su: Suite, limit: nat, sender: State, receiver: State, queue: seq<Bytes>, packets: seq<Packet>,
                   said: seq<Bytes>, item: Item)
    requires Good(su) && NeverFails(su.kdf) && sender.Valid() && receiver.Valid() && Legal(limit, item)
    requires Carries(su, limit, receiver, queue, packets, sender.outgoing, said)
    ensures var r := Say(su, limit, sender, item);
            && r.Ok? && r.value.0.Valid() && r.value.0 == sender.(outgoing := r.value.0.outgoing)
            && Carries(su, limit, receiver, queue + r.value.1, packets + Packets(item), r.value.0.outgoing,
                       said + Delivered([item]))
  {
    hide Good, NeverFails, InFlight, SendItem, Delivered, Data, Legal;
    ItemInFlight(su, limit, sender.outgoing, item);
    var (records, end) := SendItem(su, limit, sender.outgoing, item).value;
    InFlightAppend(su, limit, receiver.incoming, receiver.pending, queue, packets, sender.outgoing, records, Packets(item),
                   end);
    DataAppend(packets, Packets(item));
    assert receiver.delivered + (Data(packets) + Data(Packets(item))) == receiver.delivered + Data(packets) + Data(Packets(item));
  }

  /** Reading moves one direction on and, when it answers, adds to the other. */
  lemma HearCarries(su: Suite, limit: nat, otherLimit: nat, room: nat, st: State, peer: State,
                    queue: seq<Bytes>, packets: seq<Packet>, said: seq<Bytes>,
                    back: seq<Bytes>, backPackets: seq<Packet>, backSaid: seq<Bytes>)
    returns (packets': seq<Packet>, backPackets': seq<Packet>)
    requires Good(su) && NeverFails(su.kdf) && st.Valid() && peer.Valid() && room >= RecordLen(5)
    requires otherLimit >= MIN_RECORD_SIZE_LIMIT
    requires Carries(su, limit, st, queue, packets, peer.outgoing, said)
    requires Carries(su, otherLimit, peer, back, backPackets, st.outgoing, backSaid)
    ensures var r := Hear(su, limit, room, st, queue);
            && r.Ok? && r.value.Valid()
            && Carries(su, limit, r.value, Rest(queue), packets', peer.outgoing, said)
            && Carries(su, otherLimit, peer, back + Replied(st, r.value), backPackets', r.value.outgoing, backSaid)
            && (Quiet(peer.pending, backPackets) ==> Quiet(peer.pending, backPackets'))
            && (Quiet(st.pending, packets) ==> Quiet(r.value.pending, packets') && Replied(st, r.value) == [])
  {
    hide Good, NeverFails, OnWire, Answer, Data, Quiet;
    packets', backPackets' := packets, backPackets;
    if queue == [] {
      assert back + [] == back && st.sent[|st.sent|..] == [];
    } else {
      Heard(su, limit, room, st, queue, packets, peer.outgoing);
      packets' := packets[1..];
      hide InFlight;
      var next := OnWire(su, limit, room, st, queue[0]).value;
      if next.sent == st.sent && next.outgoing == st.outgoing {
        assert back + [] == back && st.sent[|st.sent|..] == [];
      } else {
        AnswerInFlight(su, otherLimit, st.outgoing, room);
        var record := Answer(su, st.outgoing, room).value.0;
        var p := Packet(KeyUpdateMessage(false), CT_HANDSHAKE, true);
        InFlightAppend(su, otherLimit, peer.incoming, peer.pending, back, backPackets, st.outgoing, [record], [p],
                       next.outgoing);
        DataAppend(backPackets, [p]);
        NoData(p);
        ReplyIsQuiet();
        if Quiet(peer.pending, backPackets) {
          QuietAppend(su, otherLimit, peer.incoming, peer.pending, back, backPackets, st.outgoing, [p]);
        }
        assert Data(backPackets) + [] == Data(backPackets);
        assert (st.sent + [record])[|st.sent|..] == [record];
        backPackets' := backPackets + [p];
      }
    }
  }

  lemma NoData(p: Packet)
    requires p.ct != CT_APPLICATION_DATA
    ensures Data([p]) == []
  {
  }

  /** No legal step fails, and every step keeps both directions in order. */
  lemma StepKeeps(net: Net, s: System, step: Step)
    requires Inv(net, s) && LegalStep(net, step)
    ensures Next(net, s, step).Ok? && Inv(net, Next(net, s, step).value)
  {
    hide Say, Hear, Carries, Good, NeverFails, Legal, Delivered;
    var pab :| Carries(net.su, net.limitB, s.b, s.ab, pab, s.a.outgoing, s.saidA);
    var pba :| Carries(net.su, net.limitA, s.a, s.ba, pba, s.b.outgoing, s.saidB);
    match step
    case SayA(item) =>
      SayCarries(net.su, net.limitB, s.a, s.b, s.ab, pab, s.saidA, item);
      SameReceiver(net.su, net.limitA, s.a, Say(net.su, net.limitB, s.a, item).value.0, s.ba, pba, s.b.outgoing, s.saidB);
    case SayB(item) =>
      SayCarries(net.su, net.limitA, s.b, s.a, s.ba, pba, s.saidB, item);
      SameReceiver(net.su, net.limitB, s.b, Say(net.su, net.limitA, s.b, item).value.0, s.ab, pab, s.a.outgoing, s.saidA);
    case ReadA =>
      var p1, p2 := HearCarries(net.su, net.limitA, net.limitB, net.room, s.a, s.b, s.ba, pba, s.saidB, s.ab, pab, s.saidA);
    case ReadB =>
      var p1, p2 := HearCarries(net.su, net.limitB, net.limitA, net.room, s.b, s.a, s.ab, pab, s.saidA, s.ba, pba, s.saidB);
  }

  /** Sending does not disturb what is on its way in. */
  lemma SameReceiver(su: Suite, limit: nat, before: State, after: State, queue: seq<Bytes>, packets: seq<Packet>, end: Side,
                     said: seq<Bytes>)
    requires Good(su) && before.Valid() && after.Valid() && after == before.(outgoing := after.outgoing)
    requires Carries(su, limit, before, queue, packets, end, said)
    ensures Carries(su, limit, after, queue, packets, end, said)
  {
  }

  predicate AllStepsLegal(net: Net, steps: seq<Step>) {
    forall i :: 0 <= i < |steps| ==> LegalStep(net, steps[i])
  }

  /** Runs the steps in order and stops at the first that fails. */
  function Converse(net: Net, s: System, steps: seq<Step>): (r: Result<System, EngineError>)
    requires Good(net.su) && s.a.Valid() && s.b.Valid() && AllStepsLegal(net, steps)
    decreases |steps|
  {
    if steps == [] then Ok(s)
    else
      var next :- Next(net, s, steps[0]);
      Converse(net, next, steps[1..])
  }

  /** What each end has received is a prefix of what the other has sent, and all of it, with both on the same
      keys and number, when nothing is in flight. */
  predicate Faithful(s: System) {
    && s.b.delivered <= s.saidA && s.a.delivered <= s.saidB
    && (s.ab == [] ==> s.b.delivered == s.saidA && s.b.incoming == s.a.outgoing && s.b.pending == IDLE)
    && (s.ba == [] ==> s.a.delivered == s.saidB && s.a.incoming == s.b.outgoing && s.a.pending == IDLE)
  }

  lemma InvIsFaithful(net: Net, s: System)
    requires Inv(net, s)
    ensures Faithful(s)
  {
    var pab :| Carries(net.su, net.limitB, s.b, s.ab, pab, s.a.outgoing, s.saidA);
    var pba :| Carries(net.su, net.limitA, s.a, s.ba, pba, s.b.outgoing, s.saidB);
  }

  /** Two mirrored endpoints with nothing said yet. */
  predicate Opening(s: System) {
    && s.a.Valid() && s.b.Valid() && s.a.pending == IDLE && s.b.pending == IDLE
    && s.a.outgoing == s.b.incoming && s.b.outgoing == s.a.incoming
    && s.ab == [] && s.ba == [] && s.saidA == s.b.delivered && s.saidB == s.a.delivered
  }

  lemma OpeningHolds(net: Net, s: System)
    requires net.Valid() && Opening(s)
    ensures Inv(net, s)
  {
    assert s.b.delivered + Data([]) == s.saidA && s.a.delivered + Data([]) == s.saidB;
    assert Carries(net.su, net.limitB, s.b, s.ab, [], s.a.outgoing, s.saidA);
    assert Carries(net.su, net.limitA, s.a, s.ba, [], s.b.outgoing, s.saidB);
  }

  /**
   * The full-duplex conversation. From mirrored endpoints, under every schedule of sends and single-record
   * deliveries on either side, with data, tickets and KeyUpdates from both and replies to the KeyUpdates in
   * between, nothing fails and each end has received exactly what the other sent, in order.
   */
  lemma {:induction false} Conversation(net: Net, s: System, steps: seq<Step>)
    requires Inv(net, s) && AllStepsLegal(net, steps)
    ensures Converse(net, s, steps).Ok? && Inv(net, Converse(net, s, steps).value)
    ensures Faithful(Converse(net, s, steps).value)
    decreases |steps|
  {
    hide Carries, Next, Faithful, LegalStep, Good, NeverFails;
    if steps == [] {
      InvIsFaithful(net, s);
    } else {
      StepKeeps(net, s, steps[0]);
      Conversation(net, Next(net, s, steps[0]).value, steps[1..]);
    }
  }

  // ---- Everything arrives ----

  function Reads(n: nat, step: Step): (steps: seq<Step>)
    ensures |steps| == n && (n > 0 ==> steps[0] == step && steps[1..] == Reads(n - 1, step))
    ensures forall i :: 0 <= i < n ==> steps[i] == step
  {
    if n == 0 then [] else [step] + Reads(n - 1, step)
  }

  lemma {:induction false} ReadsLegal(net: Net, n: nat, step: Step)
    requires step.ReadA? || step.ReadB?
    ensures AllStepsLegal(net, Reads(n, step))
  {
    if n > 0 {
      ReadsLegal(net, n - 1, step);
    }
  }

  lemma {:induction false} ConverseThen(net: Net, s: System, first: seq<Step>, next: seq<Step>)
    requires Good(net.su) && s.a.Valid() && s.b.Valid() && AllStepsLegal(net, first) && AllStepsLegal(net, next)
    requires Converse(net, s, first).Ok?
    ensures Converse(net, s, first).value.a.Valid() && Converse(net, s, first).value.b.Valid()
    ensures Converse(net, s, first + next) == Converse(net, Converse(net, s, first).value, next)
    decreases |first|
  {
    hide Good, Next, LegalStep;
    if first == [] {
      assert first + next == next;
    } else {
      ConverseThen(net, Next(net, s, first[0]).value, first[1..], next);
      assert (first + next)[1..] == first[1..] + next;
    }
  }

  /** Nothing on its way to B asks for a reply. */
  ghost predicate QuietToB(net: Net, s: System)
    requires Inv(net, s)
  {
    exists packets :: Carries(net.su, net.limitB, s.b, s.ab, packets, s.a.outgoing, s.saidA) && Quiet(s.b.pending, packets)
  }

  /** One record read by B leaves one fewer on the way to it, and no reply when none was asked for. */
  lemma BReads(net: Net, s: System)
    requires Inv(net, s) && s.ab != []
    ensures var r := Next(net, s, ReadB);
            && r.Ok? && Inv(net, r.value) && r.value.ab == s.ab[1..]
            && r.value.saidA == s.saidA && r.value.saidB == s.saidB
            && (QuietToB(net, s) ==> QuietToB(net, r.value) && r.value.ba == s.ba)
  {
    hide Hear, Carries, Good, NeverFails, Quiet;
    StepKeeps(net, s, ReadB);
    if QuietToB(net, s) {
      var pab :| Carries(net.su, net.limitB, s.b, s.ab, pab, s.a.outgoing, s.saidA) && Quiet(s.b.pending, pab);
      var pba :| Carries(net.su, net.limitA, s.a, s.ba, pba, s.b.outgoing, s.saidB);
      var p1, p2 := HearCarries(net.su, net.limitB, net.limitA, net.room, s.b, s.a, s.ab, pab, s.saidA, s.ba, pba, s.saidB);
      assert s.ba + [] == s.ba;
    }
  }

  /** Reading by A only adds replies, so what is on its way to B stays quiet. */
  lemma AReads(net: Net, s: System)
    requires Inv(net, s) && s.ba != []
    ensures var r := Next(net, s, ReadA);
            && r.Ok? && Inv(net, r.value) && r.value.ba == s.ba[1..]
            && r.value.saidA == s.saidA && r.value.saidB == s.saidB
            && (QuietToB(net, s) ==> QuietToB(net, r.value))
  {
    hide Hear, Carries, Good, NeverFails, Quiet;
    StepKeeps(net, s, ReadA);
    if QuietToB(net, s) {
      var pab :| Carries(net.su, net.limitB, s.b, s.ab, pab, s.a.outgoing, s.saidA) && Quiet(s.b.pending, pab);
      var pba :| Carries(net.su, net.limitA, s.a, s.ba, pba, s.b.outgoing, s.saidB);
      var p1, p2 := HearCarries(net.su, net.limitA, net.limitB, net.room, s.a, s.b, s.ba, pba, s.saidB, s.ab, pab, s.saidA);
    }
  }

  lemma InvParts(net: Net, s: System)
    requires Inv(net, s)
    ensures Good(net.su) && s.a.Valid() && s.b.Valid()
  {
  }

  lemma {:induction false} BDrains(net: Net, s: System)
    requires Inv(net, s)
    ensures AllStepsLegal(net, Reads(|s.ab|, ReadB))
    ensures var r := Converse(net, s, Reads(|s.ab|, ReadB));
            && r.Ok? && Inv(net, r.value) && r.value.ab == []
            && r.value.saidA == s.saidA && r.value.saidB == s.saidB
            && (QuietToB(net, s) ==> r.value.ba == s.ba)
    decreases |s.ab|
  {
    hide Inv, Next, LegalStep, QuietToB, Good, NeverFails, Reads;
    InvParts(net, s);
    ReadsLegal(net, |s.ab|, ReadB);
    if s.ab != [] {
      BReads(net, s);
      var next := Next(net, s, ReadB).value;
      InvParts(net, next);
      BDrains(net, next);
    }
  }

  lemma {:induction false} ADrains(net: Net, s: System)
    requires Inv(net, s)
    ensures AllStepsLegal(net, Reads(|s.ba|, ReadA))
    ensures var r := Converse(net, s, Reads(|s.ba|, ReadA));
            && r.Ok? && Inv(net, r.value) && r.value.ba == []
            && r.value.saidA == s.saidA && r.value.saidB == s.saidB
            && (QuietToB(net, s) ==> QuietToB(net, r.value))
    decreases |s.ba|
  {
    hide Inv, Next, LegalStep, QuietToB, Good, NeverFails, Reads;
    InvParts(net, s);
    ReadsLegal(net, |s.ba|, ReadA);
    if s.ba != [] {
      AReads(net, s);
      var next := Next(net, s, ReadA).value;
      InvParts(net, next);
      ADrains(net, next);
    }
  }

  lemma EmptyIsQuiet(net: Net, s: System)
    requires Inv(net, s) && s.ab == []
    ensures QuietToB(net, s)
  {
    var pab :| Carries(net.su, net.limitB, s.b, s.ab, pab, s.a.outgoing, s.saidA);
  }

  /**
   * The conversation settles. At any point three rounds of reading empty both directions: a reply never
   * provokes a reply. Then each end holds exactly what the other has sent and their keys agree both ways.
   */
  lemma Settles(net: Net, s: System) returns (steps: seq<Step>)
    requires Inv(net, s)
    ensures AllStepsLegal(net, steps) && forall i :: 0 <= i < |steps| ==> steps[i].ReadA? || steps[i].ReadB?
    ensures var r := Converse(net, s, steps);
            && r.Ok? && r.value.ab == [] && r.value.ba == []
            && r.value.b.delivered == s.saidA && r.value.a.delivered == s.saidB
            && r.value.b.incoming == r.value.a.outgoing && r.value.a.incoming == r.value.b.outgoing
  {
    hide Carries, LegalStep, QuietToB, Good, NeverFails, Converse, Next;
    var one := Reads(|s.ab|, ReadB);
    BDrains(net, s);
    var s1 := Converse(net, s, one).value;
    EmptyIsQuiet(net, s1);
    var two := Reads(|s1.ba|, ReadA);
    ADrains(net, s1);
    var s2 := Converse(net, s1, two).value;
    var three := Reads(|s2.ab|, ReadB);
    BDrains(net, s2);
    var s3 := Converse(net, s2, three).value;
    ConverseThen(net, s, one, two);
    ConverseThen(net, s, one + two, three);
    InvIsFaithful(net, s3);
    steps := one + two + three;
  }
}
