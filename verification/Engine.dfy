/** The data-phase engine: record dispatch, post-handshake message reassembly, KeyUpdate. */
module Engine {
  import opened Bytes
  import opened Consts
  import opened Aead
  import opened Channel

  const PH_STAGE_MAX: nat := 5

  datatype EngineError =
    | Connection(inner: ChannelError)
    | MalformedKeyUpdate
    | PostHandshakeNotSupported
    | InterleavedPostHandshake
    | LimitExceeded(limit: nat, got: nat)
    | UnknownContentType(ct: Byte)
    | Alert(level: Byte, description: Byte)

  // ---- Post-handshake messages, one byte at a time ----

  /** Bytes of a header (and KeyUpdate body) seen so far, and ticket bytes still to skip. */
  datatype Pending = Pending(stage: Bytes, skip: nat) {
    predicate Valid() {
      && (skip > 0 ==> stage == [])
      && (|stage| < 4 || stage == [HS_KEY_UPDATE, 0, 0, 1])
    }

    predicate InProgress() {
      stage != [] || skip != 0
    }
  }

  const IDLE: Pending := Pending([], 0)

  datatype Outcome = Running(p: Pending) | Updated(requested: bool) | Failed(e: EngineError)

  /** What a complete four-byte header means. */
  function OnHeader(stage: Bytes): (o: Outcome)
    requires |stage| == 4
    ensures !o.Updated? && (o.Running? ==> o.p.Valid())
  {
    var bodyLen := GetU24(stage, 1);
    if stage[0] == HS_NEW_SESSION_TICKET then Running(Pending([], bodyLen))
    else if stage[0] == HS_KEY_UPDATE then
      if bodyLen != 1 then Failed(MalformedKeyUpdate)
      else
        assert stage == [stage[0]] + stage[1..4];
        Running(Pending(stage, 0))
    else Failed(PostHandshakeNotSupported)
  }

  function OnByte(p: Pending, b: Byte): (o: Outcome)
    requires p.Valid()
    ensures o.Running? ==> o.p.Valid()
  {
    if p.skip > 0 then Running(p.(skip := p.skip - 1))
    else
      var stage := p.stage + [b];
      if |stage| < 4 then Running(Pending(stage, 0))
      else if |stage| == 4 then OnHeader(stage)
      else if b == 0 then Updated(false)
      else if b == 1 then Updated(true)
      else Failed(MalformedKeyUpdate)
  }

  /** One record's worth of bytes; nothing may follow a KeyUpdate in its record. */
  function OnRecord(p: Pending, content: Bytes): (o: Outcome)
    requires p.Valid()
    ensures o.Running? ==> o.p.Valid()
    decreases |content|
  {
    if content == [] then Running(p)
    else
      match OnByte(p, content[0])
      case Running(q) => OnRecord(q, content[1..])
      case Updated(r) => if |content| == 1 then Updated(r) else Failed(MalformedKeyUpdate)
      case Failed(e) => Failed(e)
  }

  /** Record boundaries do not matter, except after a KeyUpdate. */
  lemma {:induction false} OnRecordSplit(p: Pending, a: Bytes, b: Bytes)
    requires p.Valid()
    ensures OnRecord(p, a + b) ==
            match OnRecord(p, a)
            case Running(q) => OnRecord(q, b)
            case Updated(r) => if b == [] then Updated(r) else Failed(MalformedKeyUpdate)
            case Failed(e) => Failed(e)
    decreases |a|
  {
    if a == [] {
      assert a + b == b;
    } else {
      assert (a + b)[0] == a[0] && (a + b)[1..] == a[1..] + b;
      match OnByte(p, a[0])
      case Running(q) => OnRecordSplit(q, a[1..], b);
      case Updated(_) =>
      case Failed(_) =>
    }
  }

  lemma {:induction false} OnRecordSkips(skip: nat, content: Bytes, n: nat)
    requires n <= skip && n <= |content|
    ensures OnRecord(Pending([], skip), content) == OnRecord(Pending([], skip - n), content[n..])
  {
    if n > 0 {
      OnRecordSkips(skip - 1, content[1..], n - 1);
      assert content[1..][n - 1..] == content[n..];
    } else {
      assert content[0..] == content;
    }
  }

  // ---- The same thing the way the engine runs it ----

  /** Reassembly fields of the engine, fed a whole record at a time. */
  class PostHandshake {
    var stage: array<Byte>
    var stageLen: nat
    var skipRemaining: nat

    ghost predicate Valid()
      reads this, stage
    {
      stage.Length == PH_STAGE_MAX && stageLen < PH_STAGE_MAX && Abs().Valid() && skipRemaining < 0x100_0000
    }

    function Abs(): Pending
      requires stageLen <= stage.Length
      reads this, stage
    {
      Pending(stage[..stageLen], skipRemaining)
    }

    constructor ()
      ensures Valid() && fresh(stage) && Abs() == IDLE
    {
      stage := new Byte[PH_STAGE_MAX](_ => 0);
      stageLen, skipRemaining := 0, 0;
    }

    /** Stage bytes of `content` from `i` on until `upTo` are held or the record ends. */
    method Fill(content: Bytes, i: nat, upTo: nat) returns (next: nat)
      requires i <= |content| && stageLen <= upTo <= stage.Length
      modifies this`stageLen, stage
      ensures i <= next <= |content| && stageLen <= upTo
      ensures stageLen == old(stageLen) + (next - i)
      ensures stage[..stageLen] == old(stage[..stageLen]) + content[i..next]
      ensures next == |content| || stageLen == upTo
    {
      next := i;
      while stageLen < upTo && next < |content|
        invariant i <= next <= |content| && stageLen <= upTo
        invariant stageLen == old(stageLen) + (next - i)
        invariant stage[..stageLen] == old(stage[..stageLen]) + content[i..next]
      {
        stage[stageLen] := content[next];
        stageLen := stageLen + 1;
        next := next + 1;
      }
    }

    /** The flag byte of a KeyUpdate whose header is staged. */
    method FinishKeyUpdate(content: Bytes, i: nat) returns (o: Outcome)
      requires Valid() && i <= |content| && stageLen == 4 && stage[..4] == [HS_KEY_UPDATE, 0, 0, 1]
      modifies this`stageLen, stage
      ensures o == OnRecord(old(Abs()), content[i..])
      ensures !o.Failed? ==> Valid() && Abs() == (if o.Running? then o.p else IDLE)
    {
      var next := Fill(content, i, PH_STAGE_MAX);
      if stageLen < PH_STAGE_MAX {
        return Running(Abs());
      }
      assert stage[..stageLen] == old(stage[..4]) + [content[i]];
      assert stage[4] == stage[..stageLen][4];
      if next != |content| {
        return Failed(MalformedKeyUpdate);
      }
      if stage[4] != 0 && stage[4] != 1 {
        return Failed(MalformedKeyUpdate);
      }
      o := Updated(stage[4] == 1);
      stageLen := 0;
    }

    /** Skip ticket bytes until none are owed or the record ends. */
    method Drain(content: Bytes, i: nat) returns (next: nat)
      requires Valid() && i <= |content|
      modifies this`skipRemaining
      ensures Valid() && i <= next <= |content| && (skipRemaining > 0 ==> next == |content|)
      ensures OnRecord(old(Abs()), content[i..]) == OnRecord(Abs(), content[next..])
    {
      var n := if skipRemaining < |content| - i then skipRemaining else |content| - i;
      next := i + n;
      if n > 0 {
        OnRecordSkips(skipRemaining, content[i..], n);
        assert content[i..][n..] == content[next..];
      }
      skipRemaining := skipRemaining - n;
    }

    /** Complete the four-byte header, or stage the whole rest of the record. */
    method FillHeader(content: Bytes, i: nat) returns (next: nat)
      requires Valid() && i <= |content| && skipRemaining == 0
      modifies this`stageLen, stage
      ensures i <= next <= |content| && stageLen <= 4
      ensures stageLen < 4 ==> Valid() && OnRecord(old(Abs()), content[i..]) == Running(Abs())
      ensures stageLen == 4 ==> OnRecord(old(Abs()), content[i..]) == AfterHeader(stage[..4], content[next..])
      ensures stageLen == 4 && stage[..4] != [HS_KEY_UPDATE, 0, 0, 1] ==> next > i
    {
      next := i;
      if stageLen < 4 {
        next := Fill(content, i, 4);
        OnRecordFills(old(stage[..stageLen]), content[i..], next - i);
        assert content[i..][..next - i] == content[i..next] && content[i..][next - i..] == content[next..];
      }
    }

    /** Feeding a record agrees with the byte-at-a-time reading of it. */
    method Feed(content: Bytes) returns (o: Outcome)
      requires Valid()
      modifies this`stageLen, this`skipRemaining, stage
      ensures o == OnRecord(old(Abs()), content)
      ensures !o.Failed? ==> Valid() && Abs() == (if o.Running? then o.p else IDLE)
    {
      var i := 0;
      assert content[0..] == content;
      while true
        invariant 0 <= i <= |content| && Valid()
        invariant OnRecord(old(Abs()), content) == OnRecord(Abs(), content[i..])
        decreases |content| - i
      {
        i := Drain(content, i);
        if skipRemaining > 0 {
          return Running(Abs());
        }
        i := FillHeader(content, i);
        if stageLen < 4 {
          return Running(Abs());
        }
        var header := stage[..4];
        var bodyLen := GetU24(header, 1);
        if header[0] == HS_NEW_SESSION_TICKET {
          stageLen, skipRemaining := 0, bodyLen;
          i := Drain(content, i);
          if skipRemaining > 0 {
            return Running(Abs());
          }
        } else if header[0] == HS_KEY_UPDATE {
          if bodyLen != 1 {
            return Failed(MalformedKeyUpdate);
          }
          assert header == [header[0]] + header[1..4];
          o := FinishKeyUpdate(content, i);
          return;
        } else {
          return Failed(PostHandshakeNotSupported);
        }
      }
    }
  }

  /** The rest of a record after a complete header. */
  function AfterHeader(stage: Bytes, rest: Bytes): (o: Outcome)
    requires |stage| == 4
  {
    match OnHeader(stage)
    case Running(q) => OnRecord(q, rest)
    case Updated(r) => Updated(r)
    case Failed(e) => Failed(e)
  }

  lemma OnByteStages(stage: Bytes, b: Byte)
    requires |stage| < 4
    ensures OnByte(Pending(stage, 0), b) ==
            if |stage| < 3 then Running(Pending(stage + [b], 0)) else OnHeader(stage + [b])
  {
    hide OnHeader;
  }

  /** Staging `n` more header bytes at once. */
  lemma {:induction false} OnRecordFills(stage: Bytes, content: Bytes, n: nat)
    requires |stage| + n <= 4 && n <= |content| && |stage| < 4
    ensures OnRecord(Pending(stage, 0), content) ==
            if |stage| + n < 4 then OnRecord(Pending(stage + content[..n], 0), content[n..])
            else AfterHeader(stage + content[..n], content[n..])
    decreases n
  {
    hide OnHeader, OnByte;
    if n == 0 {
      assert stage + content[..0] == stage && content[0..] == content;
    } else {
      var more := stage + [content[0]];
      OnByteStages(stage, content[0]);
      if n == 1 {
        assert stage + content[..1] == more;
      } else {
        OnRecordFills(more, content[1..], n - 1);
        assert more + content[1..][..n - 1] == stage + content[..n];
        assert content[1..][n - 1..] == content[n..];
      }
    }
  }

  // ---- The engine's data phase ----

  /** Both directions, the reassembly state, and what the engine has handed out so far:
      non-empty application data to the caller, records to the transport. */
  datatype State = State(outgoing: Side, incoming: Side, pending: Pending, closed: bool,
                         delivered: seq<Bytes>, sent: seq<Bytes>) {
    predicate Valid() {
      outgoing.Valid() && incoming.Valid() && pending.Valid()
    }
  }

  /** Our own KeyUpdate, sealed under the current send keys, then new send keys. */
  function Answer(su: Suite, side: Side, room: nat): (r: Result<(Bytes, Side), ChannelError>)
    requires Good(su) && side.Valid()
    ensures r.Ok? ==> r.value.1.Valid()
  {
    var (record, bumped) :- Send(su, side, KeyUpdateMessage(false), CT_HANDSHAKE, room);
    var next :- Rotate(su, bumped);
    Ok((record, next))
  }

  /** Act on a KeyUpdate: new receive keys for the peer's next record and, if asked, an answer. */
  function OnKeyUpdate(su: Suite, room: nat, st: State, requested: bool): (r: Result<State, EngineError>)
    requires Good(su) && st.Valid()
    ensures r.Ok? ==> r.value.Valid()
  {
    match Rotate(su, st.incoming)
    case Err(e) => Err(Connection(e))
    case Ok(incoming) =>
      if !requested then Ok(st.(incoming := incoming, pending := IDLE))
      else
        match Answer(su, st.outgoing, room)
        case Err(e) => Err(Connection(e))
        case Ok((record, outgoing)) =>
          Ok(st.(outgoing := outgoing, incoming := incoming, pending := IDLE, sent := st.sent + [record]))
  }

  function OnContent(su: Suite, room: nat, st: State, content: Bytes, ct: Byte): (r: Result<State, EngineError>)
    requires Good(su) && st.Valid()
    ensures r.Ok? ==> r.value.Valid()
  {
    if ct != CT_HANDSHAKE && st.pending.InProgress() then Err(InterleavedPostHandshake)
    else if ct == CT_APPLICATION_DATA then
      Ok(if content == [] then st else st.(delivered := st.delivered + [content]))
    else if ct == CT_ALERT then
      if |content| < 2 then Err(Connection(Decrypt(Truncated)))
      else if content[0] == 1 && content[1] == 0 then Ok(st.(closed := true))
      else Err(Alert(content[0], content[1]))
    else if ct == CT_HANDSHAKE then
      match OnRecord(st.pending, content)
      case Failed(e) => Err(e)
      case Running(p) => Ok(st.(pending := p))
      case Updated(requested) => OnKeyUpdate(su, room, st, requested)
    else Err(UnknownContentType(ct))
  }

  /** One framed record off the wire. */
  function OnWire(su: Suite, limit: nat, room: nat, st: State, record: Bytes): (r: Result<State, EngineError>)
    requires Good(su) && st.Valid() && |record| >= RECORD_HEADER
    ensures r.Ok? ==> r.value.Valid()
  {
    var bodyLen := |record| - RECORD_HEADER;
    if record[0] != CT_APPLICATION_DATA then Err(UnknownContentType(record[0]))
    else if bodyLen > limit + AEAD_TAG_LEN then Err(LimitExceeded(limit, bodyLen % 0x1_0000))
    else
      match Receive(su, st.incoming, record)
      case Err(e) => Err(Connection(e))
      case Ok(((content, ct), incoming)) => OnContent(su, room, st.(incoming := incoming), content, ct)
  }

  /** The five ways a record is taken: each by its inner content type. */
  predicate Takes(su: Suite, room: nat, st: State, content: Bytes, ct: Byte)
    requires Good(su) && st.Valid()
  {
    || (ct == 23 && !st.pending.InProgress())
    || (ct == 21 && !st.pending.InProgress() && |content| >= 2 && content[..2] == [1, 0])
    || (ct == 22 && match OnRecord(st.pending, content)
                    case Running(_) => true
                    case Updated(requested) =>
                      Rotate(su, st.incoming).Ok? && (requested ==> Answer(su, st.outgoing, room).Ok?)
                    case Failed(_) => false)
  }

  /**
   * A record off the wire is taken exactly when it is application data by its outer type, within the receive
   * limit, opens under the receive keys, and its content is data or close_notify between messages, or handshake
   * bytes the reassembly takes and whose KeyUpdate can be acted on.
   */
  lemma TakenExactly(su: Suite, limit: nat, room: nat, st: State, record: Bytes)
    requires Good(su) && st.Valid() && |record| >= 5
    ensures OnWire(su, limit, room, st, record).Ok? <==>
            && record[0] == 23 && |record| <= limit + 21
            && var r := Receive(su, st.incoming, record);
               r.Ok? && Takes(su, room, st.(incoming := r.value.1), r.value.0.0, r.value.0.1)
  {
    hide Receive, OnRecord, Rotate, Answer;
    var r := Receive(su, st.incoming, record);
    if r.Ok? {
      var content := r.value.0.0;
      assert |content| >= 2 ==> content[..2] == [content[0], content[1]];
    }
  }

  /** What taking it does: data is handed out as it came, empty data leaves no trace, close_notify and nothing else
      closes, and only handshake bytes touch the reassembly, the keys or what is sent. */
  lemma TakenEffect(su: Suite, room: nat, st: State, content: Bytes, ct: Byte)
    requires Good(su) && st.Valid() && OnContent(su, room, st, content, ct).Ok?
    ensures var next := OnContent(su, room, st, content, ct).value;
            && next.delivered == st.delivered + (if ct == 23 && content != [] then [content] else [])
            && (next.closed <==> st.closed || ct == 21)
            && (ct != 22 ==> next == st.(delivered := next.delivered, closed := next.closed))
            && (ct == 21 ==> |content| >= 2 && content[..2] == [1, 0])
  {
    hide OnRecord, Rotate, Answer;
    assert |content| >= 2 ==> content[..2] == [content[0], content[1]];
  }

  /** Each refusal before the reassembly, by its cause. */
  lemma RefusedFor(su: Suite, limit: nat, room: nat, st: State, record: Bytes)
    requires Good(su) && st.Valid() && |record| >= 5
    ensures record[0] != 23 ==> OnWire(su, limit, room, st, record) == Err(UnknownContentType(record[0]))
    ensures record[0] == 23 && |record| > limit + 21 ==>
              OnWire(su, limit, room, st, record) == Err(LimitExceeded(limit, (|record| - 5) % 65536))
    ensures record[0] == 23 && |record| <= limit + 21 ==>
            match Receive(su, st.incoming, record)
            case Err(e) => OnWire(su, limit, room, st, record) == Err(Connection(e))
            case Ok(((content, ct), _)) =>
              var r := OnWire(su, limit, room, st, record);
              && (ct != 22 && st.pending.InProgress() ==> r == Err(InterleavedPostHandshake))
              && (ct == 21 && !st.pending.InProgress() && |content| < 2 ==> r == Err(Connection(Decrypt(Truncated))))
              && (ct == 21 && !st.pending.InProgress() && |content| >= 2 && content[..2] != [1, 0] ==>
                    r == Err(Alert(content[0], content[1])))
              && (ct !in {21, 22, 23} && !st.pending.InProgress() ==> r == Err(UnknownContentType(ct)))
  {
    hide Receive, OnRecord, Rotate, Answer;
    var r := Receive(su, st.incoming, record);
    if r.Ok? {
      var content := r.value.0.0;
      assert |content| >= 2 ==> content[..2] == [content[0], content[1]];
    }
  }

  class TlsEngine {
    const conn: Connection
    const ph: PostHandshake
    const recvLimit: nat
    const sendBuf: array<Byte>
    var closed: bool
    var delivered: seq<Bytes>
    var sent: seq<Bytes>

    ghost predicate Valid()
      reads this, conn, ph, ph.stage
    {
      conn.Valid() && ph.Valid() && ph.stage != sendBuf
    }

    ghost function Abs(): State
      requires ph.stageLen <= ph.stage.Length
      reads this, conn, ph, ph.stage
    {
      State(conn.Outgoing(), conn.Incoming(), ph.Abs(), closed, delivered, sent)
    }

    constructor (su: Suite, outgoing: Side, incoming: Side, limit: nat, buf: array<Byte>)
      requires Good(su) && outgoing.Valid() && incoming.Valid()
      ensures Valid() && conn.suite == su && recvLimit == limit && sendBuf == buf
      ensures Abs() == State(outgoing, incoming, IDLE, false, [], [])
    {
      conn := new Connection(su, outgoing, incoming);
      ph := new PostHandshake();
      recvLimit, sendBuf := limit, buf;
      closed, delivered, sent := false, [], [];
    }

    method AnswerKeyUpdate() returns (r: Result<Bytes, ChannelError>)
      requires conn.Valid()
      modifies conn`seqOut, conn`sendKeys, conn`sendSecret, sendBuf
      ensures conn.Valid()
      ensures match old(Answer(conn.suite, conn.Outgoing(), sendBuf.Length))
              case Err(e) => r == Err(e)
              case Ok((record, next)) => r == Ok(record) && conn.Outgoing() == next
    {
      var n := conn.EncryptKeyUpdate(false, sendBuf);
      if n.Err? {
        return Err(n.error);
      }
      var record := sendBuf[..n.value];
      SpliceReads(old(sendBuf[..]), 0,
                  old(Send(conn.suite, conn.Outgoing(), KeyUpdateMessage(false), CT_HANDSHAKE, sendBuf.Length)).value.0);
      var rotated := conn.ApplySendKeyUpdate();
      if rotated.Err? {
        return Err(rotated.error);
      }
      r := Ok(record);
    }

    method ProcessKeyUpdate(requested: bool) returns (r: Result<(), EngineError>)
      requires Valid() && ph.Abs() == IDLE
      modifies this`sent, conn, sendBuf
      ensures Valid()
      ensures match old(OnKeyUpdate(conn.suite, sendBuf.Length, Abs(), requested))
              case Err(e) => r == Err(e)
              case Ok(st) => r == Ok(()) && Abs() == st
    {
      var rotated := conn.ApplyRecvKeyUpdate();
      if rotated.Err? {
        return Err(Connection(rotated.error));
      }
      if !requested {
        return Ok(());
      }
      var answer := AnswerKeyUpdate();
      if answer.Err? {
        return Err(Connection(answer.error));
      }
      sent := sent + [answer.value];
      r := Ok(());
    }

    method HandleInnerContent(content: Bytes, ct: Byte) returns (r: Result<(), EngineError>)
      requires Valid()
      modifies this`closed, this`delivered, this`sent, conn, ph`stageLen, ph`skipRemaining, ph.stage, sendBuf
      ensures match old(OnContent(conn.suite, sendBuf.Length, Abs(), content, ct))
              case Err(e) => r == Err(e)
              case Ok(st) => r == Ok(()) && Valid() && Abs() == st
    {
      if ct != CT_HANDSHAKE && (ph.stageLen != 0 || ph.skipRemaining != 0) {
        return Err(InterleavedPostHandshake);
      }
      if ct == CT_APPLICATION_DATA {
        if |content| > 0 {
          delivered := delivered + [content];
        }
        return Ok(());
      }
      if ct == CT_ALERT {
        if |content| < 2 {
          return Err(Connection(Decrypt(Truncated)));
        }
        if content[0] == 1 && content[1] == 0 {
          closed := true;
          return Ok(());
        }
        return Err(Alert(content[0], content[1]));
      }
      if ct != CT_HANDSHAKE {
        return Err(UnknownContentType(ct));
      }
      var o := ph.Feed(content);
      match o
      case Failed(e) => r := Err(e);
      case Running(_) => r := Ok(());
      case Updated(requested) => r := ProcessKeyUpdate(requested);
    }

    /** Any failure closes the engine. */
    method DispatchDataRecord(record: array<Byte>) returns (r: Result<(), EngineError>)
      requires Valid() && record.Length >= RECORD_HEADER && record != ph.stage && record != sendBuf
      modifies this`closed, this`delivered, this`sent, conn, ph`stageLen, ph`skipRemaining, ph.stage, sendBuf, record
      ensures match old(OnWire(conn.suite, recvLimit, sendBuf.Length, Abs(), record[..]))
              case Err(e) => r == Err(e) && closed
              case Ok(st) => r == Ok(()) && Valid() && Abs() == st
    {
      var bodyLen := record.Length - RECORD_HEADER;
      if record[0] != CT_APPLICATION_DATA {
        closed := true;
        return Err(UnknownContentType(record[0]));
      }
      if bodyLen > recvLimit + AEAD_TAG_LEN {
        closed := true;
        return Err(LimitExceeded(recvLimit, bodyLen % 0x1_0000));
      }
      var plain := conn.DecryptRecordInPlace(record);
      if plain.Err? {
        closed := true;
        return Err(Connection(plain.error));
      }
      var (contentLen, ct) := plain.value;
      r := HandleInnerContent(record[RECORD_HEADER..RECORD_HEADER + contentLen], ct);
      if r.Err? {
        closed := true;
      }
    }
  }
}
