/**
 * The handshake flights as records: the client's second flight cut to the peer's
 * record_size_limit, and the step that feeds received records to the reassembler.
 */
module FlightRecords {
  import opened Bytes
  import opened Consts
  import opened Aead
  import opened Reassembler

  const RECORD_OVERHEAD := RECORD_HEADER + AEAD_TAG_LEN

  predicate LegalLimit(rsl: nat) {
    MIN_RECORD_SIZE_LIMIT <= rsl <= PROTO_MAX_INNER_PLAINTEXT
  }

  // ---- Sizes ----

  function DivCeil(n: nat, m: nat): (q: nat)
    requires m > 0
  {
    (n + m - 1) / m
  }

  function MaxChunk(rsl: nat): (m: nat)
    ensures m > 0
  {
    if rsl <= CONTENT_TYPE_LEN + 1 then 1 else rsl - CONTENT_TYPE_LEN
  }

  /** What `n` bytes take on the wire in chunks of `m`. */
  function FlightSize(n: nat, m: nat): (size: nat)
    requires m > 0
  {
    n + DivCeil(n, m) * (RECORD_OVERHEAD + CONTENT_TYPE_LEN)
  }

  function ClientAuthSendFloor(maxFlight: nat): (size: nat) {
    if maxFlight == 0 then 0
    else FlightSize(maxFlight, MIN_RECORD_SIZE_LIMIT - CONTENT_TYPE_LEN)
  }

  lemma DivCeilExactly(n: nat, m: nat, q: nat)
    requires m > 0
    ensures DivCeil(n, m) == q <==> q * m >= n && (q == 0 || (q - 1) * m < n)
  {
    var d := DivCeil(n, m);
    var k := n + m - 1;
    assert k == (k / m) * m + k % m;
    assert d * m >= n && d * m < n + m;
    if d < q {
      assert (q - 1) * m >= d * m by { MulMonotone(d, q - 1, m); }
    } else if q < d {
      assert (d - 1) * m >= q * m by { MulMonotone(q, d - 1, m); }
      assert (d - 1) * m == d * m - m;
    } else if q > 0 {
      assert (q - 1) * m == q * m - m;
    }
  }

  lemma MulMonotone(a: nat, b: nat, m: nat)
    requires a <= b
    ensures a * m <= b * m
  {
    assert b * m == a * m + (b - a) * m;
  }

  lemma DivCeilMonotone(n: nat, m: nat, n2: nat, m2: nat)
    requires 0 < m2 <= m && n <= n2
    ensures DivCeil(n, m) <= DivCeil(n2, m2)
  {
    var d, d2 := DivCeil(n, m), DivCeil(n2, m2);
    DivCeilExactly(n, m, d);
    DivCeilExactly(n2, m2, d2);
    hide DivCeil;
    if d > d2 {
      assert d2 * m2 <= d2 * m by { MulMonotone(m2, m, d2); }
      MulMonotone(d2, d - 1, m);
      assert false;
    }
  }

  /** The floor covers every flight up to the cap under every legal limit. */
  lemma FloorCovers(n: nat, maxFlight: nat, rsl: nat)
    requires n <= maxFlight && LegalLimit(rsl)
    ensures FlightSize(n, MaxChunk(rsl)) <= ClientAuthSendFloor(maxFlight)
  {
    DivCeilMonotone(n, MaxChunk(rsl), maxFlight, MIN_RECORD_SIZE_LIMIT - CONTENT_TYPE_LEN);
    if maxFlight == 0 {
      DivCeilExactly(0, MaxChunk(rsl), 0);
    }
  }

  // ---- Cutting ----

  function Chunks(plain: Bytes, m: nat): (cs: seq<Bytes>)
    requires m > 0
    decreases |plain|
  {
    if plain == [] then [] else if |plain| <= m then [plain] else [plain[..m]] + Chunks(plain[m..], m)
  }

  function Records(c: Cipher, keys: RecordKeys, chunks: seq<Bytes>, first: nat): (rs: seq<Bytes>)
    requires |keys.iv| == 12 && AllFit(chunks)
    ensures |rs| == |chunks|
  {
    if chunks == [] then []
    else [SealRecord(c, keys, first, chunks[0], CT_HANDSHAKE)] + Records(c, keys, chunks[1..], first + 1)
  }

  predicate AllFit(chunks: seq<Bytes>) {
    forall i :: 0 <= i < |chunks| ==> |chunks[i]| <= TLS_PLAINTEXT_MAX
  }

  /** The pieces are nonempty, at most `m` long, as many as the ceiling says, and join up again. */
  lemma {:induction false} ChunksPartition(plain: Bytes, m: nat)
    requires m > 0
    ensures Flatten(Chunks(plain, m)) == plain
    ensures |Chunks(plain, m)| == DivCeil(|plain|, m)
    ensures forall i :: 0 <= i < |Chunks(plain, m)| ==> 0 < |Chunks(plain, m)[i]| <= m
    decreases |plain|
  {
    if plain == [] {
      DivCeilExactly(0, m, 0);
    } else if |plain| <= m {
      FlattenOne(plain);
      DivCeilExactly(|plain|, m, 1);
    } else {
      var rest := plain[m..];
      ChunksPartition(rest, m);
      DivCeilNext(|rest|, m);
      hide DivCeil;
      assert plain[..m] + rest == plain;
      assert Chunks(plain, m)[1..] == Chunks(rest, m);
    }
  }

  lemma DivCeilNext(n: nat, m: nat)
    requires m > 0
    ensures DivCeil(n + m, m) == DivCeil(n, m) + 1
  {
    var d := DivCeil(n, m);
    DivCeilExactly(n, m, d);
    assert (d + 1) * m == d * m + m;
    if d > 0 {
      assert d * m == (d - 1) * m + m;
    }
    DivCeilExactly(n + m, m, d + 1);
  }

  lemma {:induction false} RecordsSize(c: Cipher, keys: RecordKeys, chunks: seq<Bytes>, first: nat)
    requires Sound(c) && |keys.iv| == 12 && AllFit(chunks)
    ensures |Flatten(Records(c, keys, chunks, first))|
         == |Flatten(chunks)| + |chunks| * (RECORD_OVERHEAD + CONTENT_TYPE_LEN)
    decreases |chunks|
  {
    hide SealRecord, Sound;
    if chunks != [] {
      OpenUndoesSeal(c, keys, first, chunks[0], CT_HANDSHAKE);
      RecordsSize(c, keys, chunks[1..], first + 1);
    }
  }

  /** The first failure of sealing the chunks one after the other into `room` bytes. */
  function FlightFailure(chunks: seq<Bytes>, room: nat): (e: Option<EncryptError>) {
    if chunks == [] then None
    else
      match SealError(|chunks[0]|, room)
      case Some(e) => Some(e)
      case None => FlightFailure(chunks[1..], room - RecordLen(|chunks[0]|))
  }

  lemma {:induction false} FailureExactly(chunks: seq<Bytes>, room: nat)
    requires AllFit(chunks)
    ensures FlightFailure(chunks, room).None?
       <==> |Flatten(chunks)| + |chunks| * (RECORD_OVERHEAD + CONTENT_TYPE_LEN) <= room
    ensures FlightFailure(chunks, room).Some? ==> FlightFailure(chunks, room).value.BufferTooSmall?
    decreases |chunks|
  {
    if chunks != [] && SealError(|chunks[0]|, room).None? {
      FailureExactly(chunks[1..], room - RecordLen(|chunks[0]|));
    }
  }

  lemma {:induction false} NoFailureFits(chunks: seq<Bytes>, room: nat)
    requires FlightFailure(chunks, room).None?
    ensures AllFit(chunks)
    decreases |chunks|
  {
    if chunks != [] {
      NoFailureFits(chunks[1..], room - RecordLen(|chunks[0]|));
      assert forall i :: 1 <= i < |chunks| ==> chunks[i] == chunks[1..][i - 1];
    }
  }

  /**
   * Under a legal limit a flight is sealed exactly when the buffer holds
   * `n + ceil(n / (rsl - 1)) * 22` bytes, and no inner plaintext exceeds the limit.
   */
  lemma FlightFits(plain: Bytes, rsl: nat, room: nat)
    requires LegalLimit(rsl)
    ensures AllFit(Chunks(plain, MaxChunk(rsl)))
    ensures forall i :: 0 <= i < |Chunks(plain, MaxChunk(rsl))| ==>
              |Chunks(plain, MaxChunk(rsl))[i]| + CONTENT_TYPE_LEN <= rsl
    ensures FlightFailure(Chunks(plain, MaxChunk(rsl)), room).None? <==> FlightSize(|plain|, MaxChunk(rsl)) <= room
  {
    var m := MaxChunk(rsl);
    ChunksPartition(plain, m);
    FailureExactly(Chunks(plain, m), room);
  }

  /** Every piece but the last fills the limit, and the size is 22 bytes for each piece on top of the flight. */
  lemma PiecesFill(plain: Bytes, rsl: nat)
    requires 64 <= rsl <= 16385
    ensures LegalLimit(rsl)
    ensures forall i :: 0 <= i < |Chunks(plain, MaxChunk(rsl))| - 1 ==> |Chunks(plain, MaxChunk(rsl))[i]| + 1 == rsl
    ensures FlightSize(|plain|, MaxChunk(rsl)) == |plain| + 22 * |Chunks(plain, MaxChunk(rsl))|
  {
    ChunksFill(plain, MaxChunk(rsl));
    ChunksPartition(plain, MaxChunk(rsl));
  }

  lemma {:induction false} ChunksFill(plain: Bytes, m: nat)
    requires m > 0
    ensures forall i :: 0 <= i < |Chunks(plain, m)| - 1 ==> |Chunks(plain, m)[i]| == m
    decreases |plain|
  {
    if |plain| > m {
      ChunksFill(plain[m..], m);
      var cs := Chunks(plain, m);
      assert forall i :: 1 <= i < |cs| ==> cs[i] == Chunks(plain[m..], m)[i - 1];
    }
  }

  /** Only a legal limit is one between 64 and 16385, and the floor is no larger than the longest flight under the
      smallest limit takes. */
  lemma FloorAttained(maxFlight: nat, rsl: nat)
    ensures LegalLimit(rsl) <==> 64 <= rsl <= 16385
    ensures ClientAuthSendFloor(maxFlight) == FlightSize(maxFlight, MaxChunk(64))
  {
    if maxFlight == 0 {
      DivCeilExactly(0, MaxChunk(64), 0);
    }
  }

  /** A send buffer of the floor size never comes back too small. */
  lemma FloorSuffices(plain: Bytes, maxFlight: nat, rsl: nat, room: nat)
    requires LegalLimit(rsl) && |plain| <= maxFlight && ClientAuthSendFloor(maxFlight) <= room
    ensures FlightFailure(Chunks(plain, MaxChunk(rsl)), room).None?
  {
    FloorCovers(|plain|, maxFlight, rsl);
    FlightFits(plain, rsl, room);
  }

  /** No two records of the flight share a nonce. */
  lemma FlightNonces(iv: Bytes, plain: Bytes, m: nat, i: nat, j: nat)
    requires |iv| == 12 && m > 0 && |plain| < TWO64
    requires i < j < |Chunks(plain, m)|
    ensures RecordNonce(iv, i) != RecordNonce(iv, j)
  {
    ChunksPartition(plain, m);
    FewChunks(|plain|, m);
    if RecordNonce(iv, i) == RecordNonce(iv, j) {
      NonceInjective(iv, i, j);
    }
  }

  /** Cutting at `m`, from offset `at` on, is the loop's next chunk and the rest. */
  lemma ChunkAt(plain: Bytes, m: nat, at: nat)
    requires m > 0 && at < |plain|
    ensures var end := if |plain| - at <= m then |plain| else at + m;
            Chunks(plain[at..], m) == [plain[at..end]] + Chunks(plain[end..], m)
  {
    if |plain| - at > m {
      assert plain[at..][..m] == plain[at..at + m] && plain[at..][m..] == plain[at + m..];
    } else {
      assert plain[at..] == plain[at..|plain|] && plain[|plain|..] == [];
    }
  }

  method EncryptHandshakeFlight(c: Cipher, keys: RecordKeys, plain: Bytes, rsl: nat, out: array<Byte>)
    returns (r: Result<nat, EncryptError>)
    requires Sound(c) && |keys.iv| == 12 && rsl < 0x1_0000 && |plain| < TWO64
    modifies out
    ensures r.Err? <==> FlightFailure(Chunks(plain, MaxChunk(rsl)), out.Length).Some?
    ensures r.Err? ==> FlightFailure(Chunks(plain, MaxChunk(rsl)), out.Length) == Some(r.error)
    ensures r.Ok? ==>
      && AllFit(Chunks(plain, MaxChunk(rsl)))
      && r.value <= out.Length
      && out[..r.value] == Flatten(Records(c, keys, Chunks(plain, MaxChunk(rsl)), 0))
  {
    hide Sound, SealRecord, RecordLen, Splice, Chunks, Records, FlightFailure, SealError;
    var m := MaxChunk(rsl);
    var written: nat, at: nat, i: nat := 0, 0, 0;
    ghost var done: seq<Bytes> := [];
    SealStarts(c, keys, plain, m, out.Length);
    assert out[..0] == [];
    while at < |plain|
      invariant 0 <= at <= |plain| && i <= at && written <= out.Length
      invariant SealedSoFar(c, keys, plain, m, at, i, done, out.Length, written)
      invariant out[..written] == Flatten(Records(c, keys, done, 0))
    {
      var end := if |plain| - at <= m then |plain| else at + m;
      ghost var before := out[..];
      var n := EncryptRecord(c, keys, plain[at..end], CT_HANDSHAKE, i, out, written);
      SealSteps(c, keys, plain, m, at, i, done, out.Length, written);
      if n.Err? {
        return Err(n.error);
      }
      done := done + [plain[at..end]];
      SpliceExtends(before, out[..], written, SealRecord(c, keys, i, plain[at..end], CT_HANDSHAKE));
      written, at, i := written + n.value, end, i + 1;
    }
    SealStops(c, keys, plain, m, at, i, done, out.Length, written);
    return Ok(written);
  }

  lemma SpliceExtends(before: Bytes, now: Bytes, at: nat, part: Bytes)
    requires at + |part| <= |before| && now == Splice(before, at, part)
    ensures |now| == |before| && now[..at + |part|] == before[..at] + part
  {
  }

  /** The sealing loop has written the chunks in `done` and has the rest of the plaintext to go. */
  ghost predicate SealedSoFar(c: Cipher, keys: RecordKeys, plain: Bytes, m: nat, at: nat, i: nat,
                              done: seq<Bytes>, room: nat, written: nat)
    requires m > 0 && |keys.iv| == 12
  {
    && at <= |plain| && written <= room && AllFit(done) && i == |done|
    && Chunks(plain, m) == done + Chunks(plain[at..], m)
    && FlightFailure(Chunks(plain, m), room) == FlightFailure(Chunks(plain[at..], m), room - written)
  }

  lemma SealStarts(c: Cipher, keys: RecordKeys, plain: Bytes, m: nat, room: nat)
    requires m > 0 && |keys.iv| == 12
    ensures SealedSoFar(c, keys, plain, m, 0, 0, [], room, 0)
    ensures Flatten(Records(c, keys, [], 0)) == []
  {
    assert plain[0..] == plain && [] + Chunks(plain, m) == Chunks(plain, m);
  }

  lemma SealStops(c: Cipher, keys: RecordKeys, plain: Bytes, m: nat, at: nat, i: nat,
                  done: seq<Bytes>, room: nat, written: nat)
    requires m > 0 && |keys.iv| == 12 && at == |plain|
    requires SealedSoFar(c, keys, plain, m, at, i, done, room, written)
    ensures done == Chunks(plain, m) && AllFit(done) && FlightFailure(Chunks(plain, m), room).None?
  {
    assert plain[at..] == [] && done + [] == done;
  }

  lemma SealSteps(c: Cipher, keys: RecordKeys, plain: Bytes, m: nat, at: nat, i: nat,
                  done: seq<Bytes>, room: nat, written: nat)
    requires m > 0 && |keys.iv| == 12 && at < |plain|
    requires SealedSoFar(c, keys, plain, m, at, i, done, room, written)
    ensures var end := if |plain| - at <= m then |plain| else at + m;
            match SealError(end - at, room - written)
            case Some(e) => FlightFailure(Chunks(plain, m), room) == Some(e)
            case None =>
              && SealedSoFar(c, keys, plain, m, end, i + 1, done + [plain[at..end]], room,
                             written + RecordLen(end - at))
              && end - at <= TLS_PLAINTEXT_MAX
              && Flatten(Records(c, keys, done + [plain[at..end]], 0))
                 == Flatten(Records(c, keys, done, 0)) + SealRecord(c, keys, i, plain[at..end], CT_HANDSHAKE)
  {
    hide Chunks, Records, SealRecord;
    var end := if |plain| - at <= m then |plain| else at + m;
    ChunkAt(plain, m, at);
    var chunk, rest := plain[at..end], Chunks(plain[end..], m);
    assert ([chunk] + rest)[1..] == rest;
    if SealError(end - at, room - written).None? {
      assert done + ([chunk] + rest) == done + [chunk] + rest;
      RecordsSnoc(c, keys, done, chunk, 0);
      FlattenAppend(Records(c, keys, done, 0), [SealRecord(c, keys, i, chunk, CT_HANDSHAKE)]);
      FlattenOne(SealRecord(c, keys, i, chunk, CT_HANDSHAKE));
    }
  }

  lemma {:induction false} RecordsSnoc(c: Cipher, keys: RecordKeys, chunks: seq<Bytes>, chunk: Bytes, first: nat)
    requires |keys.iv| == 12 && AllFit(chunks) && |chunk| <= TLS_PLAINTEXT_MAX
    ensures AllFit(chunks + [chunk])
    ensures Records(c, keys, chunks + [chunk], first)
         == Records(c, keys, chunks, first) + [SealRecord(c, keys, first + |chunks|, chunk, CT_HANDSHAKE)]
    decreases |chunks|
  {
    hide SealRecord;
    if chunks == [] {
      assert [] + [chunk] == [chunk];
    } else {
      RecordsSnoc(c, keys, chunks[1..], chunk, first + 1);
      assert (chunks + [chunk])[1..] == chunks[1..] + [chunk];
    }
  }

  // ---- Feeding ----

  datatype FeedError = Decrypt(e: DecryptError) | Reassembly(r: ReassemblyError)

  datatype FlightStep = Pending | Ready

  /** The receiver: sequence number and reassembled bytes. */
  datatype Feed = Feed(seqIn: nat, buf: Bytes)

  function FeedRecord(c: Cipher, keys: RecordKeys, capacity: nat, f: Feed, record: Bytes): (r: Result<Feed, FeedError>)
    requires |keys.iv| == 12
  {
    if record == [] then Err(Decrypt(DecryptError.Truncated))
    else if record[0] == CT_CHANGE_CIPHER_SPEC then Ok(f)
    else if record[0] != CT_APPLICATION_DATA then Err(Decrypt(UnexpectedContentType(record[0])))
    else
      match OpenAndSplit(c, keys, f.seqIn, record)
      case Err(e) => Err(Decrypt(e))
      case Ok((content, ct)) =>
        if ct != CT_HANDSHAKE then Err(Decrypt(UnexpectedContentType(ct)))
        else if |f.buf| + |content| > capacity then Err(Reassembly(Overflow))
        else Ok(Feed((f.seqIn + 1) % TWO64, f.buf + content))
  }

  function FeedAll(c: Cipher, keys: RecordKeys, capacity: nat, f: Feed, wire: seq<Bytes>): (r: Result<Feed, FeedError>)
    requires |keys.iv| == 12
    decreases |wire|
  {
    if wire == [] then Ok(f)
    else
      var next :- FeedRecord(c, keys, capacity, f, wire[0]);
      FeedAll(c, keys, capacity, next, wire[1..])
  }

  predicate IsCcs(record: Bytes) {
    record != [] && record[0] == 20
  }

  function DropCcs(wire: seq<Bytes>): (rest: seq<Bytes>) {
    if wire == [] then [] else if IsCcs(wire[0]) then DropCcs(wire[1..]) else [wire[0]] + DropCcs(wire[1..])
  }

  /**
   * A record is taken exactly when it is a ChangeCipherSpec, which changes nothing, or opens to handshake bytes
   * that still fit, which are appended and counted.
   */
  lemma FedExactly(c: Cipher, keys: RecordKeys, capacity: nat, f: Feed, record: Bytes, next: Feed)
    requires |keys.iv| == 12
    ensures FeedRecord(c, keys, capacity, f, record) == Ok(next) <==>
            || (IsCcs(record) && next == f)
            || (record != [] && record[0] == 23
                && exists content :: OpenAndSplit(c, keys, f.seqIn, record) == Ok((content, 22))
                                     && |f.buf| + |content| <= capacity
                                     && next == Feed((f.seqIn + 1) % 0x1_0000_0000_0000_0000, f.buf + content))
  {
    hide OpenAndSplit;
    var inner := OpenAndSplit(c, keys, f.seqIn, record);
    if inner.Ok? {
      var (content, ct) := inner.value;
      assert inner == Ok((content, ct));
    }
  }

  /** Each refusal, by its cause. */
  lemma FeedRefused(c: Cipher, keys: RecordKeys, capacity: nat, f: Feed, record: Bytes)
    requires |keys.iv| == 12
    ensures record == [] ==> FeedRecord(c, keys, capacity, f, record) == Err(Decrypt(DecryptError.Truncated))
    ensures record != [] && record[0] !in {20, 23} ==>
              FeedRecord(c, keys, capacity, f, record) == Err(Decrypt(UnexpectedContentType(record[0])))
    ensures record != [] && record[0] == 23 ==>
            match OpenAndSplit(c, keys, f.seqIn, record)
            case Err(e) => FeedRecord(c, keys, capacity, f, record) == Err(Decrypt(e))
            case Ok((content, ct)) =>
              && (ct != 22 ==> FeedRecord(c, keys, capacity, f, record) == Err(Decrypt(UnexpectedContentType(ct))))
              && (ct == 22 && |f.buf| + |content| > capacity ==>
                    FeedRecord(c, keys, capacity, f, record) == Err(Reassembly(Overflow)))
  {
    hide OpenAndSplit;
  }

  /** ChangeCipherSpec records are invisible wherever they stand. */
  lemma {:induction false} CcsInvisible(c: Cipher, keys: RecordKeys, capacity: nat, f: Feed, wire: seq<Bytes>)
    requires |keys.iv| == 12
    ensures FeedAll(c, keys, capacity, f, wire) == FeedAll(c, keys, capacity, f, DropCcs(wire))
    decreases |wire|
  {
    hide OpenAndSplit;
    if wire != [] {
      var next := FeedRecord(c, keys, capacity, f, wire[0]);
      if next.Ok? {
        CcsInvisible(c, keys, capacity, next.value, wire[1..]);
      }
      if !IsCcs(wire[0]) {
        assert ([wire[0]] + DropCcs(wire[1..]))[1..] == DropCcs(wire[1..]);
      }
    }
  }

  lemma SealedFeeds(c: Cipher, keys: RecordKeys, capacity: nat, f: Feed, chunk: Bytes)
    requires Sound(c) && |keys.iv| == 12 && |chunk| <= TLS_PLAINTEXT_MAX
    ensures FeedRecord(c, keys, capacity, f, SealRecord(c, keys, f.seqIn, chunk, CT_HANDSHAKE))
         == if |f.buf| + |chunk| > capacity then Err(Reassembly(Overflow))
            else Ok(Feed((f.seqIn + 1) % TWO64, f.buf + chunk))
  {
    RecordRoundTrip(c, keys, f.seqIn, chunk, CT_HANDSHAKE);
    hide OpenAndSplit, Sound, RecordNonce;
    var record := SealRecord(c, keys, f.seqIn, chunk, CT_HANDSHAKE);
    assert record[0] == CT_APPLICATION_DATA;
  }

  lemma {:induction false} RecordsFeed(c: Cipher, keys: RecordKeys, capacity: nat, f: Feed, chunks: seq<Bytes>)
    requires Sound(c) && |keys.iv| == 12 && AllFit(chunks)
    requires f.seqIn + |chunks| < TWO64 && |f.buf| <= capacity
    ensures FeedAll(c, keys, capacity, f, Records(c, keys, chunks, f.seqIn))
         == if |f.buf| + |Flatten(chunks)| > capacity then Err(Reassembly(Overflow))
            else Ok(Feed(f.seqIn + |chunks|, f.buf + Flatten(chunks)))
    decreases |chunks|
  {
    hide Sound, SealRecord, FeedRecord;
    if chunks == [] {
      assert f.buf + [] == f.buf;
    } else {
      SealedFeeds(c, keys, capacity, f, chunks[0]);
      if |f.buf| + |chunks[0]| <= capacity {
        var next := Feed(f.seqIn + 1, f.buf + chunks[0]);
        RecordsFeed(c, keys, capacity, next, chunks[1..]);
        assert next.buf + Flatten(chunks[1..]) == f.buf + Flatten(chunks);
      }
    }
  }

  /**
   * Any interleaving of the flight's records with ChangeCipherSpec records rebuilds the
   * plaintext, counting only the sealed records; it overflows exactly when the plaintext is
   * longer than the reassembler.
   */
  lemma FlightRoundTrip(c: Cipher, keys: RecordKeys, capacity: nat, plain: Bytes, rsl: nat, wire: seq<Bytes>)
    requires Sound(c) && |keys.iv| == 12 && LegalLimit(rsl) && |plain| < TWO64
    requires AllFit(Chunks(plain, MaxChunk(rsl)))
    requires DropCcs(wire) == Records(c, keys, Chunks(plain, MaxChunk(rsl)), 0)
    ensures FeedAll(c, keys, capacity, Feed(0, []), wire)
         == if |plain| > capacity then Err(Reassembly(Overflow))
            else Ok(Feed(DivCeil(|plain|, MaxChunk(rsl)), plain))
  {
    hide Sound, FeedAll, Records, Chunks, DivCeil;
    var m := MaxChunk(rsl);
    var chunks := Chunks(plain, m);
    ChunksPartition(plain, m);
    FewChunks(|plain|, m);
    CcsInvisible(c, keys, capacity, Feed(0, []), wire);
    RecordsFeed(c, keys, capacity, Feed(0, []), chunks);
    assert [] + plain == plain;
  }

  lemma FewChunks(n: nat, m: nat)
    requires m > 0
    ensures DivCeil(n, m) <= n
  {
    var d := DivCeil(n, m);
    DivCeilExactly(n, m, d);
    if d > 0 {
      MulMonotone(1, m, d - 1);
    }
  }

  class FlightReceiver {
    const cipher: Cipher
    const keys: RecordKeys
    const reassembler: ServerFlightReassembler
    var seqIn: nat

    ghost predicate Valid()
      reads this, reassembler
    {
      Sound(cipher) && |keys.iv| == 12 && seqIn < TWO64 && reassembler.Valid()
    }

    ghost function State(): (f: Feed)
      reads this, reassembler
    {
      Feed(seqIn, reassembler.buf)
    }

    constructor (cipher: Cipher, keys: RecordKeys, reassembler: ServerFlightReassembler)
      requires Sound(cipher) && |keys.iv| == 12 && reassembler.Valid()
      ensures Valid() && State() == Feed(0, reassembler.buf)
      ensures this.cipher == cipher && this.keys == keys && this.reassembler == reassembler
    {
      this.cipher := cipher;
      this.keys := keys;
      this.reassembler := reassembler;
      seqIn := 0;
    }

    method Step() returns (s: FlightStep)
      ensures s == if FlightMsgs(reassembler.buf).Some? then Ready else Pending
    {
      var done := reassembler.IsComplete();
      s := if done then Ready else Pending;
    }

    /** One record; on an error nothing but the record buffer has changed. */
    method FeedInPlace(record: array<Byte>) returns (r: Result<FlightStep, FeedError>)
      requires Valid()
      modifies this, reassembler, record
      ensures Valid()
      ensures match FeedRecord(cipher, keys, reassembler.capacity, old(State()), old(record[..]))
              case Ok(f) =>
                && State() == f
                && r == Ok(if FlightMsgs(f.buf).Some? then Ready else Pending)
              case Err(e) => r == Err(e) && State() == old(State())
    {
      hide Sound, OpenRecord, FlightMsgs, SplitInner;
      if record.Length == 0 {
        return Err(Decrypt(DecryptError.Truncated));
      }
      assert record[..][0] == record[0];
      if record[0] == CT_CHANGE_CIPHER_SPEC {
        var s := Step();
        return Ok(s);
      }
      if record[0] != CT_APPLICATION_DATA {
        return Err(Decrypt(UnexpectedContentType(record[0])));
      }
      var n := DecryptRecordInPlace(cipher, keys, record, seqIn);
      if n.Err? {
        return Err(Decrypt(n.error));
      }
      var inner := record[5..5 + n.value];
      assert OpenRecord(cipher, keys, seqIn, old(record[..])) == Ok(inner);
      var split := SplitInnerPlaintext(inner);
      if split.Err? {
        return Err(Decrypt(split.error));
      }
      var (content, ct) := split.value;
      if ct != CT_HANDSHAKE {
        return Err(Decrypt(UnexpectedContentType(ct)));
      }
      var pushed := reassembler.PushContent(content);
      if pushed.Err? {
        assert pushed.error == Overflow;
        return Err(Reassembly(pushed.error));
      }
      seqIn := (seqIn + 1) % TWO64;
      var s := Step();
      return Ok(s);
    }
  }
}
