/** The running handshake transcript: the bytes fed so far, hashed on demand. */
module Transcript {
  import opened Bytes
  import opened Wire
  import opened KeySchedule

  /** The handshake bytes a record declares; what follows the declared length is not part of it. */
  function RecordBody(record: Bytes): (r: Option<Bytes>) {
    if |record| < 5 then None
    else
      var n := GetU16(record, 3);
      if |record| < 5 + n then None else Some(record[5..5 + n])
  }

  /** A plaintext record contributes exactly its message, whatever is buffered behind it. */
  lemma RecordBodyReads(ct: Byte, version: nat, msg: Bytes, after: Bytes)
    requires version < 0x1_0000 && |msg| < 0x1_0000
    ensures RecordBody([ct] + U16(version) + Vec16(msg) + after) == Some(msg)
  {
    var record := [ct] + U16(version) + Vec16(msg) + after;
    assert record[3..] == Vec16(msg) + after;
    hide U16, GetU16, Vec16, TakeVec16;
    Vec16Reads(msg, after);
    TakeVec16At(record, 3);
  }

  class TranscriptHash {
    const kdf: Kdf
    var fed: Bytes

    constructor (kdf: Kdf)
      ensures this.kdf == kdf && fed == []
    {
      this.kdf := kdf;
      fed := [];
    }

    method UpdateRecord(record: Bytes) returns (ok: bool)
      modifies this
      ensures ok <==> RecordBody(record).Some?
      ensures fed == if ok then old(fed) + RecordBody(record).value else old(fed)
    {
      if |record| < 5 {
        return false;
      }
      var end := 5 + GetU16(record, 3);
      if |record| < end {
        return false;
      }
      fed := fed + record[5..end];
      return true;
    }

    method Update(msg: Bytes)
      modifies this
      ensures fed == old(fed) + msg
    {
      fed := fed + msg;
    }

    /** The digest at this point; later updates are unaffected. */
    method Snapshot() returns (digest: Option<Bytes>)
      ensures digest == kdf.hash(fed)
    {
      digest := kdf.hash(fed);
    }
  }
}
