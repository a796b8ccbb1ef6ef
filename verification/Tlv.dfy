/** DER tag-length-value: the certificate walker's reader, and the one encoding it inverts. */
module Tlv {
  import opened Bytes
  import opened X690

  datatype Tlv = Tlv(tag: Byte, headerLen: nat, body: Bytes, rest: Bytes)

  /** Width of `usize` on the target. */
  datatype Width = W16 | W32 | W64

  function Word(w: Width): (n: nat) {
    match w
    case W16 => 0x1_0000
    case W32 => 0x1_0000_0000
    case W64 => TWO64
  }

  /** Octets of a long-form length, shifted into a `usize` without an overflow check. */
  function ShiftIn(w: Width, octets: Bytes): (n: nat) {
    FromBigEndian(octets) % Word(w)
  }

  function ReadTlv(w: Width, buf: Bytes): (r: Option<Tlv>)
    ensures r.Some? ==>
              && |buf| == r.value.headerLen + |r.value.body| + |r.value.rest|
              && buf[..r.value.headerLen] + r.value.body + r.value.rest == buf
              && r.value.headerLen >= 2 && r.value.tag == buf[0]
  {
    if |buf| < 2 || buf[0] % 32 == 31 then None
    else if buf[1] < 0x80 then Cut(buf, 2, buf[1] as int)
    else
      var n := buf[1] as int - 0x80;
      if n == 0 || n > 4 || |buf| < 2 + n then None
      else
        var len := ShiftIn(w, buf[2..2 + n]);
        if len < 0x80 || buf[2] == 0 then None
        else Cut(buf, 2 + n, len)
  }

  function Cut(buf: Bytes, headerLen: nat, bodyLen: nat): (r: Option<Tlv>)
    requires 2 <= headerLen <= |buf|
    ensures r.Some? ==>
              && |buf| == r.value.headerLen + |r.value.body| + |r.value.rest|
              && buf[..headerLen] + r.value.body + r.value.rest == buf
  {
    if |buf| < headerLen + bodyLen then None
    else Some(Tlv(buf[0], headerLen, buf[headerLen..headerLen + bodyLen], buf[headerLen + bodyLen..]))
  }

  lemma ShiftStep(w: Width, x: nat, b: Byte)
    ensures (x % Word(w)) * 256 % Word(w) + b == (x * 256 + b) % Word(w)
  {
    match w
    case W16 => Shift16(x, b);
    case W32 => Shift32(x, b);
    case W64 => Shift64(x, b);
  }

  // Dropping the top byte before or after the shift is the same.

  lemma Mod16(q: nat, r: nat)
    requires r < 0x1_0000
    ensures (q * 0x1_0000 + r) % 0x1_0000 == r
  {
  }

  lemma Shift16(x: nat, b: Byte)
    ensures (x % 0x1_0000) * 256 % 0x1_0000 + b == (x * 256 + b) % 0x1_0000
  {
    var q, r := x / 0x1_0000, x % 0x1_0000;
    var top, low := r / 0x100, r % 0x100;
    assert x == q * 0x1_0000 + r && r == top * 0x100 + low && low < 0x100;
    Mod16(top, low * 256);
    Mod16(q * 256 + top, low * 256 + b);
    assert r * 256 == top * 0x1_0000 + low * 256;
    assert x * 256 + b == (q * 256 + top) * 0x1_0000 + (low * 256 + b);
  }

  lemma Mod32(q: nat, r: nat)
    requires r < 0x1_0000_0000
    ensures (q * 0x1_0000_0000 + r) % 0x1_0000_0000 == r
  {
  }

  lemma Shift32(x: nat, b: Byte)
    ensures (x % 0x1_0000_0000) * 256 % 0x1_0000_0000 + b == (x * 256 + b) % 0x1_0000_0000
  {
    var q, r := x / 0x1_0000_0000, x % 0x1_0000_0000;
    var top, low := r / 0x100_0000, r % 0x100_0000;
    assert x == q * 0x1_0000_0000 + r && r == top * 0x100_0000 + low && low < 0x100_0000;
    Mod32(top, low * 256);
    Mod32(q * 256 + top, low * 256 + b);
    assert r * 256 == top * 0x1_0000_0000 + low * 256;
    assert x * 256 + b == (q * 256 + top) * 0x1_0000_0000 + (low * 256 + b);
  }

  lemma Mod64(q: nat, r: nat)
    requires r < 0x1_0000_0000_0000_0000
    ensures (q * 0x1_0000_0000_0000_0000 + r) % 0x1_0000_0000_0000_0000 == r
  {
  }

  lemma Shift64(x: nat, b: Byte)
    ensures (x % 0x1_0000_0000_0000_0000) * 256 % 0x1_0000_0000_0000_0000 + b == (x * 256 + b) % 0x1_0000_0000_0000_0000
  {
    var q, r := x / 0x1_0000_0000_0000_0000, x % 0x1_0000_0000_0000_0000;
    var top, low := r / 0x100_0000_0000_0000, r % 0x100_0000_0000_0000;
    assert x == q * 0x1_0000_0000_0000_0000 + r && r == top * 0x100_0000_0000_0000 + low && low < 0x100_0000_0000_0000;
    Mod64(top, low * 256);
    Mod64(q * 256 + top, low * 256 + b);
    assert r * 256 == top * 0x1_0000_0000_0000_0000 + low * 256;
    assert x * 256 + b == (q * 256 + top) * 0x1_0000_0000_0000_0000 + (low * 256 + b);
  }

  method ShiftInLoop(w: Width, octets: Bytes) returns (len: nat)
    ensures len == ShiftIn(w, octets)
  {
    len := 0;
    var i := 0;
    while i < |octets|
      invariant 0 <= i <= |octets|
      invariant len == ShiftIn(w, octets[..i])
    {
      assert octets[..i + 1][..i] == octets[..i];
      ShiftStep(w, FromBigEndian(octets[..i]), octets[i]);
      len := len * 256 % Word(w) + octets[i] as int;
      i := i + 1;
    }
    assert octets[..i] == octets;
  }

  method ReadTlvLoop(w: Width, buf: Bytes) returns (r: Option<Tlv>)
    ensures r == ReadTlv(w, buf)
  {
    if |buf| == 0 {
      return None;
    }
    var tag := buf[0];
    if tag % 32 == 31 {
      return None;
    }
    if |buf| < 2 {
      return None;
    }
    var headerLen, bodyLen := 2, buf[1] as int;
    if buf[1] >= 0x80 {
      var n := buf[1] as int - 0x80;
      if n == 0 || n > 4 {
        return None;
      }
      if |buf| < 2 + n {
        return None;
      }
      var len := ShiftInLoop(w, buf[2..2 + n]);
      if len < 0x80 || buf[2] == 0 {
        return None;
      }
      headerLen, bodyLen := 2 + n, len;
    }
    var end := headerLen + bodyLen;
    if |buf| < end {
      return None;
    }
    r := Some(Tlv(tag, headerLen, buf[headerLen..end], buf[end..]));
  }

  // ---- The encoder ----

  function OctetCount(n: nat): (k: nat)
    ensures k >= 1
  {
    if n < 256 then 1 else 1 + OctetCount(n / 256)
  }

  /** Minimal definite length (section 10.1 of ITU-T X.690). */
  function DerLength(n: nat): (b: Bytes)
    requires n < 0x1_0000_0000
    ensures 1 <= |b| <= 5
  {
    assert OctetCount(n) <= 4 by { FourOctets(n); }
    if n < 0x80 then [n] else [0x80 + OctetCount(n)] + BigEndian(n, OctetCount(n))
  }

  lemma {:induction false} OctetBound(n: nat, k: nat)
    requires 1 <= k && n < Pow256(k)
    ensures OctetCount(n) <= k && n < Pow256(OctetCount(n))
  {
    if n >= 256 {
      OctetBound(n / 256, k - 1);
    } else {
      assert Pow256(1) == 256;
    }
  }

  lemma Pow256s()
    ensures Pow256(2) == 0x1_0000 && Pow256(3) == 0x100_0000 && Pow256(4) == 0x1_0000_0000
  {
  }

  lemma FourOctets(n: nat)
    requires n < 0x1_0000_0000
    ensures OctetCount(n) <= 4 && n < Pow256(OctetCount(n))
    ensures n < 0x1_0000 ==> OctetCount(n) <= 2
  {
    Pow256s();
    OctetBound(n, 4);
    if n < 0x1_0000 {
      OctetBound(n, 2);
    }
  }

  /** The length octets are those of X.690. */
  lemma LengthExactly(octets: Bytes, n: nat)
    requires n < 0x1_0000_0000
    ensures octets == DerLength(n) <==> IsLength(octets, n)
  {
    hide BigEndian, FromBigEndian, OctetCount;
    if n >= 128 {
      FourOctets(n);
      LeadingOctet(n);
      BigEndianRoundTrip(n, OctetCount(n));
      var own := DerLength(n);
      assert own[1..] == BigEndian(n, OctetCount(n));
      if IsLength(octets, n) {
        OctetsAreMinimal(octets[1..]);
        FromBigEndianRoundTrip(octets[1..]);
        assert octets == [octets[0]] + octets[1..];
      }
    }
  }

  function EncodeTlv(tag: Byte, body: Bytes): (b: Bytes)
    requires |body| < 0x1_0000_0000
  {
    [tag] + DerLength(|body|) + body
  }

  lemma {:induction false} LeadingOctet(n: nat)
    requires n > 0
    ensures BigEndian(n, OctetCount(n))[0] != 0
  {
    if n >= 256 {
      LeadingOctet(n / 256);
      assert BigEndian(n, OctetCount(n))[0] == BigEndian(n / 256, OctetCount(n / 256))[0];
    }
  }

  lemma {:induction false} OctetsAreMinimal(b: Bytes)
    requires b != [] && b[0] != 0
    ensures OctetCount(FromBigEndian(b)) == |b| && FromBigEndian(b) > 0
  {
    var init := b[..|b| - 1];
    if init != [] {
      OctetsAreMinimal(init);
      assert FromBigEndian(b) == FromBigEndian(init) * 256 + b[|b| - 1] as int;
      assert FromBigEndian(b) / 256 == FromBigEndian(init);
    } else {
      assert FromBigEndian(init) == 0;
    }
  }

  lemma LongLengthRead(w: Width, n: nat, buf: Bytes)
    requires 0x80 <= n < 0x1_0000_0000 && n < Word(w)
    requires |buf| >= 1 + |DerLength(n)| && buf[1..1 + |DerLength(n)|] == DerLength(n) && buf[0] % 32 != 31
    ensures ReadTlv(w, buf) == Cut(buf, 1 + |DerLength(n)|, n)
  {
    hide BigEndian, FromBigEndian, Cut;
    var k := OctetCount(n);
    FourOctets(n);
    LeadingOctet(n);
    BigEndianRoundTrip(n, k);
    assert buf[1] == DerLength(n)[0] == 0x80 + k;
    assert buf[2..2 + k] == DerLength(n)[1..] == BigEndian(n, k);
    assert buf[2] == buf[2..2 + k][0];
    assert ShiftIn(w, buf[2..2 + k]) == n;
  }

  /** Reading an encoding, with anything after it, gives back tag, body and the rest. */
  lemma ReadUndoesEncode(w: Width, tag: Byte, body: Bytes, rest: Bytes)
    requires tag % 32 != 31 && |body| < 0x1_0000_0000 && |body| < Word(w)
    ensures ReadTlv(w, EncodeTlv(tag, body) + rest) == Some(Tlv(tag, 1 + |DerLength(|body|)|, body, rest))
  {
    var n := |body|;
    var len := DerLength(n);
    var buf := EncodeTlv(tag, body) + rest;
    var h := 1 + |len|;
    assert buf[1..h] == len;
    assert buf[h..h + n] == body && buf[h + n..] == rest;
    if n >= 0x80 {
      LongLengthRead(w, n, buf);
    } else {
      assert buf[1] == len[0] == n;
    }
  }

  lemma LongForm(w: Width, buf: Bytes)
    requires ReadTlv(w, buf).Some? && buf[1] >= 0x80
    ensures var t := ReadTlv(w, buf).value;
            var octets := buf[2..t.headerLen];
            && 1 <= |octets| <= 4 && buf[1] as int == 0x80 + |octets| && |t.body| == ShiftIn(w, octets)
            && OctetCount(FromBigEndian(octets)) == |octets|
            && FromBigEndian(octets) < Pow256(|octets|) <= 0x1_0000_0000
            && BigEndian(FromBigEndian(octets), |octets|) == octets
  {
    hide BigEndian, FromBigEndian;
    var octets := buf[2..2 + (buf[1] as int - 0x80)];
    OctetsAreMinimal(octets);
    FromBigEndianRoundTrip(octets);
    Pow256s();
  }

  /** Whatever is read is the minimal encoding of what it was read as, if and only if the
      length octets fit a `usize`: always on 32- and 64-bit targets, and with at most two
      length octets on a 16-bit one. */
  lemma ReadIsCanonical(w: Width, buf: Bytes)
    requires ReadTlv(w, buf).Some?
    ensures var t := ReadTlv(w, buf).value;
            |t.body| < 0x1_0000_0000 && (buf == EncodeTlv(t.tag, t.body) + t.rest <==> w != W16 || buf[1] <= 0x82)
  {
    hide BigEndian, FromBigEndian, OctetCount;
    var t := ReadTlv(w, buf).value;
    if buf[1] < 0x80 {
      assert buf[..2] == [t.tag] + DerLength(|t.body|);
    } else {
      LongForm(w, buf);
      Pow256s();
      var octets := buf[2..t.headerLen];
      assert buf[..t.headerLen] == [t.tag, buf[1]] + octets;
      if w != W16 || buf[1] <= 0x82 {
        assert FromBigEndian(octets) < Word(w);
        assert [t.tag, buf[1]] + octets == [t.tag] + DerLength(|t.body|);
      } else {
        FourOctets(|t.body|);
        assert (EncodeTlv(t.tag, t.body) + t.rest)[1] == DerLength(|t.body|)[0];
      }
    }
  }

  /** Such an input: 16-bit, three length octets, of which the first is shifted out. */
  lemma SixteenBitLength() returns (buf: Bytes)
    ensures ReadTlv(W16, buf).Some? && buf[1] == 0x83 && |ReadTlv(W16, buf).value.body| == 0x80
    ensures ReadTlv(W32, buf).None?
  {
    buf := [0x04, 0x83, 0x01, 0x00, 0x80] + Zeros(0x80);
    var octets := buf[2..5];
    assert octets == [0x01, 0x00, 0x80];
    assert octets[..2] == [0x01, 0x00] && octets[..2][..1] == [0x01] && octets[..2][..1][..0] == [];
    assert FromBigEndian([0x01]) == 1 && FromBigEndian([0x01, 0x00]) == 0x100 && FromBigEndian(octets) == 0x1_0080;
  }
}
