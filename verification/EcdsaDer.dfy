/** ECDSA-Sig-Value: the client signer's DER encoder and the verifier's strict decoder. */
module EcdsaDer {
  import opened Bytes
  import opened Consts
  import opened X690

  /** Room the smallest build leaves for a signature. */
  const MIN_SIG_CAPACITY: nat := 112

  // ---- Decoding ----

  /** One TLV with the given tag at the front of `p`: its value, and what follows. */
  function TakeTlv(p: Bytes, tag: Byte): (r: Option<(Bytes, Bytes)>) {
    if |p| < 2 || p[0] != tag then None
    else if p[1] < 0x80 then TakeBody(p[2..], p[1] as int)
    else if p[1] == 0x81 then
      if |p| < 3 || p[2] < 0x80 then None else TakeBody(p[3..], p[2] as int)
    else if p[1] == 0x82 then
      if |p| < 4 || GetU16(p, 2) < 0x100 then None else TakeBody(p[4..], GetU16(p, 2))
    else None
  }

  function TakeBody(p: Bytes, n: nat): (r: Option<(Bytes, Bytes)>) {
    if |p| < n then None else Some((p[..n], p[n..]))
  }

  /** The magnitude of a minimal, non-negative INTEGER. */
  function Magnitude(v: Bytes): (r: Option<Bytes>)
    ensures r.Some? ==> 1 <= |r.value| <= |v|
  {
    if v == [] || v[0] >= 0x80 then None
    else if |v| > 1 && v[0] == 0 && v[1] < 0x80 then None
    else if |v| > 1 && v[0] == 0 then Some(v[1..])
    else Some(v)
  }

  function Padded(v: Bytes, width: nat): (r: Option<Bytes>)
    ensures r.Some? ==> |r.value| == width
  {
    match Magnitude(v)
    case None => None
    case Some(m) => if |m| > width then None else Some(Zeros(width - |m|) + m)
  }

  /** DER to fixed-width `r || s`. */
  function DecodeSig(der: Bytes, width: nat): (r: Option<Bytes>)
    ensures r.Some? ==> |r.value| == 2 * width
  {
    match TakeTlv(der, TAG_SEQUENCE)
    case None => None
    case Some((body, after)) =>
      if after != [] then None
      else
        match TakeTlv(body, TAG_INTEGER)
        case None => None
        case Some((r, more)) =>
          match TakeTlv(more, TAG_INTEGER)
          case None => None
          case Some((s, end)) =>
            if end != [] || Padded(r, width).None? || Padded(s, width).None? then None
            else Some(Padded(r, width).value + Padded(s, width).value)
  }

  /** A slice that shrinks from the front as it is read. */
  class Cursor {
    var left: Bytes

    constructor (bytes: Bytes)
      ensures left == bytes
    {
      left := bytes;
    }

    method Take(n: nat) returns (r: Option<Bytes>)
      modifies this
      ensures match TakeBody(old(left), n)
              case None => r == None && left == old(left)
              case Some((head, tail)) => r == Some(head) && left == tail
    {
      if |left| < n {
        return None;
      }
      r := Some(left[..n]);
      left := left[n..];
    }

    method ReadTlv(tag: Byte) returns (r: Option<Bytes>)
      modifies this
      ensures match TakeTlv(old(left), tag)
              case None => r == None
              case Some((value, rest)) => r == Some(value) && left == rest
    {
      var t := Take(1);
      if t.None? || t.value[0] != tag {
        return None;
      }
      var first := Take(1);
      if first.None? {
        return None;
      }
      var len := first.value[0] as int;
      if len == 0x81 {
        var one := Take(1);
        if one.None? || one.value[0] < 0x80 {
          return None;
        }
        len := one.value[0] as int;
      } else if len == 0x82 {
        var two := Take(2);
        if two.None? {
          return None;
        }
        len := (two.value[0] as int) * 256 + two.value[1] as int;
        if len < 0x100 {
          return None;
        }
      } else if len >= 0x80 {
        return None;
      }
      r := Take(len);
    }
  }

  /** Zero the field, then copy the value to its end. */
  method PadInto(val: Bytes, out: array<Byte>, from: nat, width: nat)
    requires from + width <= out.Length && |val| <= width
    modifies out
    ensures out[..] == Splice(old(out[..]), from, Zeros(width - |val|) + val)
  {
    hide Splice;
    var start := width - |val|;
    ghost var before := out[..];
    CopyBytes(out, from, Zeros(width));
    assert Zeros(width) == Zeros(start) + Zeros(|val|);
    CopyBytes(out, from + start, val);
    SpliceTail(before, from, Zeros(start), Zeros(|val|), val);
  }

  /** Left-pad an INTEGER into `out[from..from + width]`. */
  method IntToPadded(v: Bytes, out: array<Byte>, from: nat, width: nat) returns (ok: bool)
    requires from + width <= out.Length
    modifies out
    ensures ok <==> Padded(v, width).Some?
    ensures out[..] == if ok then Splice(old(out[..]), from, Padded(v, width).value) else old(out[..])
  {
    hide Splice, Zeros;
    if |v| == 0 || v[0] >= 0x80 {
      return false;
    }
    if |v| > 1 && v[0] == 0 && v[1] < 0x80 {
      return false;
    }
    var val := if |v| > 1 && v[0] == 0 then v[1..] else v;
    if width < |val| {
      return false;
    }
    assert Padded(v, width) == Some(Zeros(width - |val|) + val);
    PadInto(val, out, from, width);
    ok := true;
  }

  method DerSigToP1363(der: Bytes, width: nat, out: array<Byte>) returns (ok: bool)
    modifies out
    ensures ok <==> out.Length == 2 * width && DecodeSig(der, width).Some?
    ensures ok ==> out[..] == DecodeSig(der, width).value
  {
    if out.Length != 2 * width {
      return false;
    }
    var outer := new Cursor(der);
    var body := outer.ReadTlv(TAG_SEQUENCE);
    if body.None? || outer.left != [] {
      return false;
    }
    var inner := new Cursor(body.value);
    var r := inner.ReadTlv(TAG_INTEGER);
    if r.None? {
      return false;
    }
    var s := inner.ReadTlv(TAG_INTEGER);
    if s.None? || inner.left != [] {
      return false;
    }
    ok := IntToPadded(r.value, out, 0, width);
    if !ok {
      return;
    }
    ghost var half := out[..];
    ok := IntToPadded(s.value, out, width, width);
    if ok {
      assert half[..width] == Padded(r.value, width).value;
      assert out[..] == half[..width] + Padded(s.value, width).value;
    }
  }

  // ---- Encoding ----

  /** Leading zero bytes dropped, but never the last byte. */
  function Minimal(v: Bytes): (m: Bytes)
    requires v != []
    ensures m != [] && |m| <= |v|
  {
    if |v| > 1 && v[0] == 0 then Minimal(v[1..]) else v
  }

  /** INTEGER content octets of an unsigned big-endian value. */
  function Content(v: Bytes): (c: Bytes)
    requires v != []
    ensures 1 <= |c| <= |v| + 1
  {
    var m := Minimal(v);
    if m[0] >= 0x80 then [0] + m else m
  }

  /** One length byte; contents of 256 bytes and more lose the rest of their length. */
  function EncodeInt(v: Bytes): (b: Bytes)
    requires v != []
  {
    [TAG_INTEGER, |Content(v)| % 256] + Content(v)
  }

  function EncodeSig(r: Bytes, s: Bytes): (b: Bytes)
    requires 1 <= |r| <= 52 && 1 <= |s| <= 52
    ensures |b| <= MIN_SIG_CAPACITY
  {
    var body := EncodeInt(r) + EncodeInt(s);
    [TAG_SEQUENCE, |body|] + body
  }

  /** Append `v` as an INTEGER to a vector of capacity `cap`. */
  method DerInt(v: Bytes, vec: Bytes, cap: nat) returns (ok: bool, out: Bytes)
    requires v != [] && |vec| <= cap
    ensures ok <==> |vec| + |EncodeInt(v)| <= cap
    ensures ok ==> out == vec + EncodeInt(v)
  {
    out := vec;
    var m := v;
    while |m| > 1 && m[0] == 0
      invariant m != [] && Minimal(m) == Minimal(v)
      decreases |m|
    {
      m := m[1..];
    }
    var pad := m[0] >= 0x80;
    var len := |m| + if pad then 1 else 0;
    assert Minimal(v) == m;
    assert Content(v) == if pad then [0] + m else m;
    hide Minimal, Content;
    assert |EncodeInt(v)| == 2 + len;
    if |out| + 2 > cap {
      return false, out;
    }
    out := out + [TAG_INTEGER, len % 256];
    if pad {
      if |out| == cap {
        return false, out;
      }
      out := out + [0];
    }
    if |out| + |m| > cap {
      return false, out;
    }
    out := out + m;
    ok := true;
    assert out == vec + EncodeInt(v);
  }

  method DerEcdsaSig(r: Bytes, s: Bytes, cap: nat) returns (sig: Option<Bytes>)
    requires 1 <= |r| <= 52 && 1 <= |s| <= 52 && cap >= MIN_SIG_CAPACITY
    ensures sig == Some(EncodeSig(r, s))
  {
    var ok, body := DerInt(r, [], cap);
    assert ok && body == EncodeInt(r);
    ok, body := DerInt(s, body, cap);
    assert ok && body == EncodeInt(r) + EncodeInt(s);
    sig := Some([TAG_SEQUENCE, |body| % 256] + body);
  }

  // ---- The two are inverse ----

  lemma TakeUndoesFrame(tag: Byte, v: Bytes, rest: Bytes)
    requires |v| < 0x80
    ensures TakeTlv([tag, |v|] + v + rest, tag) == Some((v, rest))
  {
    var p := [tag, |v|] + v + rest;
    assert p[2..] == v + rest;
  }

  lemma FrameUndoesTake(p: Bytes, tag: Byte)
    requires TakeTlv(p, tag).Some? && |TakeTlv(p, tag).value.0| < 0x80
    ensures var (v, rest) := TakeTlv(p, tag).value;
            p == [tag, |v|] + v + rest
  {
    assert p == p[..2] + p[2..];
  }

  lemma {:induction false} MinimalSplits(v: Bytes)
    requires v != []
    ensures v == Zeros(|v| - |Minimal(v)|) + Minimal(v)
    ensures |Minimal(v)| > 1 ==> Minimal(v)[0] != 0
  {
    if |v| > 1 && v[0] == 0 {
      MinimalSplits(v[1..]);
      assert v == [0] + v[1..];
      assert Zeros(|v| - |Minimal(v)|) == [0] + Zeros(|v| - 1 - |Minimal(v)|);
    } else {
      assert v == Zeros(0) + v;
    }
  }

  lemma {:induction false} MinimalOfPadded(m: Bytes, k: nat)
    requires m != [] && (|m| > 1 ==> m[0] != 0)
    ensures Minimal(Zeros(k) + m) == m
  {
    if k > 0 {
      MinimalOfPadded(m, k - 1);
      assert (Zeros(k) + m)[1..] == Zeros(k - 1) + m;
    } else {
      assert Zeros(k) + m == m;
    }
  }

  /** INTEGER content and fixed-width value determine each other. */
  lemma IntegerBijection(v: Bytes, x: Bytes)
    requires x != []
    ensures Padded(v, |x|) == Some(x) <==> v == Content(x)
  {
    MinimalSplits(x);
    var m := Minimal(x);
    if v == Content(x) {
      assert Magnitude(v) == Some(m);
    }
    if Padded(v, |x|) == Some(x) {
      var n := Magnitude(v).value;
      MinimalOfPadded(n, |x| - |n|);
      assert n == m;
    }
  }

  /** The content octets are those X.690 gives the number, and are read back to any width that holds it. */
  lemma ContentExactly(c: Bytes, x: Bytes)
    requires x != []
    ensures c == Content(x) <==> IsInteger(c, FromBigEndian(x))
    ensures Padded(c, |x|) == Some(x) <==> IsInteger(c, FromBigEndian(x))
  {
    hide FromBigEndian;
    MinimalSplits(x);
    var m := Minimal(x);
    LeadingZeros(|x| - |m|, m);
    if m[0] >= 0x80 {
      LeadingZeros(1, m);
      assert Zeros(1) + m == [0] + m;
    }
    if IsInteger(c, FromBigEndian(x)) {
      IntegerUnique(c, Content(x), FromBigEndian(x));
    }
    IntegerBijection(c, x);
  }

  /** SEQUENCE { INTEGER a, INTEGER b } with short lengths. */
  predicate IsSignature(der: Bytes, a: Bytes, b: Bytes) {
    |a| <= 53 && |b| <= 53 && der == [0x30, 4 + |a| + |b|, 2, |a|] + a + [2, |b|] + b
  }

  lemma EncodedSignature(r: Bytes, s: Bytes)
    requires 1 <= |r| <= 52 && 1 <= |s| <= 52
    ensures IsSignature(EncodeSig(r, s), Content(r), Content(s))
  {
    hide Content;
    var body := EncodeInt(r) + EncodeInt(s);
    assert [TAG_SEQUENCE, |body|] + body
        == [0x30, 4 + |Content(r)| + |Content(s)|, 2, |Content(r)|] + Content(r) + [2, |Content(s)|] + Content(s);
  }

  /**
   * Decoding and encoding against X.690: a string decodes to `r || s` if and only if it is a SEQUENCE of the two
   * INTEGERs, and that string is what the encoder writes.
   */
  lemma SignatureExactly(der: Bytes, r: Bytes, s: Bytes)
    requires 1 <= |r| <= 52 && |s| == |r|
    ensures DecodeSig(der, |r|) == Some(r + s) <==>
            exists a, b :: IsInteger(a, FromBigEndian(r)) && IsInteger(b, FromBigEndian(s)) && IsSignature(der, a, b)
    ensures DecodeSig(der, |r|) == Some(r + s) <==> der == EncodeSig(r, s)
  {
    hide FromBigEndian, DecodeSig, Content, IsInteger, EncodeSig, IsSignature, Padded;
    SignatureBijection(der, r, s);
    ContentExactly(Content(r), r);
    ContentExactly(Content(s), s);
    EncodedSignature(r, s);
    if exists a, b :: IsInteger(a, FromBigEndian(r)) && IsInteger(b, FromBigEndian(s)) && IsSignature(der, a, b) {
      var a, b :| IsInteger(a, FromBigEndian(r)) && IsInteger(b, FromBigEndian(s)) && IsSignature(der, a, b);
      ContentExactly(a, r);
      ContentExactly(b, s);
      OneSignature(der, EncodeSig(r, s), a, b);
    }
  }

  lemma OneSignature(d: Bytes, e: Bytes, a: Bytes, b: Bytes)
    requires IsSignature(d, a, b) && IsSignature(e, a, b)
    ensures d == e
  {
  }

  /** For every element width up to 52 bytes (32 and 48 are the ones in use), a DER string
      decodes to `r || s` if and only if it is the encoder's output on `r` and `s`. */
  lemma SignatureBijection(der: Bytes, r: Bytes, s: Bytes)
    requires 1 <= |r| <= 52 && |s| == |r|
    ensures DecodeSig(der, |r|) == Some(r + s) <==> der == EncodeSig(r, s)
  {
    var width := |r|;
    if der == EncodeSig(r, s) {
      EncodedDecodes(r, s);
    }
    if DecodeSig(der, width) == Some(r + s) {
      DecodedEncodes(der, r, s);
    }
  }

  lemma EncodedDecodes(r: Bytes, s: Bytes)
    requires 1 <= |r| <= 52 && |s| == |r|
    ensures DecodeSig(EncodeSig(r, s), |r|) == Some(r + s)
  {
    hide TakeTlv, Padded, Content;
    var body := EncodeInt(r) + EncodeInt(s);
    TakeUndoesFrame(TAG_SEQUENCE, body, []);
    assert EncodeSig(r, s) == [TAG_SEQUENCE, |body|] + body + [];
    TakeUndoesFrame(TAG_INTEGER, Content(r), EncodeInt(s));
    TakeUndoesFrame(TAG_INTEGER, Content(s), []);
    assert EncodeInt(s) == [TAG_INTEGER, |Content(s)|] + Content(s) + [];
    IntegerBijection(Content(r), r);
    IntegerBijection(Content(s), s);
  }

  lemma DecodedEncodes(der: Bytes, r: Bytes, s: Bytes)
    requires 1 <= |r| <= 52 && |s| == |r|
    requires DecodeSig(der, |r|) == Some(r + s)
    ensures der == EncodeSig(r, s)
  {
    hide TakeTlv, Padded, Content;
    var (body, _) := TakeTlv(der, TAG_SEQUENCE).value;
    var (rv, more) := TakeTlv(body, TAG_INTEGER).value;
    var (sv, _) := TakeTlv(more, TAG_INTEGER).value;
    SplitEqual(Padded(rv, |r|).value, Padded(sv, |r|).value, r, s);
    IntegerBijection(rv, r);
    IntegerBijection(sv, s);
    FrameUndoesTake(body, TAG_INTEGER);
    FrameUndoesTake(more, TAG_INTEGER);
    assert more == EncodeInt(s) && body == EncodeInt(r) + EncodeInt(s);
    FrameUndoesTake(der, TAG_SEQUENCE);
  }
}
