/** Certificate extensions as RFC 5280 and X.690 write them, and the extension reader against that. */
module CertExtensions {
  import opened Bytes
  import opened Tlv
  import opened X690
  import opened TlvCert

  // ---- One extension ----

  /** SEQUENCE { extnID, critical DEFAULT FALSE, extnValue }, and what a reader leaves unread behind them. */
  datatype Raw = Raw(oid: Bytes, critical: Option<Bytes>, value: Bytes, spare: Bytes)

  /** An optional TLV: nothing when absent. */
  function Maybe(tag: Byte, body: Option<Bytes>): (b: Bytes)
    requires body.Some? ==> |body.value| < 0x1_0000_0000
  {
    match body case None => [] case Some(x) => EncodeTlv(tag, x)
  }

  predicate Fits(w: Width, e: Raw) {
    && Small(w, e.oid) && (e.critical.Some? ==> Small(w, e.critical.value)) && Small(w, e.value)
    && Small(w, Inner(w, e))
  }

  function Inner(w: Width, e: Raw): (b: Bytes) {
    if Small(w, e.oid) && (e.critical.Some? ==> Small(w, e.critical.value)) && Small(w, e.value)
    then EncodeTlv(6, e.oid) + (Maybe(1, e.critical) + (EncodeTlv(4, e.value) + e.spare))
    else []
  }

  /** What it says: critical when the BOOLEAN is there and its first octet is not zero. */
  function Said(e: Raw): (x: Extension) {
    Extension(e.oid, e.critical.Some? && e.critical.value != [] && e.critical.value[0] != 0, e.value)
  }

  lemma StartsWith(tag: Byte, body: Bytes, rest: Bytes)
    requires |body| < 0x1_0000_0000
    ensures EncodeTlv(tag, body) + rest != [] && (EncodeTlv(tag, body) + rest)[0] == tag
  {
  }

  lemma InnerReads(w: Width, e: Raw)
    requires Fits(w, e)
    ensures ParseExtension(w, Inner(w, e)) == Ok(Said(e))
  {
    hide EncodeTlv, Take;
    var tail := EncodeTlv(4, e.value) + e.spare;
    TakeEncoded(w, 6, e.oid, Maybe(1, e.critical) + tail);
    TakeEncoded(w, 4, e.value, e.spare);
    StartsWith(4, e.value, e.spare);
    if e.critical.Some? {
      TakeEncoded(w, 1, e.critical.value, tail);
      StartsWith(1, e.critical.value, tail);
    } else {
      assert [] + tail == tail;
    }
  }

  lemma InnerCanonical(w: Width, body: Bytes) returns (e: Raw)
    requires w != W16 && ParseExtension(w, body).Ok? && Small(w, body)
    ensures Fits(w, e) && body == Inner(w, e) && ParseExtension(w, body).value == Said(e)
  {
    hide EncodeTlv, Take;
    TakeCanonical(w, body);
    var oid := Take(w, body).value;
    if oid.rest[0] == 1 {
      TakeCanonical(w, oid.rest);
      var flag := Take(w, oid.rest).value;
      TakeCanonical(w, flag.rest);
      var value := Take(w, flag.rest).value;
      e := Raw(oid.body, Some(flag.body), value.body, value.rest);
    } else {
      TakeCanonical(w, oid.rest);
      var value := Take(w, oid.rest).value;
      e := Raw(oid.body, None, value.body, value.rest);
      assert [] + oid.rest == oid.rest;
    }
  }

  // ---- The list ----

  predicate AllFit(w: Width, es: seq<Raw>) {
    forall i :: 0 <= i < |es| ==> Fits(w, es[i])
  }

  function EncodeList(w: Width, es: seq<Raw>): (b: Bytes)
    requires AllFit(w, es)
  {
    if es == [] then [] else EncodeTlv(0x30, Inner(w, es[0])) + EncodeList(w, es[1..])
  }

  function AllSaid(es: seq<Raw>): (xs: seq<Extension>)
    ensures |xs| == |es|
  {
    if es == [] then [] else [Said(es[0])] + AllSaid(es[1..])
  }

  lemma {:induction false} ListReads(w: Width, es: seq<Raw>)
    requires AllFit(w, es)
    ensures ExtensionList(w, EncodeList(w, es)) == Ok(AllSaid(es))
    decreases |es|
  {
    hide EncodeTlv, Take, ParseExtension, Inner;
    if es != [] {
      var rest := EncodeList(w, es[1..]);
      TakeEncoded(w, 0x30, Inner(w, es[0]), rest);
      StartsWith(0x30, Inner(w, es[0]), rest);
      InnerReads(w, es[0]);
      ListReads(w, es[1..]);
    }
  }

  lemma {:induction false} ListCanonical(w: Width, exts: Bytes) returns (es: seq<Raw>)
    requires w != W16 && ExtensionList(w, exts).Ok?
    ensures AllFit(w, es) && exts == EncodeList(w, es) && ExtensionList(w, exts).value == AllSaid(es)
    decreases |exts|
  {
    hide EncodeTlv, Take, ParseExtension, Inner;
    if exts == [] {
      es := [];
    } else {
      TakeCanonical(w, exts);
      var t := Take(w, exts).value;
      var e := InnerCanonical(w, t.body);
      var tail := ListCanonical(w, t.rest);
      es := [e] + tail;
      assert es[1..] == tail;
    }
  }

  // ---- Where the list stands ----

  /** The parts of a certificate between the key and the extensions: TLVs of other tags. */
  predicate OtherParts(w: Width, parts: seq<(Byte, Bytes)>) {
    forall i :: 0 <= i < |parts| ==> parts[i].0 != 0xA3 && parts[i].0 % 32 != 31 && Small(w, parts[i].1)
  }

  function EncodeParts(w: Width, parts: seq<(Byte, Bytes)>): (b: Bytes)
    requires OtherParts(w, parts)
  {
    if parts == [] then [] else EncodeTlv(parts[0].0, parts[0].1) + EncodeParts(w, parts[1..])
  }

  /** `tail` holds other parts, then the list inside [3] and SEQUENCE, then whatever. */
  ghost predicate Holds(w: Width, tail: Bytes, list: Bytes) {
    exists parts, spare, more ::
      && OtherParts(w, parts) && Small(w, list) && Small(w, EncodeTlv(0x30, list) + spare)
      && tail == EncodeParts(w, parts) + (EncodeTlv(0xA3, EncodeTlv(0x30, list) + spare) + more)
  }

  /** `tail` holds other parts only. */
  ghost predicate HoldsNone(w: Width, tail: Bytes) {
    exists parts :: OtherParts(w, parts) && tail == EncodeParts(w, parts)
  }

  lemma {:induction false} FindSkips(w: Width, parts: seq<(Byte, Bytes)>, rest: Bytes)
    requires OtherParts(w, parts)
    ensures FindExtensions(w, EncodeParts(w, parts) + rest) == FindExtensions(w, rest)
    decreases |parts|
  {
    hide EncodeTlv, Take;
    if parts == [] {
      assert [] + rest == rest;
    } else {
      var (tag, body) := parts[0];
      var more := EncodeParts(w, parts[1..]) + rest;
      assert EncodeParts(w, parts) + rest == EncodeTlv(tag, body) + more;
      TakeEncoded(w, tag, body, more);
      StartsWith(tag, body, more);
      FindSkips(w, parts[1..], rest);
    }
  }

  lemma FindReads(w: Width, tail: Bytes, list: Bytes)
    ensures Holds(w, tail, list) ==> FindExtensions(w, tail) == Ok(Some(list))
    ensures HoldsNone(w, tail) ==> FindExtensions(w, tail) == Ok(None)
  {
    hide EncodeTlv, Take, EncodeParts;
    if Holds(w, tail, list) {
      var parts, spare, more :|
        && OtherParts(w, parts) && Small(w, list) && Small(w, EncodeTlv(0x30, list) + spare)
        && tail == EncodeParts(w, parts) + (EncodeTlv(0xA3, EncodeTlv(0x30, list) + spare) + more);
      FindSkips(w, parts, EncodeTlv(0xA3, EncodeTlv(0x30, list) + spare) + more);
      TakeEncoded(w, 0xA3, EncodeTlv(0x30, list) + spare, more);
      StartsWith(0xA3, EncodeTlv(0x30, list) + spare, more);
      TakeEncoded(w, 0x30, list, spare);
    }
    if HoldsNone(w, tail) {
      var parts :| OtherParts(w, parts) && tail == EncodeParts(w, parts);
      FindSkips(w, parts, []);
      assert EncodeParts(w, parts) + [] == tail;
    }
  }

  lemma {:induction false} FindCanonical(w: Width, tail: Bytes)
    requires w != W16 && FindExtensions(w, tail).Ok?
    ensures match FindExtensions(w, tail).value
            case None => HoldsNone(w, tail)
            case Some(list) => Holds(w, tail, list)
    decreases |tail|
  {
    hide EncodeTlv, Take;
    if tail == [] {
      assert OtherParts(w, []) && tail == EncodeParts(w, []);
    } else {
      TakeCanonical(w, tail);
      var t := Take(w, tail).value;
      if tail[0] != 0xA3 {
        FindCanonical(w, t.rest);
        OnePartMore(w, tail, t.tag, t.body, t.rest, FindExtensions(w, t.rest).value);
      } else {
        TakeCanonical(w, t.body);
        var s := Take(w, t.body).value;
        assert [] + tail == tail;
        assert OtherParts(w, []) && tail == EncodeParts(w, []) + (EncodeTlv(0xA3, EncodeTlv(0x30, s.body) + s.rest) + t.rest);
      }
    }
  }

  lemma OnePartMore(w: Width, tail: Bytes, tag: Byte, body: Bytes, rest: Bytes, found: Option<Bytes>)
    requires tag != 0xA3 && tag % 32 != 31 && Small(w, body) && tail == EncodeTlv(tag, body) + rest
    requires match found case None => HoldsNone(w, rest) case Some(list) => Holds(w, rest, list)
    ensures match found case None => HoldsNone(w, tail) case Some(list) => Holds(w, tail, list)
  {
    hide EncodeTlv;
    match found
    case None =>
      var parts :| OtherParts(w, parts) && rest == EncodeParts(w, parts);
      PartsCons(w, tag, body, parts);
    case Some(list) =>
      var parts, spare, more :|
        && OtherParts(w, parts) && Small(w, list) && Small(w, EncodeTlv(0x30, list) + spare)
        && rest == EncodeParts(w, parts) + (EncodeTlv(0xA3, EncodeTlv(0x30, list) + spare) + more);
      PartsCons(w, tag, body, parts);
      assert tail == EncodeParts(w, [(tag, body)] + parts) + (EncodeTlv(0xA3, EncodeTlv(0x30, list) + spare) + more);
  }

  lemma PartsCons(w: Width, tag: Byte, body: Bytes, parts: seq<(Byte, Bytes)>)
    requires tag != 0xA3 && tag % 32 != 31 && Small(w, body) && OtherParts(w, parts)
    ensures OtherParts(w, [(tag, body)] + parts)
    ensures EncodeParts(w, [(tag, body)] + parts) == EncodeTlv(tag, body) + EncodeParts(w, parts)
  {
    var all := [(tag, body)] + parts;
    assert all[1..] == parts;
  }

  /**
   * On 32- and 64-bit targets the extensions read from a certificate's tail are those written there, in order:
   * all of them or none, when the tail is other parts followed by a list of well-formed extensions, and nothing
   * otherwise. (On a 16-bit word everything so written is read too.)
   */
  lemma ExtensionsExactly(w: Width, tail: Bytes, xs: seq<Extension>)
    ensures Written(w, tail, xs) ==> Extensions(w, tail) == Ok(xs)
    ensures w != W16 && Extensions(w, tail) == Ok(xs) ==> Written(w, tail, xs)
  {
    hide FindExtensions, ExtensionList, Holds, HoldsNone, EncodeList, AllSaid;
    if Written(w, tail, xs) {
      if HoldsNone(w, tail) && xs == [] {
        FindReads(w, tail, []);
      } else {
        var es :| AllFit(w, es) && Holds(w, tail, EncodeList(w, es)) && xs == AllSaid(es);
        FindReads(w, tail, EncodeList(w, es));
        ListReads(w, es);
      }
    }
    if w != W16 && Extensions(w, tail) == Ok(xs) {
      FindCanonical(w, tail);
      if FindExtensions(w, tail).value.Some? {
        var es := ListCanonical(w, FindExtensions(w, tail).value.value);
      }
    }
  }

  ghost predicate Written(w: Width, tail: Bytes, xs: seq<Extension>) {
    || (HoldsNone(w, tail) && xs == [])
    || exists es :: AllFit(w, es) && Holds(w, tail, EncodeList(w, es)) && xs == AllSaid(es)
  }

  // ---- keyUsage and basicConstraints ----

  /** keyCertSign is bit 5 of the BIT STRING that is the whole value. */
  lemma KeyUsageExactly(w: Width, value: Bytes, sign: bool)
    ensures (exists bits :: Small(w, bits) && value == EncodeTlv(3, bits) && sign == (bits != [] && HasBit(bits[1..], 5))) ==>
              KeyUsage(w, value) == Ok(sign)
    ensures w != W16 && KeyUsage(w, value) == Ok(sign) ==>
              exists bits :: Small(w, bits) && value == EncodeTlv(3, bits) && sign == (bits != [] && HasBit(bits[1..], 5))
  {
    hide EncodeTlv, Take;
    assert Weight(2) == 4;
    forall bits | Small(w, bits) && value == EncodeTlv(3, bits)
      ensures KeyUsage(w, value) == Ok(bits != [] && HasBit(bits[1..], 5))
    {
      TakeEncoded(w, 3, bits, []);
      assert value + [] == value;
      assert |bits| > 1 ==> bits[1..][0] == bits[1];
    }
    if w != W16 && KeyUsage(w, value) == Ok(sign) {
      TakeCanonical(w, value);
      var t := Take(w, value).value;
      assert EncodeTlv(3, t.body) + [] == EncodeTlv(3, t.body);
      assert Small(w, t.body) && value == EncodeTlv(3, t.body);
    }
  }

  /** A pathLenConstraint is the number its octets write, when not negative and within 32 bits. */
  lemma PathLenExactly(b: Bytes)
    ensures PathLen(b).Ok? <==> (b == [] || b[0] < 128) && (|b| <= 4 || (|b| == 5 && b[0] == 0))
    ensures PathLen(b).Ok? ==> PathLen(b).value == FromBigEndian(b) < 0x1_0000_0000
  {
    hide FromBigEndian, Pow256;
    if PathLen(b).Ok? {
      var sig := if b != [] && b[0] == 0 then b[1..] else b;
      if b != [] && b[0] == 0 {
        LeadingZeros(1, sig);
        assert Zeros(1) + sig == b;
      }
      FromBigEndianRoundTrip(sig);
      Pow256Grows(|sig|, 4);
      Pow256s();
    }
  }

  /** basicConstraints: SEQUENCE { cA DEFAULT FALSE, pathLenConstraint OPTIONAL }, with what is left unread. */
  datatype Basic = Basic(ca: Option<Bytes>, pathLen: Option<Bytes>, spare: Bytes)

  predicate BasicFits(w: Width, b: Basic) {
    && (b.ca.Some? ==> Small(w, b.ca.value)) && (b.pathLen.Some? ==> Small(w, b.pathLen.value) && PathLen(b.pathLen.value).Ok?)
    && Small(w, BasicInner(w, b))
    && (b.pathLen.None? ==> b.spare == [] || b.spare[0] != 2)
    && (b.ca.None? && b.pathLen.None? ==> b.spare == [] || b.spare[0] != 1)
  }

  function BasicInner(w: Width, b: Basic): (x: Bytes) {
    if (b.ca.Some? ==> Small(w, b.ca.value)) && (b.pathLen.Some? ==> Small(w, b.pathLen.value))
    then Maybe(1, b.ca) + (Maybe(2, b.pathLen) + b.spare) else []
  }

  /** Each field as far as it is there: cA true when its first octet is not zero, the path length as a number. */
  function BasicSaid(b: Basic): (x: (Option<bool>, Option<nat>))
    requires b.pathLen.Some? ==> PathLen(b.pathLen.value).Ok?
  {
    (match b.ca case None => None case Some(x) => Some(x != [] && x[0] != 0),
     match b.pathLen case None => None case Some(x) => Some(FromBigEndian(x)))
  }

  lemma PathFieldReads(w: Width, n: Option<Bytes>, spare: Bytes)
    requires n.Some? ==> Small(w, n.value) && PathLen(n.value).Ok?
    requires n.None? ==> spare == [] || spare[0] != 2
    ensures ConstraintsPathLen(w, Maybe(2, n) + spare) == Ok(match n case None => None case Some(x) => Some(FromBigEndian(x)))
  {
    hide EncodeTlv, Take, PathLen;
    if n.Some? {
      TakeEncoded(w, 2, n.value, spare);
      StartsWith(2, n.value, spare);
      PathLenExactly(n.value);
    } else {
      assert [] + spare == spare;
    }
  }

  lemma BasicReads(w: Width, b: Basic)
    requires BasicFits(w, b)
    ensures Constraints(w, EncodeTlv(0x30, BasicInner(w, b))) == Ok(BasicSaid(b))
  {
    hide EncodeTlv, Take, PathLen, ConstraintsPathLen;
    var inner := BasicInner(w, b);
    TakeEncoded(w, 0x30, inner, []);
    assert EncodeTlv(0x30, inner) + [] == EncodeTlv(0x30, inner);
    var rest := Maybe(2, b.pathLen) + b.spare;
    PathFieldReads(w, b.pathLen, b.spare);
    if b.ca.Some? {
      TakeEncoded(w, 1, b.ca.value, rest);
      StartsWith(1, b.ca.value, rest);
    } else {
      assert [] + rest == rest;
      if b.pathLen.Some? {
        StartsWith(2, b.pathLen.value, b.spare);
      } else {
        assert [] + b.spare == b.spare;
      }
    }
  }

  lemma BasicCanonical(w: Width, value: Bytes) returns (b: Basic)
    requires w != W16 && Constraints(w, value).Ok?
    ensures BasicFits(w, b) && value == EncodeTlv(0x30, BasicInner(w, b)) && Constraints(w, value).value == BasicSaid(b)
  {
    hide EncodeTlv, Take, PathLen, ConstraintsPathLen, BasicFits, BasicInner, BasicSaid;
    TakeCanonical(w, value);
    var s := Take(w, value).value;
    assert EncodeTlv(0x30, s.body) + [] == EncodeTlv(0x30, s.body);
    if s.body != [] && s.body[0] == 1 {
      b := FlaggedCanonical(w, s.body);
    } else {
      b := PlainCanonical(w, s.body);
    }
  }

  lemma FlaggedCanonical(w: Width, body: Bytes) returns (b: Basic)
    requires w != W16 && Small(w, body) && body != [] && body[0] == 1 && Take(w, body).Ok?
    requires ConstraintsPathLen(w, Take(w, body).value.rest).Ok?
    ensures BasicFits(w, b) && body == BasicInner(w, b)
    ensures BasicSaid(b) == (Some(Truthy(Take(w, body).value.body)), ConstraintsPathLen(w, Take(w, body).value.rest).value)
  {
    hide EncodeTlv, Take, PathLen, ConstraintsPathLen;
    TakeCanonical(w, body);
    var flag := Take(w, body).value;
    var n, spare := PathFieldCanonical(w, flag.rest);
    b := Basic(Some(flag.body), n, spare);
  }

  lemma PlainCanonical(w: Width, body: Bytes) returns (b: Basic)
    requires w != W16 && Small(w, body) && (body == [] || body[0] != 1) && ConstraintsPathLen(w, body).Ok?
    ensures BasicFits(w, b) && body == BasicInner(w, b) && BasicSaid(b) == (None, ConstraintsPathLen(w, body).value)
  {
    hide EncodeTlv, Take, PathLen, ConstraintsPathLen;
    var n, spare := PathFieldCanonical(w, body);
    b := Basic(None, n, spare);
    assert [] + body == body;
    assert n.None? ==> [] + spare == spare;
  }

  lemma PathFieldCanonical(w: Width, rest: Bytes) returns (n: Option<Bytes>, spare: Bytes)
    requires w != W16 && ConstraintsPathLen(w, rest).Ok?
    ensures n.Some? ==> Small(w, n.value) && PathLen(n.value).Ok?
    ensures n.None? ==> spare == [] || spare[0] != 2
    ensures rest == Maybe(2, n) + spare
    ensures ConstraintsPathLen(w, rest).value == match n case None => None case Some(x) => Some(FromBigEndian(x))
  {
    hide EncodeTlv, Take, PathLen;
    if rest != [] && rest[0] == 2 {
      TakeCanonical(w, rest);
      var t := Take(w, rest).value;
      PathLenExactly(t.body);
      n, spare := Some(t.body), t.rest;
    } else {
      n, spare := None, rest;
      assert [] + rest == rest;
    }
  }

  /** basicConstraints says exactly what is written in it, as far as it is there. */
  lemma BasicExactly(w: Width, value: Bytes, said: (Option<bool>, Option<nat>))
    ensures (exists b :: BasicFits(w, b) && value == EncodeTlv(0x30, BasicInner(w, b)) && said == BasicSaid(b)) ==>
              Constraints(w, value) == Ok(said)
    ensures w != W16 && Constraints(w, value) == Ok(said) ==>
              exists b :: BasicFits(w, b) && value == EncodeTlv(0x30, BasicInner(w, b)) && said == BasicSaid(b)
  {
    hide EncodeTlv, Constraints, BasicInner, BasicSaid;
    forall b | BasicFits(w, b) && value == EncodeTlv(0x30, BasicInner(w, b))
      ensures Constraints(w, value) == Ok(BasicSaid(b))
    {
      BasicReads(w, b);
    }
    if w != W16 && Constraints(w, value) == Ok(said) {
      var b := BasicCanonical(w, value);
    }
  }

  /** The SubjectAltName's names are the content of the SEQUENCE that starts its value. */
  lemma SanExactly(w: Width, value: Bytes, names: Bytes)
    ensures (exists after :: Small(w, names) && value == EncodeTlv(0x30, names) + after) ==> SanBody(w, value) == Ok(Some(names))
    ensures w != W16 && SanBody(w, value) == Ok(Some(names)) ==>
              exists after :: Small(w, names) && value == EncodeTlv(0x30, names) + after
  {
    hide EncodeTlv, Take;
    forall after | Small(w, names) && value == EncodeTlv(0x30, names) + after
      ensures SanBody(w, value) == Ok(Some(names))
    {
      TakeEncoded(w, 0x30, names, after);
    }
    if w != W16 && SanBody(w, value) == Ok(Some(names)) {
      TakeCanonical(w, value);
    }
  }
}
