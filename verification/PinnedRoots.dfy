/** Chain validation against a ledger of pinned anchors. */
module PinnedRoots {
  import opened Bytes
  import W = Tlv
  import X = TlvCert

  type CertError = X.CertParseError
  type CaConstraints = X.CaConstraints

  datatype Anchor = Fingerprint(sha: Bytes) | SpkiFingerprint(sha: Bytes) | Cert(der: Bytes)

  datatype ChainError =
    | EmptyChain
    | ChainTooLong
    | Parse(cert: CertError)
    | LinkInvalid
    | IssuerNotCa
    | IssuerKeyUsageForbidsCertSign
    | PathLenExceeded
    | UntrustedRoot
    | Validity
    | LeafVerifierInvalid

  /** The parser, hash, signature check, clock and leaf-key setup the walk is built on. */
  datatype Env<!V> = Env(parse: Bytes -> Result<V, CertError>,
                         caConstraints: Bytes -> Result<CaConstraints, CertError>,
                         spki: Bytes -> Result<Bytes, CertError>,
                         sha256: Bytes -> Bytes,
                         link: (V, V) -> bool,
                         timeValid: V -> bool,
                         leafUsable: V -> bool)

  datatype Roots<!V> = Roots(env: Env<V>, anchors: seq<Anchor>, enforceAnchorExpiry: bool, cap: nat)

  // ---- Single decisions ----

  predicate HasSpkiPins(anchors: seq<Anchor>) {
    exists i :: 0 <= i < |anchors| && anchors[i].SpkiFingerprint?
  }

  /** Is this cert pinned? Asking for its SPKI may fail, and is only done when the full-cert
      pins miss and some SPKI pin exists. */
  function Pinned<V>(p: Roots<V>, der: Bytes): (r: Result<bool, ChainError>) {
    if Fingerprint(p.env.sha256(der)) in p.anchors then Ok(true)
    else if !HasSpkiPins(p.anchors) then Ok(false)
    else
      match p.env.spki(der)
      case Err(e) => Err(Parse(e))
      case Ok(spki) => Ok(SpkiFingerprint(p.env.sha256(spki)) in p.anchors)
  }

  /** A stored anchor is exempt from expiry unless that is enforced. */
  predicate TimeOk<V>(p: Roots<V>, der: Bytes, view: V) {
    p.enforceAnchorExpiry || Cert(der) !in p.anchors ==> p.env.timeValid(view)
  }

  function IssuerError<V>(p: Roots<V>, der: Bytes, below: nat): (e: Option<ChainError>) {
    match p.env.caConstraints(der)
    case Err(e) => Some(Parse(e))
    case Ok(ca) =>
      if !ca.isCa then Some(IssuerNotCa)
      else if ca.keyCertSign == Some(false) then Some(IssuerKeyUsageForbidsCertSign)
      else if ca.pathLen.Some? && ca.pathLen.value < below then Some(PathLenExceeded)
      else None
  }

  /** A stored certificate that signs `child` and may have `below` CAs beneath it. */
  predicate Vouches<V>(p: Roots<V>, a: Anchor, child: V, below: nat) {
    && a.Cert? && p.env.parse(a.der).Ok?
    && IssuerError(p, a.der, below).None?
    && p.env.link(child, p.env.parse(a.der).value)
    && TimeOk(p, a.der, p.env.parse(a.der).value)
  }

  predicate Vouched<V>(p: Roots<V>, child: V, below: nat) {
    exists a :: a in p.anchors && Vouches(p, a, child, below)
  }

  // ---- The walk, step by step ----

  /** From cert `i`, seen as `child`: where the walk stops, and whether on a pin. */
  function Walk<V>(p: Roots<V>, certs: seq<Bytes>, i: nat, child: V): (r: Result<(nat, V, bool), ChainError>)
    requires i < |certs|
    decreases |certs| - i
  {
    var pinned :- Pinned(p, certs[i]);
    if !TimeOk(p, certs[i], child) then Err(Validity)
    else if pinned then Ok((i, child, true))
    else if i + 1 == |certs| then Ok((i, child, false))
    else
      match p.env.parse(certs[i + 1])
      case Err(e) => Err(Parse(e))
      case Ok(parent) =>
        if !p.env.link(child, parent) then Err(LinkInvalid)
        else
          match IssuerError(p, certs[i + 1], i)
          case Some(e) => Err(e)
          case None => Walk(p, certs, i + 1, parent)
  }

  /** The verdict; on acceptance, the leaf view whose key is then used. */
  function Verdict<V>(p: Roots<V>, certs: seq<Bytes>): (r: Result<V, ChainError>) {
    if certs == [] then Err(EmptyChain)
    else if |certs| > p.cap then Err(ChainTooLong)
    else
      match p.env.parse(certs[0])
      case Err(e) => Err(Parse(e))
      case Ok(leaf) =>
        var (top, child, anchored) :- Walk(p, certs, 0, leaf);
        if !anchored && !Vouched(p, child, top) then Err(UntrustedRoot)
        else if !p.env.leafUsable(leaf) then Err(LeafVerifierInvalid)
        else Ok(leaf)
  }

  // ---- The imperative forms ----

  method AnyPin<V>(p: Roots<V>, spki: bool) returns (found: bool)
    ensures found <==> exists i :: 0 <= i < |p.anchors| && (if spki then p.anchors[i].SpkiFingerprint? else p.anchors[i].Fingerprint?)
  {
    for i := 0 to |p.anchors|
      invariant forall j :: 0 <= j < i ==> !(if spki then p.anchors[j].SpkiFingerprint? else p.anchors[j].Fingerprint?)
    {
      if (if spki then p.anchors[i].SpkiFingerprint? else p.anchors[i].Fingerprint?) {
        return true;
      }
    }
    found := false;
  }

  method Find<V>(p: Roots<V>, a: Anchor) returns (found: bool)
    ensures found <==> a in p.anchors
  {
    for i := 0 to |p.anchors|
      invariant a !in p.anchors[..i]
    {
      if p.anchors[i] == a {
        return true;
      }
    }
    assert p.anchors[..|p.anchors|] == p.anchors;
    found := false;
  }

  method AnchorMatches<V>(p: Roots<V>, der: Bytes) returns (r: Result<bool, ChainError>)
    ensures r == Pinned(p, der)
  {
    var any := AnyPin(p, false);
    if any {
      var hit := Find(p, Fingerprint(p.env.sha256(der)));
      if hit {
        return Ok(true);
      }
    }
    any := AnyPin(p, true);
    if any {
      match p.env.spki(der)
      case Err(e) => return Err(Parse(e));
      case Ok(spki) =>
        var hit := Find(p, SpkiFingerprint(p.env.sha256(spki)));
        if hit {
          return Ok(true);
        }
    }
    r := Ok(false);
  }

  method FindVoucher<V>(p: Roots<V>, child: V, below: nat) returns (found: bool)
    ensures found <==> Vouched(p, child, below)
  {
    for i := 0 to |p.anchors|
      invariant forall j :: 0 <= j < i ==> !Vouches(p, p.anchors[j], child, below)
    {
      match p.anchors[i]
      case Cert(der) =>
        var view := p.env.parse(der);
        if view.Ok? && IssuerError(p, der, below).None? && p.env.link(child, view.value) && TimeOk(p, der, view.value) {
          assert Vouches(p, p.anchors[i], child, below);
          return true;
        }
      case _ =>
    }
    found := false;
  }

  method VerifyChain<V>(p: Roots<V>, certs: seq<Bytes>) returns (r: Result<V, ChainError>)
    ensures r == Verdict(p, certs)
  {
    if |certs| == 0 {
      return Err(EmptyChain);
    }
    if |certs| > p.cap {
      return Err(ChainTooLong);
    }
    var leaf := p.env.parse(certs[0]);
    if leaf.Err? {
      return Err(Parse(leaf.error));
    }
    var child := leaf.value;
    var anchored := false;
    var i := 0;
    while true
      invariant 0 <= i < |certs| && !anchored
      invariant Walk(p, certs, 0, leaf.value) == Walk(p, certs, i, child)
      decreases |certs| - i
    {
      var pinned := AnchorMatches(p, certs[i]);
      if pinned.Err? {
        return Err(pinned.error);
      }
      if !TimeOk(p, certs[i], child) {
        return Err(Validity);
      }
      if pinned.value {
        anchored := true;
        break;
      }
      if i + 1 == |certs| {
        break;
      }
      var parent := p.env.parse(certs[i + 1]);
      if parent.Err? {
        return Err(Parse(parent.error));
      }
      if !p.env.link(child, parent.value) {
        return Err(LinkInvalid);
      }
      var issuer := IssuerError(p, certs[i + 1], i);
      if issuer.Some? {
        return Err(issuer.value);
      }
      child := parent.value;
      i := i + 1;
    }
    if !anchored {
      var vouched := FindVoucher(p, child, i);
      if !vouched {
        return Err(UntrustedRoot);
      }
    }
    if !p.env.leafUsable(leaf.value) {
      return Err(LeafVerifierInvalid);
    }
    r := Ok(leaf.value);
  }

  // ---- What acceptance means ----

  /** Cert `j` is in date, not pinned, and signed by the next: an authority whose pathLen
      admits the `j` CAs between it and the leaf. */
  ghost predicate LinkOk<V>(p: Roots<V>, certs: seq<Bytes>, j: nat)
    requires j + 1 < |certs|
  {
    && p.env.parse(certs[j]).Ok? && p.env.parse(certs[j + 1]).Ok?
    && TimeOk(p, certs[j], p.env.parse(certs[j]).value)
    && Pinned(p, certs[j]) == Ok(false)
    && p.env.link(p.env.parse(certs[j]).value, p.env.parse(certs[j + 1]).value)
    && IssuerError(p, certs[j + 1], j).None?
  }

  /** Every link below `k` holds, and cert `k` parses and is in date. */
  ghost predicate PathTo<V>(p: Roots<V>, certs: seq<Bytes>, k: nat)
    requires k < |certs|
  {
    && (forall j :: 0 <= j < k ==> LinkOk(p, certs, j))
    && p.env.parse(certs[k]).Ok? && TimeOk(p, certs[k], p.env.parse(certs[k]).value)
  }

  /** ... and the path ends on a pin, or on the top cert vouched for by a stored one. */
  ghost predicate TrustedAt<V>(p: Roots<V>, certs: seq<Bytes>, k: nat)
    requires k < |certs| && PathTo(p, certs, k)
  {
    || Pinned(p, certs[k]) == Ok(true)
    || (&& k == |certs| - 1 && Pinned(p, certs[k]) == Ok(false)
        && Vouched(p, p.env.parse(certs[k]).value, k))
  }

  ghost predicate TrustedPath<V>(p: Roots<V>, certs: seq<Bytes>) {
    exists k :: 0 <= k < |certs| && PathTo(p, certs, k) && TrustedAt(p, certs, k)
  }

  /** Climbing from `i` stops at `k` exactly when `k` ends the path. */
  lemma {:induction false} WalkFinds<V>(p: Roots<V>, certs: seq<Bytes>, i: nat, k: nat)
    requires i <= k < |certs| && p.env.parse(certs[i]).Ok?
    requires PathTo(p, certs, k) && Pinned(p, certs[k]).Ok? && (Pinned(p, certs[k]).value || k == |certs| - 1)
    ensures Walk(p, certs, i, p.env.parse(certs[i]).value)
            == Ok((k, p.env.parse(certs[k]).value, Pinned(p, certs[k]).value))
    decreases k - i
  {
    if i < k {
      assert LinkOk(p, certs, i);
      WalkFinds(p, certs, i + 1, k);
    }
  }

  lemma {:induction false} WalkIsPath<V>(p: Roots<V>, certs: seq<Bytes>, i: nat)
    requires i < |certs| && p.env.parse(certs[i]).Ok? && forall j :: 0 <= j < i ==> LinkOk(p, certs, j)
    ensures var w := Walk(p, certs, i, p.env.parse(certs[i]).value);
            w.Ok? ==>
              var (k, child, pinned) := w.value;
              && i <= k < |certs| && PathTo(p, certs, k) && p.env.parse(certs[k]) == Ok(child)
              && Pinned(p, certs[k]) == Ok(pinned) && (pinned || k == |certs| - 1)
    decreases |certs| - i
  {
    if Walk(p, certs, i, p.env.parse(certs[i]).value).Ok? && Pinned(p, certs[i]) == Ok(false) && i + 1 < |certs| {
      WalkIsPath(p, certs, i + 1);
    }
  }

  // ---- The same, over what the parser, the clock and the ledger say ----

  /** The certificate is a CA, not barred from signing certificates, with room for `below` CAs beneath it
      (section 6.1.4 of RFC 5280). */
  ghost predicate MayIssue<V>(p: Roots<V>, der: Bytes, below: nat) {
    exists ca :: && p.env.caConstraints(der) == Ok(ca)
                 && ca.isCa && ca.keyCertSign != Some(false) && (ca.pathLen.None? || ca.pathLen.value >= below)
  }

  /** In date now, or a stored anchor whose dates do not matter. */
  ghost predicate InDate<V>(p: Roots<V>, der: Bytes) {
    p.env.parse(der).Ok? && (p.env.timeValid(p.env.parse(der).value) || (!p.enforceAnchorExpiry && Cert(der) in p.anchors))
  }

  ghost predicate IsPin<V>(p: Roots<V>, der: Bytes) {
    || Fingerprint(p.env.sha256(der)) in p.anchors
    || (p.env.spki(der).Ok? && SpkiFingerprint(p.env.sha256(p.env.spki(der).value)) in p.anchors)
  }

  /** Not pinned, and known not to be: its SPKI can be had wherever SPKIs are pinned. */
  ghost predicate IsNoPin<V>(p: Roots<V>, der: Bytes) {
    !IsPin(p, der) && (p.env.spki(der).Ok? || forall a :: a in p.anchors ==> !a.SpkiFingerprint?)
  }

  /** Signed by the certificate above, which may issue it as the `below`-th CA from the leaf. */
  ghost predicate IssuedBy<V>(p: Roots<V>, der: Bytes, issuer: Bytes, below: nat) {
    && p.env.parse(der).Ok? && p.env.parse(issuer).Ok?
    && p.env.link(p.env.parse(der).value, p.env.parse(issuer).value) && MayIssue(p, issuer, below)
  }

  /** A chain to trust: up to some certificate every one is in date, unpinned and issued by the next; that one is
      in date and pinned, or the last of the chain, unpinned and issued by a stored anchor in date. */
  ghost predicate TrustedChain<V>(p: Roots<V>, certs: seq<Bytes>) {
    exists k :: 0 <= k < |certs| && EndsAt(p, certs, k)
  }

  ghost predicate EndsAt<V>(p: Roots<V>, certs: seq<Bytes>, k: nat)
    requires k < |certs|
  {
    && (forall j :: 0 <= j < k ==> InDate(p, certs[j]) && IsNoPin(p, certs[j]) && IssuedBy(p, certs[j], certs[j + 1], j))
    && InDate(p, certs[k])
    && (|| IsPin(p, certs[k])
        || (&& k == |certs| - 1 && IsNoPin(p, certs[k])
            && exists root :: Cert(root) in p.anchors && InDate(p, root) && IssuedBy(p, certs[k], root, k)))
  }

  lemma IssuerExactly<V>(p: Roots<V>, der: Bytes, below: nat)
    ensures IssuerError(p, der, below).None? <==> MayIssue(p, der, below)
    ensures forall ca :: p.env.caConstraints(der) == Ok(ca) ==>
              && (!ca.isCa ==> IssuerError(p, der, below) == Some(IssuerNotCa))
              && (ca.isCa && ca.keyCertSign == Some(false) ==>
                    IssuerError(p, der, below) == Some(IssuerKeyUsageForbidsCertSign))
              && (ca.isCa && ca.keyCertSign != Some(false) && !MayIssue(p, der, below) ==>
                    IssuerError(p, der, below) == Some(PathLenExceeded))
    ensures forall e :: p.env.caConstraints(der) == Err(e) ==> IssuerError(p, der, below) == Some(Parse(e))
  {
    if p.env.caConstraints(der).Ok? {
      var ca := p.env.caConstraints(der).value;
      assert IssuerError(p, der, below).None? ==> p.env.caConstraints(der) == Ok(ca);
    }
  }

  lemma PinExactly<V>(p: Roots<V>, der: Bytes)
    ensures Pinned(p, der) == Ok(true) <==> IsPin(p, der)
    ensures Pinned(p, der) == Ok(false) <==> IsNoPin(p, der)
  {
    if p.env.spki(der).Ok? && SpkiFingerprint(p.env.sha256(p.env.spki(der).value)) in p.anchors {
      var i :| 0 <= i < |p.anchors| && p.anchors[i] == SpkiFingerprint(p.env.sha256(p.env.spki(der).value));
      assert HasSpkiPins(p.anchors);
    }
    if HasSpkiPins(p.anchors) {
      var i :| 0 <= i < |p.anchors| && p.anchors[i].SpkiFingerprint?;
      assert p.anchors[i] in p.anchors;
    }
  }

  lemma DateExactly<V>(p: Roots<V>, der: Bytes)
    requires p.env.parse(der).Ok?
    ensures TimeOk(p, der, p.env.parse(der).value) <==> InDate(p, der)
  {
  }

  lemma LinkExactly<V>(p: Roots<V>, certs: seq<Bytes>, j: nat)
    requires j + 1 < |certs|
    ensures LinkOk(p, certs, j) <==>
            InDate(p, certs[j]) && IsNoPin(p, certs[j]) && IssuedBy(p, certs[j], certs[j + 1], j)
  {
    hide Pinned, TimeOk, IssuerError, InDate, IsNoPin, IsPin, MayIssue;
    InDateParses(p, certs[j]);
    if p.env.parse(certs[j]).Ok? {
      DateExactly(p, certs[j]);
    }
    PinExactly(p, certs[j]);
    IssuerExactly(p, certs[j + 1], j);
  }

  lemma InDateParses<V>(p: Roots<V>, der: Bytes)
    ensures InDate(p, der) ==> p.env.parse(der).Ok?
  {
  }

  lemma VouchedExactly<V>(p: Roots<V>, der: Bytes, below: nat)
    requires p.env.parse(der).Ok?
    ensures Vouched(p, p.env.parse(der).value, below) <==>
            exists root :: Cert(root) in p.anchors && InDate(p, root) && IssuedBy(p, der, root, below)
  {
    hide TimeOk, IssuerError, InDate, MayIssue;
    var child := p.env.parse(der).value;
    forall root
      ensures Vouches(p, Cert(root), child, below) <==> InDate(p, root) && IssuedBy(p, der, root, below)
    {
      InDateParses(p, root);
      if p.env.parse(root).Ok? {
        DateExactly(p, root);
      }
      IssuerExactly(p, root, below);
    }
    hide IssuedBy;
    if Vouched(p, child, below) {
      var a :| a in p.anchors && Vouches(p, a, child, below);
      assert a == Cert(a.der);
    }
    if exists root :: Cert(root) in p.anchors && InDate(p, root) && IssuedBy(p, der, root, below) {
      var root :| Cert(root) in p.anchors && InDate(p, root) && IssuedBy(p, der, root, below);
      assert Vouches(p, Cert(root), child, below);
    }
  }

  lemma PathExactly<V>(p: Roots<V>, certs: seq<Bytes>, k: nat)
    requires k < |certs|
    ensures PathTo(p, certs, k) <==>
            && (forall j :: 0 <= j < k ==>
                  InDate(p, certs[j]) && IsNoPin(p, certs[j]) && IssuedBy(p, certs[j], certs[j + 1], j))
            && InDate(p, certs[k])
  {
    hide LinkOk, TimeOk, InDate, IsNoPin, IssuedBy;
    InDateParses(p, certs[k]);
    if p.env.parse(certs[k]).Ok? {
      DateExactly(p, certs[k]);
    }
    if PathTo(p, certs, k) {
      forall j | 0 <= j < k
        ensures InDate(p, certs[j]) && IsNoPin(p, certs[j]) && IssuedBy(p, certs[j], certs[j + 1], j)
      {
        assert LinkOk(p, certs, j);
        LinkExactly(p, certs, j);
      }
    }
    if forall j :: 0 <= j < k ==> InDate(p, certs[j]) && IsNoPin(p, certs[j]) && IssuedBy(p, certs[j], certs[j + 1], j) {
      forall j | 0 <= j < k
        ensures LinkOk(p, certs, j)
      {
        LinkExactly(p, certs, j);
      }
    }
  }

  lemma EndExactly<V>(p: Roots<V>, certs: seq<Bytes>, k: nat)
    requires k < |certs|
    ensures PathTo(p, certs, k) && TrustedAt(p, certs, k) <==> EndsAt(p, certs, k)
  {
    PathExactly(p, certs, k);
    PinExactly(p, certs[k]);
    InDateParses(p, certs[k]);
    if p.env.parse(certs[k]).Ok? {
      VouchedExactly(p, certs[k], k);
    }
    hide LinkOk, Pinned, InDate, IsNoPin, IsPin, IssuedBy, Vouched, PathTo;
  }

  lemma TrustedExactly<V>(p: Roots<V>, certs: seq<Bytes>)
    ensures TrustedPath(p, certs) <==> TrustedChain(p, certs)
  {
    forall k | 0 <= k < |certs|
      ensures PathTo(p, certs, k) && TrustedAt(p, certs, k) <==> EndsAt(p, certs, k)
    {
      EndExactly(p, certs, k);
    }
    hide PathTo, EndsAt, TrustedAt;
  }

  /** The climb reaches `i` with that certificate in hand when every link below holds. */
  lemma {:induction false} WalkReaches<V>(p: Roots<V>, certs: seq<Bytes>, i: nat)
    requires i < |certs| && p.env.parse(certs[0]).Ok? && (forall j :: 0 <= j < i ==> LinkOk(p, certs, j))
    ensures p.env.parse(certs[i]).Ok?
    ensures Walk(p, certs, 0, p.env.parse(certs[0]).value) == Walk(p, certs, i, p.env.parse(certs[i]).value)
  {
    if i > 0 {
      WalkReaches(p, certs, i - 1);
      assert LinkOk(p, certs, i - 1);
    }
  }

  /** The first thing wrong on the climb decides the error. */
  lemma RefusedFor<V>(p: Roots<V>, certs: seq<Bytes>, i: nat)
    requires 0 < |certs| <= p.cap && i < |certs| && p.env.parse(certs[0]).Ok? && forall j :: 0 <= j < i ==> LinkOk(p, certs, j)
    ensures forall e :: Pinned(p, certs[i]) == Err(e) ==> Verdict(p, certs) == Err(e)
    ensures Pinned(p, certs[i]).Ok? && !InDate(p, certs[i]) ==> Verdict(p, certs) == Err(Validity)
    ensures IsNoPin(p, certs[i]) && InDate(p, certs[i]) && i + 1 < |certs| ==>
            match p.env.parse(certs[i + 1])
            case Err(e) => Verdict(p, certs) == Err(Parse(e))
            case Ok(parent) =>
              && (!p.env.link(p.env.parse(certs[i]).value, parent) ==> Verdict(p, certs) == Err(LinkInvalid))
              && (p.env.link(p.env.parse(certs[i]).value, parent) && IssuerError(p, certs[i + 1], i).Some? ==>
                    Verdict(p, certs) == Err(IssuerError(p, certs[i + 1], i).value))
    ensures IsNoPin(p, certs[i]) && InDate(p, certs[i]) && i + 1 == |certs| && !TrustedChain(p, certs) ==>
            Verdict(p, certs) == Err(UntrustedRoot)
  {
    WalkReaches(p, certs, i);
    PinExactly(p, certs[i]);
    DateExactly(p, certs[i]);
    hide Pinned, TimeOk, IssuerError, InDate, IsNoPin, TrustedPath, TrustedChain, LinkOk;
    TrustedExactly(p, certs);
    if IsNoPin(p, certs[i]) && InDate(p, certs[i]) && i + 1 == |certs| && !TrustedChain(p, certs) {
      NotVouched(p, certs, i);
    }
  }

  lemma NotVouched<V>(p: Roots<V>, certs: seq<Bytes>, i: nat)
    requires i + 1 == |certs| && PathTo(p, certs, i) && Pinned(p, certs[i]) == Ok(false) && !TrustedPath(p, certs)
    ensures !Vouched(p, p.env.parse(certs[i]).value, i)
  {
    assert !TrustedAt(p, certs, i);
  }

  /** A chain is accepted if and only if it is non-empty, within the depth cap, to be trusted, and its leaf key can
      be used. */
  lemma AcceptedExactly<V>(p: Roots<V>, certs: seq<Bytes>)
    ensures Verdict(p, certs).Ok? <==>
              && 0 < |certs| <= p.cap
              && TrustedChain(p, certs)
              && p.env.parse(certs[0]).Ok? && p.env.leafUsable(p.env.parse(certs[0]).value)
    ensures Verdict(p, certs).Ok? <==>
              && 0 < |certs| <= p.cap
              && TrustedPath(p, certs)
              && p.env.parse(certs[0]).Ok? && p.env.leafUsable(p.env.parse(certs[0]).value)
    ensures Verdict(p, certs).Ok? ==> Verdict(p, certs).value == p.env.parse(certs[0]).value
  {
    TrustedExactly(p, certs);
    hide TrustedChain;
    if 0 < |certs| <= p.cap && p.env.parse(certs[0]).Ok? {
      WalkIsPath(p, certs, 0);
      if TrustedPath(p, certs) {
        var k :| 0 <= k < |certs| && PathTo(p, certs, k) && TrustedAt(p, certs, k);
        WalkFinds(p, certs, 0, k);
      }
    }
  }

  /** Certs above a pinned one never matter: chains that agree up to it get one verdict. */
  lemma AbovePinIgnored<V>(p: Roots<V>, certs: seq<Bytes>, certs': seq<Bytes>, k: nat)
    requires k < |certs| <= p.cap && k < |certs'| <= p.cap
    requires certs[..k + 1] == certs'[..k + 1] && Pinned(p, certs[k]) == Ok(true)
    ensures Verdict(p, certs) == Verdict(p, certs')
  {
    assert certs[0] == certs[..k + 1][0] && certs'[0] == certs'[..k + 1][0];
    if p.env.parse(certs[0]).Ok? {
      WalkStopsAtPin(p, certs, certs', 0, p.env.parse(certs[0]).value, k);
    }
  }

  lemma {:induction false} WalkStopsAtPin<V>(p: Roots<V>, certs: seq<Bytes>, certs': seq<Bytes>, i: nat, child: V, k: nat)
    requires i <= k < |certs| && k < |certs'|
    requires certs[..k + 1] == certs'[..k + 1] && Pinned(p, certs[k]) == Ok(true)
    ensures Walk(p, certs, i, child) == Walk(p, certs', i, child)
    ensures Walk(p, certs, i, child).Ok? ==> Walk(p, certs, i, child).value.2
    decreases k - i
  {
    assert forall j :: 0 <= j <= k ==> certs[j] == certs[..k + 1][j] && certs'[j] == certs'[..k + 1][j];
    if i < k && p.env.parse(certs[i + 1]).Ok? {
      WalkStopsAtPin(p, certs, certs', i + 1, p.env.parse(certs[i + 1]).value, k);
    }
  }

  // ---- The ledger ----

  ghost predicate Within(a: seq<Anchor>, b: seq<Anchor>) {
    forall x :: x in a ==> x in b
  }

  lemma {:induction false} WalkIgnoresOrder<V>(p: Roots<V>, q: Roots<V>, certs: seq<Bytes>, i: nat, child: V)
    requires i < |certs| && q == p.(anchors := q.anchors)
    requires Within(p.anchors, q.anchors) && Within(q.anchors, p.anchors)
    ensures Walk(p, certs, i, child) == Walk(q, certs, i, child)
    decreases |certs| - i
  {
    PinnedIgnoresOrder(p, q, certs[i]);
    if i + 1 < |certs| && p.env.parse(certs[i + 1]).Ok? {
      WalkIgnoresOrder(p, q, certs, i + 1, p.env.parse(certs[i + 1]).value);
    }
  }

  lemma PinnedIgnoresOrder<V>(p: Roots<V>, q: Roots<V>, der: Bytes)
    requires q == p.(anchors := q.anchors)
    requires Within(p.anchors, q.anchors) && Within(q.anchors, p.anchors)
    ensures Pinned(p, der) == Pinned(q, der)
  {
    if HasSpkiPins(p.anchors) {
      SpkiPinsWithin(p.anchors, q.anchors);
    }
    if HasSpkiPins(q.anchors) {
      SpkiPinsWithin(q.anchors, p.anchors);
    }
  }

  lemma PinnedWithin<V>(p: Roots<V>, q: Roots<V>, der: Bytes)
    requires q == p.(anchors := q.anchors) && Within(p.anchors, q.anchors)
    requires Pinned(p, der) == Ok(true)
    ensures Pinned(q, der) == Ok(true)
  {
    if HasSpkiPins(p.anchors) {
      SpkiPinsWithin(p.anchors, q.anchors);
    }
  }

  lemma SpkiPinsWithin(a: seq<Anchor>, b: seq<Anchor>)
    requires Within(a, b) && HasSpkiPins(a)
    ensures HasSpkiPins(b)
  {
    var i :| 0 <= i < |a| && a[i].SpkiFingerprint?;
    assert a[i] in b;
  }

  lemma VouchedWithin<V>(p: Roots<V>, q: Roots<V>, child: V, below: nat)
    requires q == p.(anchors := q.anchors) && Within(p.anchors, q.anchors)
    requires Vouched(p, child, below)
    ensures Vouched(q, child, below)
  {
    var a :| a in p.anchors && Vouches(p, a, child, below);
    assert Vouches(q, a, child, below);
  }

  /** Ledgers with the same members give the same verdict, errors included. */
  lemma LedgerIsASet<V>(p: Roots<V>, q: Roots<V>, certs: seq<Bytes>)
    requires q == p.(anchors := q.anchors)
    requires Within(p.anchors, q.anchors) && Within(q.anchors, p.anchors)
    ensures Verdict(p, certs) == Verdict(q, certs)
  {
    if 0 < |certs| <= p.cap && p.env.parse(certs[0]).Ok? {
      var leaf := p.env.parse(certs[0]).value;
      WalkIgnoresOrder(p, q, certs, 0, leaf);
      var w := Walk(p, certs, 0, leaf);
      if w.Ok? {
        if Vouched(p, w.value.1, w.value.0) {
          VouchedWithin(p, q, w.value.1, w.value.0);
        }
        if Vouched(q, w.value.1, w.value.0) {
          VouchedWithin(q, p, w.value.1, w.value.0);
        }
      }
    }
  }

  /** In particular, the order of the ledger never matters. */
  lemma LedgerOrderIrrelevant<V>(p: Roots<V>, q: Roots<V>, certs: seq<Bytes>)
    requires q == p.(anchors := q.anchors) && multiset(p.anchors) == multiset(q.anchors)
    ensures Verdict(p, certs) == Verdict(q, certs)
  {
    forall x
      ensures x in p.anchors <==> x in q.anchors
    {
      assert x in p.anchors <==> x in multiset(p.anchors);
      assert x in q.anchors <==> x in multiset(q.anchors);
    }
    LedgerIsASet(p, q, certs);
  }

  /** Asking for an SPKI fails on cert `m`, and no cert up to it is pinned. */
  ghost predicate SpkiFailsFirst<V>(q: Roots<V>, certs: seq<Bytes>, m: nat)
    requires m < |certs|
  {
    && HasSpkiPins(q.anchors) && q.env.spki(certs[m]).Err?
    && forall j :: 0 <= j <= m ==> Pinned(q, certs[j]) != Ok(true)
  }

  /** Suppose a ledger accepts a chain, climbing to cert `k`. A larger ledger rejects it if
      and only if, somewhere on that climb, it must ask for an SPKI the parser cannot give
      before it meets a pin. */
  lemma GrowingLedger<V>(p: Roots<V>, q: Roots<V>, certs: seq<Bytes>, k: nat)
    requires q == p.(anchors := q.anchors) && Within(p.anchors, q.anchors)
    requires 0 <= k < |certs| <= p.cap && PathTo(p, certs, k) && TrustedAt(p, certs, k)
    requires Verdict(p, certs).Ok?
    ensures Verdict(q, certs).Err? <==> exists m :: 0 <= m <= k && SpkiFailsFirst(q, certs, m)
  {
    AcceptedExactly(p, certs);
    WalkFinds(p, certs, 0, k);
    ClimbAgain(p, q, certs, k, 0);
    if TrustedAtBy(p, certs, k) {
      VouchedWithin(p, q, p.env.parse(certs[k]).value, k);
    }
  }

  ghost predicate TrustedAtBy<V>(p: Roots<V>, certs: seq<Bytes>, k: nat)
    requires k < |certs| && p.env.parse(certs[k]).Ok?
  {
    Pinned(p, certs[k]) == Ok(false) && Vouched(p, p.env.parse(certs[k]).value, k)
  }

  lemma ClimbAgain<V>(p: Roots<V>, q: Roots<V>, certs: seq<Bytes>, k: nat, i: nat)
    requires q == p.(anchors := q.anchors) && Within(p.anchors, q.anchors)
    requires i <= k < |certs| && PathTo(p, certs, k) && p.env.parse(certs[i]).Ok?
    requires Pinned(p, certs[k]) == Ok(true) || (Pinned(p, certs[k]) == Ok(false) && k == |certs| - 1)
    requires forall j :: 0 <= j < i ==> Pinned(q, certs[j]) == Ok(false)
    ensures var w := Walk(q, certs, i, p.env.parse(certs[i]).value);
            && (w.Err? <==> exists m :: 0 <= m <= k && SpkiFailsFirst(q, certs, m))
            && (w.Ok? && !w.value.2 ==> w.value.0 == k && w.value.1 == p.env.parse(certs[k]).value && Pinned(p, certs[k]) == Ok(false))
    decreases k - i
  {
    hide Walk, Pinned, HasSpkiPins, LinkOk, TimeOk, Within;
    if Pinned(p, certs[k]) == Ok(true) {
      PinnedWithin(p, q, certs[k]);
    }
    ClimbStep(p, q, certs, k, i);
    PinnedAsks(q, certs[i]);
    match Pinned(q, certs[i])
    case Err(_) => assert SpkiFailsFirst(q, certs, i);
    case Ok(true) =>
      forall m | 0 <= m <= k
        ensures !SpkiFailsFirst(q, certs, m)
      {
        if m < i {
          PinnedAsks(q, certs[m]);
        }
      }
    case Ok(false) =>
      if i < k {
        ClimbAgain(p, q, certs, k, i + 1);
      } else {
        forall m | 0 <= m <= k
          ensures !SpkiFailsFirst(q, certs, m)
        {
          PinnedAsks(q, certs[m]);
        }
      }
  }

  /** The SPKI is what can go wrong, and it is asked for when it is needed. */
  lemma PinnedAsks<V>(q: Roots<V>, der: Bytes)
    ensures Pinned(q, der).Err? ==> HasSpkiPins(q.anchors) && q.env.spki(der).Err?
    ensures Pinned(q, der) == Ok(false) ==> !(HasSpkiPins(q.anchors) && q.env.spki(der).Err?)
  {
  }

  /** One step of the larger ledger's walk, where the smaller one's path leads. */
  lemma ClimbStep<V>(p: Roots<V>, q: Roots<V>, certs: seq<Bytes>, k: nat, i: nat)
    requires q == p.(anchors := q.anchors) && Within(p.anchors, q.anchors)
    requires i <= k < |certs| && PathTo(p, certs, k) && p.env.parse(certs[i]).Ok?
    ensures var w := Walk(q, certs, i, p.env.parse(certs[i]).value);
            match Pinned(q, certs[i])
            case Err(_) => w.Err?
            case Ok(true) => w == Ok((i, p.env.parse(certs[i]).value, true))
            case Ok(false) =>
              && (i < k ==> p.env.parse(certs[i + 1]).Ok? && w == Walk(q, certs, i + 1, p.env.parse(certs[i + 1]).value))
              && (i == k == |certs| - 1 ==> w == Ok((k, p.env.parse(certs[k]).value, false)))
  {
    hide Pinned;
    if i < k {
      assert LinkOk(p, certs, i);
    }
    assert Cert(certs[i]) in p.anchors ==> Cert(certs[i]) in q.anchors;
  }

  /** With a parser that gives the SPKI of every cert it parses, adding anchors never turns
      an accepted chain into a rejected one. */
  lemma GrowingLedgerKeeps<V>(p: Roots<V>, q: Roots<V>, certs: seq<Bytes>)
    requires q == p.(anchors := q.anchors) && Within(p.anchors, q.anchors)
    requires forall der :: p.env.parse(der).Ok? ==> p.env.spki(der).Ok?
    requires Verdict(p, certs).Ok?
    ensures Verdict(q, certs) == Verdict(p, certs)
  {
    AcceptedExactly(p, certs);
    AcceptedExactly(q, certs);
    var k :| 0 <= k < |certs| && PathTo(p, certs, k) && TrustedAt(p, certs, k);
    forall m | 0 <= m <= k
      ensures !SpkiFailsFirst(q, certs, m)
    {
      assert m < k ==> LinkOk(p, certs, m);
    }
    GrowingLedger(p, q, certs, k);
  }

  /** Hashes are 32 bytes, in the ledger and out of the backend. */
  ghost predicate Hashes32<V>(p: Roots<V>) {
    && (forall der :: |p.env.sha256(der)| == 32)
    && forall i :: 0 <= i < |p.anchors| ==> match p.anchors[i]
                                             case Fingerprint(h) => |h| == 32
                                             case SpkiFingerprint(h) => |h| == 32
                                             case Cert(_) => true
  }

  /** Without that, it can. The parser is the caller's (the strategy is generic in it): take one that
      parses every certificate and gives no SPKI, a chain pinned at its second certificate, and one
      SPKI pin more. */
  lemma GrowingLedgerCanReject() returns (p: Roots<int>, q: Roots<int>, certs: seq<Bytes>)
    ensures q == p.(anchors := q.anchors) && Within(p.anchors, q.anchors) && Hashes32(p) && Hashes32(q)
    ensures Verdict(p, certs).Ok? && Verdict(q, certs) == Err(Parse(X.Malformed))
  {
    var hash: Bytes -> Bytes := der => seq(32, _ => if der == [2] then 2 else 1);
    var env: Env<int> := Env(_ => Ok(0), _ => Ok(X.CaConstraints(true, None, None)), _ => Err(X.Malformed),
                             hash, (_, _) => true, _ => true, _ => true);
    var root, other: Bytes := hash([2]), seq(32, _ => 3);
    certs := [[1], [2]];
    p := Roots(env, [Fingerprint(root)], false, 8);
    q := p.(anchors := [Fingerprint(root), SpkiFingerprint(other)]);
    assert q.anchors[1].SpkiFingerprint?;
    assert hash([1])[0] == 1 && root[0] == 2;
    assert PathTo(p, certs, 1) && TrustedAt(p, certs, 1);
    AcceptedExactly(p, certs);
  }

  /** The in-tree parser gives that SPKI, so with it a growing ledger never loses a chain. */
  lemma GrowingLedgerWithTlvParser<K>(width: W.Width, family: X.Fields -> X.Parsed<K>,
                                      p: Roots<X.CertView<K>>, q: Roots<X.CertView<K>>, certs: seq<Bytes>)
    requires forall der :: p.env.parse(der) == X.Parse(width, family, der) && p.env.spki(der) == X.SpkiDer(width, der)
    requires q == p.(anchors := q.anchors) && Within(p.anchors, q.anchors)
    requires Verdict(p, certs).Ok?
    ensures Verdict(q, certs) == Verdict(p, certs)
  {
    forall der | p.env.parse(der).Ok?
      ensures p.env.spki(der).Ok?
    {
      X.LookupsAgree(width, der);
    }
    GrowingLedgerKeeps(p, q, certs);
  }
}
