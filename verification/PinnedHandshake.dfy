/** The handshake with pinned roots over the in-tree certificate parser as its trust strategy. */
module PinnedHandshake {
  import opened Bytes
  import opened Consts
  import opened Wire
  import opened Features
  import opened FlightCheck
  import opened Handshake
  import opened WholeHandshake
  import CH = ClientHello
  import P = PinnedRoots
  import R = Reassembler
  import SF = ServerFlight
  import SH = ServerHello
  import W = Tlv
  import X = TlvCert

  type View = X.CertView<LeafKey>

  /** Authority constraints, read off the extensions behind the key. */
  function CaConstraints(w: W.Width, der: Bytes): (r: X.Parsed<X.CaConstraints>) {
    var tail :- X.ExtensionsSlice(w, der);
    X.WalkCa(w, tail)
  }

  /** These roots read certificates with the in-tree parser. */
  ghost predicate OverTlv(w: W.Width, family: X.Fields -> X.Parsed<LeafKey>, p: P.Roots<View>) {
    forall der :: && p.env.parse(der) == X.Parse(w, family, der) && p.env.spki(der) == X.SpkiDer(w, der)
                  && p.env.caConstraints(der) == CaConstraints(w, der)
  }

  /** The strategy: the roots' verdict decides, and the verifier is prepared from the leaf it returns. */
  function Strategy(p: P.Roots<View>, prepare: View -> Prepared, matches: (Prepared, LeafKey) -> bool, hostname: View -> bool)
    : (id: Identity)
  {
    Identity(chain => match P.Verdict(p, chain) case Err(_) => None case Ok(leaf) => Some(prepare(leaf)),
             der => match p.env.parse(der) case Err(_) => None case Ok(leaf) => Some(leaf.key),
             matches,
             der => match p.env.parse(der) case Err(_) => false case Ok(leaf) => hostname(leaf))
  }

  /** A chain the client may complete a handshake with: a trusted path within both caps, and a leaf of the
      right name whose key can be used and kept. */
  ghost predicate Admitted(p: P.Roots<View>, hostname: View -> bool, maxChain: nat, chain: seq<Bytes>) {
    && 0 < |chain| <= p.cap && |chain| <= maxChain && P.TrustedChain(p, chain)
    && p.env.parse(chain[0]).Ok?
    && var leaf := p.env.parse(chain[0]).value;
       p.env.leafUsable(leaf) && hostname(leaf) && KeyFits(leaf.key)
  }

  lemma LeafAdmitted(c: Config, v: SF.FlightView, p: P.Roots<View>, prepare: View -> Prepared,
                     matches: (Prepared, LeafKey) -> bool, hostname: View -> bool)
    requires c.id == Strategy(p, prepare, matches, hostname)
    ensures LeafOf(c, v).Ok? ==>
              && SF.Chain(v.cert.body, c.maxChain).Ok?
              && var chain := SF.Chain(v.cert.body, c.maxChain).value;
                 && 0 < |chain| && P.Verdict(p, chain).Ok? && p.env.parse(chain[0]).Ok?
                 && hostname(p.env.parse(chain[0]).value)
                 && LeafOf(c, v).value.key == p.env.parse(chain[0]).value.key
  {
    hide SF.Chain, P.Verdict;
  }

  /** Whatever the server did: a handshake that completes had an admitted chain, the certificates of its
      Certificate message in order. */
  lemma CompletedChain(c: Config, hello: Bytes, o: CH.Options, record: Bytes, wire: seq<Bytes>,
                       p: P.Roots<View>, prepare: View -> Prepared, matches: (Prepared, LeafKey) -> bool,
                       hostname: View -> bool)
    returns (entries: seq<SF.Entry>)
    requires c.Valid() && Run(c, hello, o, record, wire).Ok?
    requires c.id == Strategy(p, prepare, matches, hostname)
    ensures var flight := R.FlightBytes(Run(c, hello, o, record, wire).value.buf);
            && flight.Some? && SF.ParseFlight(flight.value).Ok?
            && SF.AllEntriesValid(entries) && |SF.EncodeEntries(entries)| < 0x100_0000
            && exists ctx, after :: |ctx| < 256 && SF.ParseFlight(flight.value).value.cert.body
                                    == Vec8(ctx) + (Vec24(SF.EncodeEntries(entries)) + after)
    ensures Admitted(p, hostname, c.maxChain, SF.Certs(entries))
  {
    hide Run, R.FlightBytes, SF.ParseFlight, P.Verdict, P.TrustedChain, KeyFits, SF.Chain, SF.EncodeEntries, Vec8, Vec24, LeafOf,
         SF.AllEntriesValid;
    CompletedKeyFits(c, hello, o, record, wire);
    var v := SF.ParseFlight(R.FlightBytes(Run(c, hello, o, record, wire).value.buf).value).value;
    LeafAdmitted(c, v, p, prepare, matches, hostname);
    P.AcceptedExactly(p, SF.Chain(v.cert.body, c.maxChain).value);
    var ctx, es, after := SF.ChainCanonical(v.cert.body, c.maxChain);
    entries := es;
  }

  /** With the in-tree parser an SPKI pin is a pin of the very key the parser read. */
  lemma PinOfParsedKey(w: W.Width, family: X.Fields -> X.Parsed<LeafKey>, p: P.Roots<View>, der: Bytes)
    requires OverTlv(w, family, p) && p.env.parse(der).Ok?
    ensures P.Pinned(p, der) == Ok(|| P.Fingerprint(p.env.sha256(der)) in p.anchors
                                   || P.SpkiFingerprint(p.env.sha256(p.env.parse(der).value.fields.spki)) in p.anchors)
  {
    hide X.ParseFields, X.SpkiDer;
    X.LookupsAgree(w, der);
    var pin := P.SpkiFingerprint(p.env.sha256(p.env.parse(der).value.fields.spki));
    if pin in p.anchors {
      var i :| 0 <= i < |p.anchors| && p.anchors[i] == pin;
    }
  }

  /** How a completed handshake's chain was trusted: climbing from the leaf, at the first certificate whose
      octets or parsed key are pinned, or through a stored root above the last. */
  lemma CompletedOverTlv(c: Config, hello: Bytes, o: CH.Options, record: Bytes, wire: seq<Bytes>,
                         w: W.Width, family: X.Fields -> X.Parsed<LeafKey>, p: P.Roots<View>, prepare: View -> Prepared,
                         matches: (Prepared, LeafKey) -> bool, hostname: View -> bool)
    returns (entries: seq<SF.Entry>, k: nat)
    requires c.Valid() && Run(c, hello, o, record, wire).Ok?
    requires c.id == Strategy(p, prepare, matches, hostname) && OverTlv(w, family, p)
    ensures Admitted(p, hostname, c.maxChain, SF.Certs(entries))
    ensures k < |SF.Certs(entries)| && P.EndsAt(p, SF.Certs(entries), k)
    ensures var der := SF.Certs(entries)[k];
            && X.Parse(w, family, der).Ok?
            && (|| P.Fingerprint(p.env.sha256(der)) in p.anchors
                || P.SpkiFingerprint(p.env.sha256(X.Parse(w, family, der).value.fields.spki)) in p.anchors
                || (k == |SF.Certs(entries)| - 1 && exists root :: P.Cert(root) in p.anchors && P.IssuedBy(p, der, root, k)))
  {
    hide Run, P.Verdict, P.Pinned, P.IssuedBy, P.IsNoPin, KeyFits, SF.EncodeEntries, Vec8, Vec24, SF.AllEntriesValid, X.Parse,
         R.FlightBytes, SF.ParseFlight, Strategy;
    entries := CompletedChain(c, hello, o, record, wire, p, prepare, matches, hostname);
    var chain := SF.Certs(entries);
    k :| 0 <= k < |chain| && P.EndsAt(p, chain, k);
    P.InDateParses(p, chain[k]);
    P.PinExactly(p, chain[k]);
    PinOfParsedKey(w, family, p, chain[k]);
  }

  /** An admitted chain is trusted, with its leaf's key and the verifier prepared from it. */
  lemma AdmittedTrusted(c: Config, s: Server, p: P.Roots<View>, prepare: View -> Prepared,
                        matches: (Prepared, LeafKey) -> bool, hostname: View -> bool)
    requires c.id == Strategy(p, prepare, matches, hostname) && (forall leaf :: matches(prepare(leaf), leaf.key))
    requires Admitted(p, hostname, c.maxChain, SF.Certs(s.entries))
    ensures s.entries != [] && p.env.parse(s.entries[0].cert).Ok?
    ensures var leaf := p.env.parse(s.entries[0].cert).value;
            ChainTrusted(c, s, Leaf(leaf.key, prepare(leaf))) && KeyFits(leaf.key)
  {
    hide P.Verdict, P.TrustedChain, KeyFits;
    P.AcceptedExactly(p, SF.Certs(s.entries));
  }

  lemma VerdictAdmits(p: P.Roots<View>, hostname: View -> bool, maxChain: nat, chain: seq<Bytes>)
    requires 0 < |chain| <= maxChain && P.Verdict(p, chain).Ok? && p.env.parse(chain[0]).Ok?
    requires hostname(p.env.parse(chain[0]).value) && KeyFits(p.env.parse(chain[0]).value.key)
    ensures Admitted(p, hostname, maxChain, chain)
  {
    hide P.Verdict, P.TrustedChain, KeyFits;
    P.AcceptedExactly(p, chain);
  }

  lemma ChainOfFlight(c: Config, s: Server)
    requires s.Framed() && SF.Chain(s.Flight().cert.body, c.maxChain).Ok?
    ensures SF.Chain(s.Flight().cert.body, c.maxChain).value == SF.Certs(s.entries)
    ensures |SF.Certs(s.entries)| <= c.maxChain
  {
    hide SF.Chain, Vec8, Vec24, Vec16, EncodeExts, SF.EncodeEntries;
    SF.ChainReads(s.certCtx, s.entries, [], c.maxChain);
    assert Vec24(SF.EncodeEntries(s.entries)) + [] == Vec24(SF.EncodeEntries(s.entries));
  }

  /**
   * An otherwise honest server gets through if and only if its chain is admitted: it is not empty, within
   * both caps, climbs by signatures, dates and authority to a pin or a stored root, and its leaf has the
   * right name and a key the client can use and keep.
   */
  lemma PinnedExactly(c: Config, random: Bytes, pub: Bytes, o: CH.Options, s: Server, st: WaitServerFlight,
                      p: P.Roots<View>, prepare: View -> Prepared, matches: (Prepared, LeafKey) -> bool,
                      hostname: View -> bool)
    requires c.Valid() && AlwaysWorks(c.b) && |random| == 32 && CH.Writable(c.f, pub, o) && Roomy(c)
    requires AnswersHello(c, o, s)
    requires FlightArrives(c, s, Msg(HS_CLIENT_HELLO, CH.HelloBody(c.f, random, pub, o)).Full(), st)
    requires c.id == Strategy(p, prepare, matches, hostname) && (forall leaf :: matches(prepare(leaf), leaf.key))
    requires s.entries != [] && p.env.parse(s.entries[0].cert).Ok? ==>
               Proves(c, s, Msg(HS_CLIENT_HELLO, CH.HelloBody(c.f, random, pub, o)).Full(), st,
                      prepare(p.env.parse(s.entries[0].cert).value))
    ensures Run(c, CH.Serialize(c.f, random, pub, o), o, SH.Serialize(c.f, s.view, s.versionFirst), s.wire).Ok?
       <==> Admitted(p, hostname, c.maxChain, SF.Certs(s.entries))
  {
    hide CH.Serialize, SH.Serialize, CH.HelloBody, AnswerMsg, SF.EncodeMsgs, Run, CH.Suites, SH.ValidView, AlwaysWorks, KeyFits,
         R.FlightBytes, SF.ParseFlight, FlightArrives, Proves, CH.OptionsError, Roomy, ChainTrusted, Admitted, P.TrustedChain,
         P.Verdict, SF.EncodeEntries, Vec8, Vec24, SF.Certs, LeafOf, Strategy;
    var hello := Msg(HS_CLIENT_HELLO, CH.HelloBody(c.f, random, pub, o)).Full();
    var sent, answer := CH.Serialize(c.f, random, pub, o), SH.Serialize(c.f, s.view, s.versionFirst);
    if Admitted(p, hostname, c.maxChain, SF.Certs(s.entries)) {
      AdmittedTrusted(c, s, p, prepare, matches, hostname);
      var leaf := p.env.parse(s.entries[0].cert).value;
      HonestHandshakeCompletes(c, random, pub, o, s, st, Leaf(leaf.key, prepare(leaf)));
    }
    if Run(c, sent, o, answer, s.wire).Ok? {
      RunCollects(c, random, pub, o, s, st);
      FlightParts(c, s, hello, st);
      SF.ParseUndoesFlight(s.Flight());
      CompletedKeyFits(c, sent, o, answer, s.wire);
      LeafAdmitted(c, s.Flight(), p, prepare, matches, hostname);
      ChainOfFlight(c, s);
      VerdictAdmits(p, hostname, c.maxChain, SF.Certs(s.entries));
    }
  }
}
