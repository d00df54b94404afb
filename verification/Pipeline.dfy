// cmd/phisherslapper/main.go: from two names to a scored pair.
module Pipeline {
  import opened Text
  import opened SpfRecord
  import opened Spf
  import opened SpfEvaluation
  import opened SpfTheorems
  import opened SpfDepartures
  import opened Certs
  import opened Resolvers
  import opened Voting
  import opened Probes
  import opened Scoring
  import Domains
  import Hosts

  // Everything the program asks of the outside world, with fixed answers.
  datatype Network = Network(
    ask: (Server, string) -> Replies,          // the system resolver and the pinned ones
    hostsFile: Option<string>,                 // None when it cannot be read
    leaf: string -> Option<Details>,           // the certificate served for a domain
    leafAt: (Addr, string) -> Option<Details>, // the one served at an address
    asn: Addr -> Option<string>,
    registrar: string -> string,
    age: string -> Option<int>,
    dmarc: string -> Option<string>,
    spf: Env,
    address: Addr -> IPv4)                     // only A records are looked up

  // The pre-flight probe of a domain.
  function Preflighted(net: Network, domain: string): DomainCheck {
    FullCheck(net.ask, net.hostsFile, domain)
  }

  function First(addrs: seq<Addr>): Option<Addr> {
    if addrs == [] then None else Some(addrs[0])
  }

  function OrUnknown(v: string): string {
    if v == "" then "Unknown" else v
  }

  // The two certificates to compare: one dial serves for both sides when
  // the paths end at the same address.
  method ProbePaths(net: Network, domain: string, sys: Addr, pub: Addr)
    returns (sysCert: Option<Details>, pubCert: Option<Details>)
    ensures sysCert == net.leafAt(sys, domain) && pubCert == net.leafAt(pub, domain)
  {
    if sys == pub {
      var c := net.leafAt(sys, domain);
      return c, c;
    }
    sysCert := net.leafAt(sys, domain);
    pubCert := net.leafAt(pub, domain);
  }

  // What the two resolution paths of a domain show.
  ghost predicate PathsShown(net: Network, dc: DomainCheck, info: DomainData) {
    if dc.systemAddrs == [] || dc.publicAddrs == [] then
      !info.pathChecked && !info.pathComplete && !info.pathMatch && !info.asnChecked && !info.asnMatch
    else
      var sys, pub := dc.systemAddrs[0], dc.publicAddrs[0];
      var a, b := net.leafAt(sys, info.domain), net.leafAt(pub, info.domain);
      var m, n := net.asn(sys), net.asn(pub);
      && info.pathChecked
      && info.pathComplete == Complete(a, b) && info.pathMatch == Match(a, b)
      && info.asnChecked == (m.Some? && n.Some?)
      && info.asnMatch == (m.Some? && m == n)
  }

  // A field shows what was found, or that nothing was.
  predicate Shows(field: string, v: string) {
    field == if v != "" then v else "Unknown"
  }

  // What fetching a domain with the check dc finds out about it. The fields
  // of the sender-authority stage are filled in later.
  ghost predicate FetchedWith(net: Network, dc: DomainCheck, info: DomainData) {
    var d := info.domain;
    && info.dnsTampered == dc.tampered && info.dnsSplit == dc.kind && info.dnsDetail == dc.detail
    && info.hostsHit == dc.hostsHit
    && PathsShown(net, dc, info)
    && Shows(info.sans, SansString(if Served(net, d) then net.leaf(d) else None))
    && Shows(info.issuer, if Served(net, d) then net.leaf(d).value.issuer else "")
    && Shows(info.class_, if Served(net, d) then net.leaf(d).value.class_ else "")
    && Shows(info.registrar, net.registrar(d))
    && info.ageKnown == net.age(d).Some? && (info.ageKnown ==> info.ageDays == net.age(d).value)
  }

  ghost predicate Fetched(net: Network, info: DomainData) {
    FetchedWith(net, Preflighted(net, info.domain), info)
  }

  method FetchDomain(net: Network, domain: string, dc: DomainCheck) returns (info: DomainData)
    ensures info.domain == domain && FetchedWith(net, dc, info)
    ensures !info.spfChecked && !info.spfAuthorized && info.dmarcPolicy == ""
  {
    var sys, pub := First(dc.systemAddrs), First(dc.publicAddrs);
    var pathChecked, pathComplete, pathMatch, asnChecked, asnMatch := false, false, false, false, false;
    if sys.Some? && pub.Some? {
      var sysCert, pubCert := ProbePaths(net, domain, sys.value, pub.value);
      var sysASN, pubASN := net.asn(sys.value), net.asn(pub.value);
      pathChecked := true;
      var diffs;
      pathMatch, pathComplete, diffs := ComparePaths(sysCert, pubCert);
      asnChecked := sysASN.Some? && pubASN.Some?;
      asnMatch := sysASN.Some? && pubASN.Some? && sysASN.value == pubASN.value;
    }
    var issuer, class_, sans := "Unknown", "Unknown", "Unknown";
    var cd := net.leaf(domain);
    if cd.Some? && cd.value.hasCert {
      issuer, class_, sans := cd.value.issuer, cd.value.class_, SansString(cd);
    }
    var age := net.age(domain);
    info := DomainData(
      domain, OrUnknown(net.registrar(domain)), OrUnknown(issuer), OrUnknown(class_), OrUnknown(sans),
      if age.Some? then age.value else 0, age.Some?,
      dc.tampered, dc.kind, dc.detail,
      pathChecked, pathComplete, pathMatch, asnChecked, asnMatch, dc.hostsHit,
      false, false, "");
  }

  predicate Served(net: Network, domain: string) {
    net.leaf(domain).Some? && net.leaf(domain).value.hasCert
  }

  // A domain whose two paths end at the same address shows neither a
  // redirection nor a change of network.
  lemma SameEndpointNeverDiverges(net: Network, dc: DomainCheck, info: DomainData)
    requires FetchedWith(net, dc, info)
    requires dc.systemAddrs != [] && dc.publicAddrs != [] && dc.systemAddrs[0] == dc.publicAddrs[0]
    ensures !Redirected(info) && !AsnSplit(info)
    ensures forall t :: !EvidenceOf(t, info).redirected && !EvidenceOf(t, info).asnSplit
  {
    ComparisonReflexive(net.leafAt(dc.systemAddrs[0], info.domain));
  }

  // Coverage is read off the displayed list, but is that of the certificate.
  lemma CoverageIsOfCertificate(net: Network, dc: DomainCheck, info: DomainData, name: string)
    requires FetchedWith(net, dc, info)
    requires Served(net, info.domain) ==> forall san :: san in net.leaf(info.domain).value.sans ==> ',' !in san
    ensures FieldCovers(info.sans, name) <==>
            Served(net, info.domain) && ListCovers(net.leaf(info.domain).value.sans, name)
  {
    var shown := if Served(net, info.domain) then net.leaf(info.domain) else None;
    DisplayedCoverage(shown, name);
    if SansString(shown) == "" {
      UnknownCoversNothing(name);
      NothingCoversNothing(name);
    }
  }

  lemma NothingCoversNothing(name: string)
    ensures !FieldCovers("", name)
  {
    SplitWhole("", ',');
    assert TrimSpace("") == "" && ToLower("") == "";
  }

  datatype Ending =
    | BadSyntax(role: Role)
    | Suppressed(role: Role)
    | Dark(role: Role)
    | BadData
    | Scored(target: DomainData, suspect: DomainData, score: int, verdict: Verdict, relationship: Relationship)

  predicate TlsKnown(d: DomainData) {
    Known(d.issuer) || Known(d.class_)
  }

  // The suspect's address: the public one if there is one.
  function SuspectAddress(net: Network, dc: DomainCheck): Option<IPv4> {
    match (First(dc.publicAddrs), First(dc.systemAddrs))
    case (Some(a), _) => Some(net.address(a))
    case (None, Some(a)) => Some(net.address(a))
    case _ => None
  }

  // A chain of at most ten includes and redirects leads from the target to
  // a record that passes the suspect.
  ghost predicate EndorsedByChain(net: Network, target: string, suspect: IP) {
    exists path :: Chain(net.spf.(suspect := suspect), path) && path[0] == target && |path| - 1 <= 10
  }

  // The target's policy settles the matter of this address within the limit,
  // and by authorizing it.
  ghost predicate Settled(net: Network, target: string, suspect: IP) {
    exists r :: Settles(net.spf.(suspect := suspect), target, r)
  }

  ghost predicate Endorsed(net: Network, target: string, suspect: IP) {
    exists r :: Settles(net.spf.(suspect := suspect), target, r) && r.authorized
  }

  // The suspect is checked, and endorsed, exactly when its own address is.
  ghost predicate AuthorityShown(net: Network, target: string, dc: DomainCheck, info: DomainData) {
    var ip := SuspectAddress(net, dc);
    && (info.spfChecked <==> ip.Some? && Settled(net, target, ip.value))
    && (info.spfAuthorized <==> ip.Some? && Endorsed(net, target, ip.value))
    && (info.spfAuthorized ==> EndorsedByChain(net, target, ip.value))
  }

  lemma EndorsementIsChain(net: Network, target: string, suspect: IP, r: SPFResult)
    requires Settles(net.spf.(suspect := suspect), target, r) && r.authorized
    ensures EndorsedByChain(net, target, suspect)
  {
    var env := net.spf.(suspect := suspect);
    var t :| Yields(env, target, Some(r), t) && |t| <= 11;
    var path := AuthorizedByChain(env, target, r, t);
  }

  method Endorse(net: Network, target: string, dc: DomainCheck, info: DomainData) returns (endorsed: DomainData)
    requires !info.spfChecked && !info.spfAuthorized
    ensures endorsed == info.(spfChecked := endorsed.spfChecked, spfAuthorized := endorsed.spfAuthorized)
    ensures AuthorityShown(net, target, dc, endorsed)
  {
    var ip := SuspectAddress(net, dc);
    var r, ok, log := CheckSPFAuthority(net.spf, target, ip);
    if !ok {
      return info;
    }
    endorsed := info.(spfChecked := true, spfAuthorized := r.authorized);
    assert Settles(net.spf.(suspect := ip.value), target, r);
    if r.authorized {
      EndorsementIsChain(net, target, ip.value, r);
    }
  }

  // The system resolver finds the domain.
  predicate FoundBySystem(net: Network, domain: string) {
    Finds(net.ask, SystemServer, domain)
  }

  // The pre-flight probe of one domain, and the gate behind it: it lets
  // pass what the system resolver finds.
  method Preflight(net: Network, domain: string, role: Role) returns (dc: DomainCheck, stop: Option<Ending>)
    ensures dc == Preflighted(net, domain)
    ensures stop == None <==> FoundBySystem(net, domain)
    ensures stop == Some(Suppressed(role)) <==> !FoundBySystem(net, domain) && FoundInPublic(net.ask, domain)
    ensures stop == Some(Dark(role)) <==> !FoundBySystem(net, domain) && !FoundInPublic(net.ask, domain)
  {
    dc := CheckDomain(net.ask, net.hostsFile, domain);
    SystemSide(net.ask, net.hostsFile, domain);
    PublicSide(net.ask, net.hostsFile, domain);
    if !dc.systemLive && dc.publicLive {
      return dc, Some(Suppressed(role));
    }
    if !dc.systemLive {
      return dc, Some(Dark(role));
    }
    return dc, None;
  }

  // Past the gate the split is none, a horizon or one of name servers, and
  // only the last counts as tampering.
  lemma GateLeaves(net: Network, info: DomainData)
    requires FoundBySystem(net, info.domain) && Fetched(net, info)
    ensures info.dnsSplit == KindOf(Answers(Table(net.ask, info.domain)))
    ensures info.dnsSplit != SplitSuppression && (info.dnsTampered <==> info.dnsSplit == SplitNS)
  {
    OneIsSystem(net.ask, info.domain);
    SystemSide(net.ask, net.hostsFile, info.domain);
    PastTheGate(info.domain, Answers(Table(net.ask, info.domain)));
  }

  method Judge(t: DomainData, s: DomainData) returns (e: Ending)
    ensures e == if t.ageKnown && s.ageKnown && TlsKnown(t) && TlsKnown(s)
                 then Scored(t, s, ScoreOf(t, s), FinalVerdict(t, s), Classify(t, s)) else BadData
  {
    if !t.ageKnown || !s.ageKnown {
      return BadData;
    }
    if (t.issuer == "" || t.issuer == "Unknown") && (t.class_ == "" || t.class_ == "Unknown") {
      return BadData;
    }
    if (s.issuer == "" || s.issuer == "Unknown") && (s.class_ == "" || s.class_ == "Unknown") {
      return BadData;
    }
    var r := Score(t, s);
    return Scored(t, s, r.score, r.verdict, r.relationship);
  }

  // ----- whole runs -----

  // What is needed of a domain to score it: an age, and a certificate with
  // an issuer or a class.
  predicate DataKnown(net: Network, domain: string) {
    && net.age(domain).Some? && Served(net, domain)
    && (Known(net.leaf(domain).value.issuer) || Known(net.leaf(domain).value.class_))
  }

  lemma FetchedKnows(net: Network, info: DomainData)
    requires Fetched(net, info)
    ensures info.ageKnown && TlsKnown(info) <==> DataKnown(net, info.domain)
  {
  }

  // Two names are accepted, found by the system resolver, scorable.
  ghost predicate Accepted(legit: string, suspect: string) {
    Domains.ValidSyntax(legit) && Domains.ValidSyntax(suspect)
  }

  ghost predicate BothFound(net: Network, legit: string, suspect: string) {
    Accepted(legit, suspect) && FoundBySystem(net, legit) && FoundBySystem(net, suspect)
  }

  ghost predicate Scorable(net: Network, legit: string, suspect: string) {
    BothFound(net, legit, suspect) && DataKnown(net, legit) && DataKnown(net, suspect)
  }

  // The name a run stops at for want of the system resolver's answer.
  ghost predicate StoppedAt(net: Network, legit: string, suspect: string, role: Role) {
    && Accepted(legit, suspect)
    && !FoundBySystem(net, Named(legit, suspect, role))
    && (role == Suspect ==> FoundBySystem(net, legit))
  }

  function Named(legit: string, suspect: string, role: Role): string {
    match role case Target => legit case Suspect => suspect
  }

  // A score is that of the two domains as fetched, and of the sender
  // authority of the target over the suspect's own address.
  ghost predicate Vouched(net: Network, legit: string, suspect: string, e: Ending)
    requires e.Scored?
  {
    var t, s := e.target, e.suspect;
    && t.domain == legit && Fetched(net, t) && TargetShown(net, t)
    && s.domain == suspect && Fetched(net, s) && s.dmarcPolicy == ""
    && AuthorityShown(net, legit, Preflighted(net, suspect), s)
    && e == Scored(t, s, ScoreOf(t, s), FinalVerdict(t, s), Classify(t, s))
  }

  predicate TargetShown(net: Network, t: DomainData) {
    !t.spfChecked && !t.spfAuthorized && t.dmarcPolicy == match net.dmarc(t.domain) case None => "" case Some(p) => p
  }

  // Why a run ends without a score.
  ghost predicate Refused(net: Network, legit: string, suspect: string, e: Ending) {
    match e
    case BadSyntax(role) =>
      !Domains.ValidSyntax(Named(legit, suspect, role)) && (role == Suspect ==> Domains.ValidSyntax(legit))
    case Suppressed(role) =>
      StoppedAt(net, legit, suspect, role) && FoundInPublic(net.ask, Named(legit, suspect, role))
    case Dark(role) =>
      StoppedAt(net, legit, suspect, role) && !FoundInPublic(net.ask, Named(legit, suspect, role))
    case BadData => BothFound(net, legit, suspect) && !Scorable(net, legit, suspect)
    case _ => false
  }

  // How a run over two normal forms ends.
  ghost predicate Ends(net: Network, legit: string, suspect: string, e: Ending) {
    if e.Scored? then Scorable(net, legit, suspect) && Vouched(net, legit, suspect, e)
    else Refused(net, legit, suspect, e)
  }

  // The fetch stage and the sender-authority stage, for each side.
  method ExamineTarget(net: Network, legit: string, dc: DomainCheck) returns (t: DomainData)
    requires dc == Preflighted(net, legit)
    ensures t.domain == legit && Fetched(net, t) && TargetShown(net, t)
  {
    t := FetchDomain(net, legit, dc);
    var policy := net.dmarc(legit);
    if policy.Some? {
      t := t.(dmarcPolicy := policy.value);
    }
  }

  method ExamineSuspect(net: Network, legit: string, suspect: string, dc: DomainCheck) returns (s: DomainData)
    requires dc == Preflighted(net, suspect)
    ensures s.domain == suspect && Fetched(net, s) && s.dmarcPolicy == ""
    ensures AuthorityShown(net, legit, Preflighted(net, suspect), s)
  {
    s := FetchDomain(net, suspect, dc);
    s := Endorse(net, legit, dc, s);
  }

  // The stages behind the gate.
  method Examine(net: Network, legit: string, suspect: string, legitCheck: DomainCheck, suspectCheck: DomainCheck)
    returns (e: Ending)
    requires legitCheck == Preflighted(net, legit) && suspectCheck == Preflighted(net, suspect)
    ensures if DataKnown(net, legit) && DataKnown(net, suspect)
            then e.Scored? && Vouched(net, legit, suspect, e) else e == BadData
  {
    var t := ExamineTarget(net, legit, legitCheck);
    var s := ExamineSuspect(net, legit, suspect, suspectCheck);
    FetchedKnows(net, t);
    FetchedKnows(net, s);
    e := Judge(t, s);
  }

  // run, from the two arguments to the result that is reported.
  method Run(net: Network, first: string, second: string) returns (e: Ending)
    ensures Ends(net, Domains.Normalize(first), Domains.Normalize(second), e)
    ensures e.Scored? <==> Scorable(net, Domains.Normalize(first), Domains.Normalize(second))
  {
    var legit := Domains.NormalizeDomain(first);
    var suspect := Domains.NormalizeDomain(second);
    e := RunOn(net, legit, suspect);
  }

  method RunOn(net: Network, legit: string, suspect: string) returns (e: Ending)
    ensures Ends(net, legit, suspect, e)
    ensures e.Scored? <==> Scorable(net, legit, suspect)
  {
    Domains.PatternIsDomain(legit);
    Domains.PatternIsDomain(suspect);
    if !Domains.IsDomain(legit) {
      return BadSyntax(Target);
    }
    if !Domains.IsDomain(suspect) {
      return BadSyntax(Suspect);
    }
    var legitCheck, legitStop := Preflight(net, legit, Target);
    var suspectCheck, suspectStop := Preflight(net, suspect, Suspect);
    if legitStop.Some? {
      return legitStop.value;
    }
    if suspectStop.Some? {
      return suspectStop.value;
    }
    e := Examine(net, legit, suspect, legitCheck, suspectCheck);
  }

  lemma PathsOnce(net: Network, dc: DomainCheck, a: DomainData, b: DomainData)
    requires PathsShown(net, dc, a) && PathsShown(net, dc, b) && a.domain == b.domain
    ensures a.pathChecked == b.pathChecked && a.pathComplete == b.pathComplete && a.pathMatch == b.pathMatch
    ensures a.asnChecked == b.asnChecked && a.asnMatch == b.asnMatch
  {
  }

  lemma FetchedOnce(net: Network, a: DomainData, b: DomainData)
    requires Fetched(net, a) && Fetched(net, b) && a.domain == b.domain && a.ageKnown
    ensures b == a.(spfChecked := b.spfChecked, spfAuthorized := b.spfAuthorized, dmarcPolicy := b.dmarcPolicy)
  {
    PathsOnce(net, Preflighted(net, a.domain), a, b);
  }

  lemma VouchedOnce(net: Network, legit: string, suspect: string, e: Ending, e': Ending)
    requires e.Scored? && e'.Scored? && DataKnown(net, legit) && DataKnown(net, suspect)
    requires Vouched(net, legit, suspect, e) && Vouched(net, legit, suspect, e')
    ensures e == e'
  {
    FetchedOnce(net, e.target, e'.target);
    FetchedOnce(net, e.suspect, e'.suspect);
    assert e.target == e'.target;
    assert e.suspect == e'.suspect;
  }

  lemma RefusedOnce(net: Network, legit: string, suspect: string, e: Ending, e': Ending)
    requires Refused(net, legit, suspect, e)
    ensures !Scorable(net, legit, suspect)
    ensures Refused(net, legit, suspect, e') ==> e == e'
  {
  }

  // The names and the network leave a run only one ending.
  lemma OneEnding(net: Network, legit: string, suspect: string, e: Ending, e': Ending)
    requires Ends(net, legit, suspect, e) && Ends(net, legit, suspect, e')
    ensures e == e'
  {
    if !e.Scored? {
      RefusedOnce(net, legit, suspect, e, e');
    } else if !e'.Scored? {
      RefusedOnce(net, legit, suspect, e', e);
    } else {
      VouchedOnce(net, legit, suspect, e, e');
    }
  }

  // The suspect of a run has an IPv4 address, so whatever the target's policy
  // names, an a or mx term matches only by an equality of whole addresses.
  lemma RunComparesWholeAddresses(net: Network, suspect: string, domain: string, m: Mechanism)
    requires SuspectAddress(net, Preflighted(net, suspect)).Some?
    ensures var env := net.spf.(suspect := SuspectAddress(net, Preflighted(net, suspect)).value);
            var host := AddrHost(env, domain, m.value);
            && (m.kind == A ==> (Direct(env, domain, m).0 == Some(true) <==> HostIsSuspect(env, m.value, host)))
            && (m.kind == Mx ==> (Direct(env, domain, m).0 == Some(true) <==>
                  env.mx(host).Some? && exists h :: h in env.mx(host).value && HostIsSuspect(env, m.value, h)))
  {
    var env := net.spf.(suspect := SuspectAddress(net, Preflighted(net, suspect)).value);
    PlainPartIsNoNet(env, m.value);
    if m.kind == A {
      AMatchIsExact(env, domain, m);
    } else if m.kind == Mx {
      MxMatchIsExact(env, domain, m);
    }
  }

  // The address the target's policy is asked about is the first one of the
  // first pinned resolver that finds the suspect, else the system's first.
  lemma SuspectAddressIs(net: Network, suspect: string)
    ensures var pub, sys := Public(net.ask, suspect), net.ask(SystemServer, suspect);
            SuspectAddress(net, Preflighted(net, suspect)) ==
            if HasAddress(pub[0]) then Some(net.address(pub[0].ip.addrs[0]))
            else if HasAddress(pub[1]) then Some(net.address(pub[1].ip.addrs[0]))
            else if HasAddress(sys) then Some(net.address(sys.ip.addrs[0]))
            else None
  {
    PublicSide(net.ask, net.hostsFile, suspect);
    SystemSide(net.ask, net.hostsFile, suspect);
  }

  // A suspect that is seen alike on every path: the endpoints coincide, the
  // hosts file has no mapping, and no two resolvers are in conflict.
  ghost predicate SeenAlike(net: Network, suspect: string) {
    var dc := Preflighted(net, suspect);
    && dc.systemAddrs != [] && dc.publicAddrs != [] && dc.systemAddrs[0] == dc.publicAddrs[0]
    && Hosts.Override(net.hostsFile, suspect) == None
    && !InConflict(Answers(Table(net.ask, suspect)))
  }

  lemma NothingSeen(net: Network, t: DomainData, s: DomainData)
    requires Fetched(net, s) && SeenAlike(net, s.domain)
    ensures var e := EvidenceOf(t, s); !e.tampered && !e.hijacked && !e.redirected && !e.asnSplit
  {
    SameEndpointNeverDiverges(net, Preflighted(net, s.domain), s);
    OneIsSystem(net.ask, s.domain);
    SplitIsConflict(Answers(Table(net.ask, s.domain)));
  }

  lemma IdentityPoints(e: Evidence)
    requires e.tier == 0 || e.tier == 40 || e.tier == 80
    requires !e.tampered && !e.hijacked && !e.redirected && !e.asnSplit
    ensures Points(e) == AgeShare(e) + (if e.downgrade then 40 else 0) + (if e.mismatch then 30 else 0) <= 150
  {
  }

  // Only its identity counts against such a suspect: its age, a registrar
  // mismatch and a downgrade.
  lemma SeenAlikeScoresIdentity(net: Network, legit: string, suspect: string, e: Ending)
    requires e.Scored? && Vouched(net, legit, suspect, e)
    requires SeenAlike(net, suspect) && !SameName(e.target, e.suspect)
    ensures e.score == AgeShare(EvidenceOf(e.target, e.suspect))
                       + (if IsDowngrade(e.target, e.suspect) then 40 else 0)
                       + (if IsMismatch(e.target, e.suspect) then 30 else 0) <= 150
  {
    NothingSeen(net, e.target, e.suspect);
    IdentityPoints(EvidenceOf(e.target, e.suspect));
  }

  // An argument compared with any decoration of the same host is never
  // reported as anything but identical.
  lemma SameHostIsIdentical(net: Network, first: string, second: string, host: string, e: Ending)
    requires Domains.IsDomain(host) && Domains.Decorated(first, host) && Domains.Decorated(second, host)
    requires e.Scored? && Ends(net, Domains.Normalize(first), Domains.Normalize(second), e)
    ensures e.score == 0 && e.verdict == Legitimate && e.relationship == Identical
  {
    Domains.NormalFormExact(first, host);
    Domains.NormalFormExact(second, host);
  }
}
