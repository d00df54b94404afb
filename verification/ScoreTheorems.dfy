// What holds of every score.
module ScoreTheorems {
  import opened Text
  import opened Certs
  import opened Resolvers
  import opened EditDistance
  import opened Confusables
  import opened Lookalike
  import opened Scoring

  // ----- a score is the sum of its findings -----

  function Sum(findings: seq<Finding>): nat {
    if findings == [] then 0 else Sum(findings[..|findings| - 1]) + findings[|findings| - 1].points
  }

  lemma {:induction false} SumConcat(a: seq<Finding>, b: seq<Finding>)
    ensures Sum(a + b) == Sum(a) + Sum(b)
  {
    if b == [] {
      assert a + b == a;
    } else {
      SumConcat(a, b[..|b| - 1]);
      assert (a + b)[..|a + b| - 1] == a + b[..|b| - 1];
    }
  }

  lemma SumWhen(prior: seq<Finding>, condition: bool, tag: Tag, points: nat)
    ensures Sum(prior + When(condition, tag, points)) == Sum(prior) + if condition then points else 0
  {
    SumConcat(prior, When(condition, tag, points));
    var f := Finding(tag, points);
    assert [f][..0] == [];
  }

  lemma SumNoteDns(prior: seq<Finding>, d: DomainData, role: Role)
    ensures Sum(prior + NoteDns(d, role)) == Sum(prior)
  {
    SumWhen(prior, d.dnsDetail != "" && d.dnsTampered, TamperNote(role), 0);
    SumWhen(prior, d.dnsDetail != "" && !d.dnsTampered && d.dnsSplit == SplitHorizon, HorizonNote(role), 0);
  }

  lemma SumNotePaths(prior: seq<Finding>, d: DomainData, role: Role)
    ensures Sum(NotePaths(prior, d, role)) == Sum(prior)
  {
    var h := prior + When(d.hostsHit, HostsNote(role), 0);
    var p := h + When(Redirected(d), PathNote(role), 0);
    SumWhen(prior, d.hostsHit, HostsNote(role), 0);
    SumWhen(h, Redirected(d), PathNote(role), 0);
    SumWhen(p, AsnSplit(d), AsnNote(role), 0);
  }

  lemma SumIdentity(e: Evidence)
    requires e.tier == 0 ==> AgeShare(e) == 0
    ensures Sum(IdentityFindings(e)) ==
            AgeShare(e) + (if e.downgrade then 40 else 0) + if e.mismatch then 30 else 0
  {
    var f: seq<Finding> := [];
    SumWhen(f, e.tier > 0, Age, AgeShare(e));
    assert f + When(e.tier > 0, Age, AgeShare(e)) == When(e.tier > 0, Age, AgeShare(e));
    f := When(e.tier > 0, Age, AgeShare(e));
    SumWhen(f, e.chronology, Chronology, 0);
    f := f + When(e.chronology, Chronology, 0);
    SumWhen(f, e.downgrade, Downgrade, 40);
    f := f + When(e.downgrade, Downgrade, 40);
    SumWhen(f, !e.downgrade && e.issuersDiffer, IssuerNote, 0);
    f := f + When(!e.downgrade && e.issuersDiffer, IssuerNote, 0);
    SumWhen(f, e.mismatch, RegistrarMismatch, 30);
    f := f + When(e.mismatch, RegistrarMismatch, 30);
    SumWhen(f, !e.mismatch && e.registrarsKnown, SharedRegistrar, 0);
    f := f + When(!e.mismatch && e.registrarsKnown, SharedRegistrar, 0);
    SumWhen(f, e.dmarc, Dmarc, 0);
  }

  lemma SumPaths(prior: seq<Finding>, e: Evidence, t: DomainData)
    ensures Sum(PathFindings(prior, e, t)) ==
            Sum(prior) + (if e.tampered then 50 else 0) + (if e.hijacked then 50 else 0)
            + (if e.redirected then 50 else 0) + if e.asnSplit then 30 else 0
  {
    var f := prior;
    SumWhen(f, e.tampered, Tampering, 50);
    f := f + When(e.tampered, Tampering, 50);
    SumWhen(f, e.horizon, HorizonNote(Suspect), 0);
    f := f + When(e.horizon, HorizonNote(Suspect), 0);
    SumNoteDns(f, t, Target);
    f := f + NoteDns(t, Target);
    SumWhen(f, e.hijacked, Hijack, 50);
    f := f + When(e.hijacked, Hijack, 50);
    SumWhen(f, e.redirected, Redirection, 50);
    f := f + When(e.redirected, Redirection, 50);
    SumWhen(f, e.inconclusive, PathInconclusive, 0);
    f := f + When(e.inconclusive, PathInconclusive, 0);
    SumWhen(f, e.asnSplit, AsnMismatch, 30);
    f := f + When(e.asnSplit, AsnMismatch, 30);
    SumNotePaths(f, t, Target);
  }

  lemma SumClosing(prior: seq<Finding>, v: Verdict)
    ensures Sum(ClosingFindings(prior, v)) == Sum(prior)
  {
    SumWhen(prior, v == UnrelatedPair, NoAuthority, 0);
    SumWhen(prior + When(v == UnrelatedPair, NoAuthority, 0), v == MaliciousOrNegligent, Explanation, 0);
  }

  lemma SumSameDomain(t: DomainData, s: DomainData)
    ensures Sum(SameDomainFindings(t, s)) == 0
  {
    var f := [Finding(SameDomain, 0)];
    assert f[..0] == [] && Sum(f) == 0;
    SumNoteDns(f, t, Target);
    f := f + NoteDns(t, Target);
    SumNoteDns(f, s, Suspect);
    assert f + [] == f;
    f := f + if s.dnsDetail != t.dnsDetail then NoteDns(s, Suspect) else [];
    SumNotePaths(f, t, Target);
  }

  // The points of the findings add up to the score.
  lemma ScoreIsSumOfFindings(t: DomainData, s: DomainData)
    ensures Sum(FindingsOf(t, s)) == ScoreOf(t, s)
  {
    if SameName(t, s) {
      SumSameDomain(t, s);
    } else {
      var e, v := EvidenceOf(t, s), FinalVerdict(t, s);
      var f := IdentityFindings(e);
      SumIdentity(e);
      SumPaths(f, e, t);
      SumClosing(PathFindings(f, e, t), v);
    }
  }

  // ----- and each finding with points has its reason -----

  lemma InWhen(f: Finding, prior: seq<Finding>, condition: bool, tag: Tag, points: nat)
    ensures f in prior + When(condition, tag, points) <==> f in prior || (condition && f == Finding(tag, points))
  {
  }

  // The points of a tag that is due, None when it is not: what of the two
  // sides' data calls for which finding.
  function Due(t: DomainData, s: DomainData, tag: Tag): Option<nat> {
    if t.domain != "" && ToLower(t.domain) == ToLower(s.domain) then DueToSame(t, s, tag)
    else if DueToPair(t, s, FinalVerdict(t, s), tag) then Some(PointsOf(t, s, tag))
    else None
  }

  predicate Downgraded(t: DomainData, s: DomainData) {
    t.class_ in {"EV", "OV"} && s.class_ == "DV"
  }

  predicate RegistrarsDiffer(t: DomainData, s: DomainData) {
    && t.registrar !in {"", "Unknown"} && s.registrar !in {"", "Unknown"}
    && ToLower(t.registrar) != ToLower(s.registrar)
  }

  predicate Divergent(d: DomainData) {
    d.pathComplete && !d.pathMatch
  }

  predicate Elsewhere(d: DomainData) {
    d.asnChecked && !d.asnMatch
  }

  predicate NoteOn(t: DomainData, tag: Tag) {
    match tag
    case TamperNote(Target) => t.dnsDetail != "" && t.dnsTampered
    case HorizonNote(Target) => t.dnsDetail != "" && !t.dnsTampered && t.dnsSplit == SplitHorizon
    case HostsNote(Target) => t.hostsHit
    case PathNote(Target) => Divergent(t)
    case AsnNote(Target) => Elsewhere(t)
    case _ => false
  }

  function DueToSame(t: DomainData, s: DomainData, tag: Tag): Option<nat> {
    var seen :=
      match tag
      case SameDomain => true
      case TamperNote(Suspect) => s.dnsDetail != t.dnsDetail && s.dnsDetail != "" && s.dnsTampered
      case HorizonNote(Suspect) =>
        s.dnsDetail != t.dnsDetail && s.dnsDetail != "" && !s.dnsTampered && s.dnsSplit == SplitHorizon
      case _ => NoteOn(t, tag);
    if seen then Some(0) else None
  }

  predicate DueToPair(t: DomainData, s: DomainData, v: Verdict, tag: Tag) {
    match tag
    case Age => s.ageKnown && s.ageDays < 90
    case Chronology => t.ageKnown && s.ageKnown && t.ageDays < 90 && s.ageDays >= 365
    case Downgrade => Downgraded(t, s)
    case IssuerNote =>
      !Downgraded(t, s) && t.issuer != s.issuer && t.issuer !in {"", "Unknown"} && s.issuer !in {"", "Unknown"}
    case RegistrarMismatch => RegistrarsDiffer(t, s)
    case SharedRegistrar =>
      && t.registrar !in {"", "Unknown"} && s.registrar !in {"", "Unknown"}
      && ToLower(t.registrar) == ToLower(s.registrar)
    case Dmarc => t.dmarcPolicy != ""
    case Tampering => s.dnsTampered
    case HorizonNote(Suspect) => s.dnsSplit == SplitHorizon
    case Hijack => s.hostsHit
    case Redirection => Divergent(s)
    case PathInconclusive => s.pathChecked && !s.pathComplete
    case AsnMismatch => Elsewhere(s)
    case NoAuthority => v == UnrelatedPair
    case Explanation => v == MaliciousOrNegligent
    case _ => NoteOn(t, tag)
  }

  // The published scale.
  function PointsOf(t: DomainData, s: DomainData, tag: Tag): nat {
    match tag
    case Age =>
      var full := if s.ageDays < 30 then 80 else 40;
      var tier := if Downgraded(t, s) || RegistrarsDiffer(t, s) then full else full / 2;
      var endorsed := FieldCovers(s.sans, t.domain) || FieldCovers(t.sans, s.domain) || (s.spfChecked && s.spfAuthorized);
      if endorsed then tier / 2 else tier
    case Downgrade => 40
    case RegistrarMismatch => 30
    case Tampering => 50
    case Hijack => 50
    case Redirection => 50
    case AsnMismatch => 30
    case _ => 0
  }

  lemma InNoteDns(f: Finding, d: DomainData, role: Role)
    ensures f in NoteDns(d, role) <==>
            f.points == 0 && d.dnsDetail != ""
            && ((f.tag == TamperNote(role) && d.dnsTampered)
                || (f.tag == HorizonNote(role) && !d.dnsTampered && d.dnsSplit == SplitHorizon))
  {
  }

  lemma AllInNotePaths(f: Finding, prior: seq<Finding>, d: DomainData, role: Role)
    ensures f in NotePaths(prior, d, role) <==>
            f in prior
            || (f.points == 0 && ((f.tag == HostsNote(role) && d.hostsHit)
                                  || (f.tag == PathNote(role) && Divergent(d))
                                  || (f.tag == AsnNote(role) && Elsewhere(d))))
  {
  }

  lemma AllInIdentity(f: Finding, e: Evidence)
    ensures f in IdentityFindings(e) <==>
            match f.tag
            case Age => e.tier > 0 && f.points == AgeShare(e)
            case Chronology => e.chronology && f.points == 0
            case Downgrade => e.downgrade && f.points == 40
            case IssuerNote => !e.downgrade && e.issuersDiffer && f.points == 0
            case RegistrarMismatch => e.mismatch && f.points == 30
            case SharedRegistrar => !e.mismatch && e.registrarsKnown && f.points == 0
            case Dmarc => e.dmarc && f.points == 0
            case _ => false
  {
  }

  lemma AllInSuspectPaths(f: Finding, prior: seq<Finding>, e: Evidence, t: DomainData)
    ensures f in SuspectPathFindings(prior, e, t) <==>
            f in prior || f in NoteDns(t, Target)
            || match f.tag
               case Tampering => e.tampered && f.points == 50
               case HorizonNote(Suspect) => e.horizon && f.points == 0
               case Hijack => e.hijacked && f.points == 50
               case Redirection => e.redirected && f.points == 50
               case PathInconclusive => e.inconclusive && f.points == 0
               case AsnMismatch => e.asnSplit && f.points == 30
               case _ => false
  {
  }

  // What the weighed evidence, the target's notes and the verdict call for.
  predicate CalledFor(e: Evidence, t: DomainData, v: Verdict, f: Finding) {
    match f.tag
    case Age => e.tier > 0 && f.points == AgeShare(e)
    case Chronology => e.chronology && f.points == 0
    case Downgrade => e.downgrade && f.points == 40
    case IssuerNote => !e.downgrade && e.issuersDiffer && f.points == 0
    case RegistrarMismatch => e.mismatch && f.points == 30
    case SharedRegistrar => !e.mismatch && e.registrarsKnown && f.points == 0
    case Dmarc => e.dmarc && f.points == 0
    case Tampering => e.tampered && f.points == 50
    case HorizonNote(Suspect) => e.horizon && f.points == 0
    case Hijack => e.hijacked && f.points == 50
    case Redirection => e.redirected && f.points == 50
    case PathInconclusive => e.inconclusive && f.points == 0
    case AsnMismatch => e.asnSplit && f.points == 30
    case NoAuthority => v == UnrelatedPair && f.points == 0
    case Explanation => v == MaliciousOrNegligent && f.points == 0
    case _ => NoteOn(t, f.tag) && f.points == 0
  }

  lemma InPathFindings(f: Finding, prior: seq<Finding>, e: Evidence, t: DomainData)
    ensures f in PathFindings(prior, e, t) <==>
            f in prior
            || match f.tag
               case Tampering => e.tampered && f.points == 50
               case HorizonNote(Suspect) => e.horizon && f.points == 0
               case Hijack => e.hijacked && f.points == 50
               case Redirection => e.redirected && f.points == 50
               case PathInconclusive => e.inconclusive && f.points == 0
               case AsnMismatch => e.asnSplit && f.points == 30
               case _ => NoteOn(t, f.tag) && f.points == 0
  {
    InNoteDns(f, t, Target);
    AllInSuspectPaths(f, prior, e, t);
    AllInNotePaths(f, SuspectPathFindings(prior, e, t), t, Target);
  }

  lemma InClosing(f: Finding, prior: seq<Finding>, v: Verdict)
    ensures f in ClosingFindings(prior, v) <==>
            f in prior
            || (f == Finding(NoAuthority, 0) && v == UnrelatedPair)
            || (f == Finding(Explanation, 0) && v == MaliciousOrNegligent)
  {
    InWhen(f, prior, v == UnrelatedPair, NoAuthority, 0);
    InWhen(f, prior + When(v == UnrelatedPair, NoAuthority, 0), v == MaliciousOrNegligent, Explanation, 0);
  }

  lemma AllFindings(f: Finding, e: Evidence, t: DomainData, v: Verdict)
    ensures f in ClosingFindings(PathFindings(IdentityFindings(e), e, t), v) <==> CalledFor(e, t, v, f)
  {
    var identity := IdentityFindings(e);
    AllInIdentity(f, e);
    InPathFindings(f, identity, e, t);
    InClosing(f, PathFindings(identity, e, t), v);
  }

  // The evidence in terms of the data: who the two are, and how they are
  // reached.
  predicate IdentityMeans(e: Evidence, t: DomainData, s: DomainData, v: Verdict) {
    && (e.tier > 0 <==> DueToPair(t, s, v, Age)) && (e.tier > 0 ==> AgeShare(e) == PointsOf(t, s, Age))
    && (e.chronology <==> DueToPair(t, s, v, Chronology))
    && (e.downgrade <==> Downgraded(t, s)) && (e.mismatch <==> RegistrarsDiffer(t, s))
    && (!e.downgrade && e.issuersDiffer <==> DueToPair(t, s, v, IssuerNote))
    && (!e.mismatch && e.registrarsKnown <==> DueToPair(t, s, v, SharedRegistrar))
    && (e.dmarc <==> t.dmarcPolicy != "")
  }

  predicate PathsMean(e: Evidence, s: DomainData) {
    && (e.tampered <==> s.dnsTampered) && (e.hijacked <==> s.hostsHit)
    && (e.horizon <==> s.dnsSplit == SplitHorizon) && (e.inconclusive <==> s.pathChecked && !s.pathComplete)
    && (e.redirected <==> Divergent(s)) && (e.asnSplit <==> Elsewhere(s))
  }

  lemma IdentityIs(t: DomainData, s: DomainData, v: Verdict)
    ensures IdentityMeans(EvidenceOf(t, s), t, s, v)
  {
  }

  lemma PathsAre(t: DomainData, s: DomainData)
    ensures PathsMean(EvidenceOf(t, s), s)
  {
  }

  lemma CalledForIsDue(e: Evidence, t: DomainData, s: DomainData, v: Verdict, f: Finding)
    requires IdentityMeans(e, t, s, v) && PathsMean(e, s)
    ensures CalledFor(e, t, v, f) <==> DueToPair(t, s, v, f.tag) && f.points == PointsOf(t, s, f.tag)
  {
  }

  lemma FindingsOfSame(t: DomainData, s: DomainData, f: Finding)
    ensures f in SameDomainFindings(t, s) <==> DueToSame(t, s, f.tag) == Some(f.points)
  {
    InNoteDns(f, t, Target);
    InNoteDns(f, s, Suspect);
    var prior := [Finding(SameDomain, 0)] + NoteDns(t, Target) + (if s.dnsDetail != t.dnsDetail then NoteDns(s, Suspect) else []);
    AllInNotePaths(f, prior, t, Target);
  }

  lemma FindingsOfPair(t: DomainData, s: DomainData, f: Finding)
    requires !SameName(t, s)
    ensures f in FindingsOf(t, s) <==> DueToPair(t, s, FinalVerdict(t, s), f.tag) && f.points == PointsOf(t, s, f.tag)
  {
    AllFindings(f, EvidenceOf(t, s), t, FinalVerdict(t, s));
    IdentityIs(t, s, FinalVerdict(t, s));
    PathsAre(t, s);
    CalledForIsDue(EvidenceOf(t, s), t, s, FinalVerdict(t, s), f);
  }

  // A finding is reported exactly when the data calls for it, with the
  // points of the scale.
  lemma FindingsAreDue(t: DomainData, s: DomainData, f: Finding)
    ensures f in FindingsOf(t, s) <==> Due(t, s, f.tag) == Some(f.points)
  {
    assert SameName(t, s) <==> t.domain != "" && ToLower(t.domain) == ToLower(s.domain);
    if SameName(t, s) {
      FindingsOfSame(t, s, f);
    } else {
      FindingsOfPair(t, s, f);
    }
  }

  // A finding that costs points is there exactly when the suspect shows the
  // signal it names; nothing about the target's side is.
  lemma PointsHaveReasons(t: DomainData, s: DomainData, f: Finding)
    requires f.points > 0 && !(t.domain != "" && ToLower(t.domain) == ToLower(s.domain))
    ensures f in FindingsOf(t, s) <==>
            (f.tag == Age && s.ageKnown && s.ageDays < 90 && f.points == PointsOf(t, s, Age))
            || (f == Finding(Downgrade, 40) && t.class_ in {"EV", "OV"} && s.class_ == "DV")
            || (f == Finding(RegistrarMismatch, 30) && t.registrar !in {"", "Unknown"}
                && s.registrar !in {"", "Unknown"} && ToLower(t.registrar) != ToLower(s.registrar))
            || (f == Finding(Tampering, 50) && s.dnsTampered)
            || (f == Finding(Hijack, 50) && s.hostsHit)
            || (f == Finding(Redirection, 50) && s.pathComplete && !s.pathMatch)
            || (f == Finding(AsnMismatch, 30) && s.asnChecked && !s.asnMatch)
  {
    FindingsAreDue(t, s, f);
  }

  // ----- the order of the findings -----

  // Where a finding stands in the report.
  function Rank(tag: Tag): nat {
    match tag
    case SameDomain => 0
    case Age => 1
    case Chronology => 2
    case Downgrade => 3
    case IssuerNote => 4
    case RegistrarMismatch => 5
    case SharedRegistrar => 6
    case Dmarc => 7
    case Tampering => 8
    case TamperNote(Target) => 10
    case HorizonNote(Target) => 10
    case TamperNote(Suspect) => 11
    case HorizonNote(Suspect) => 9
    case Hijack => 12
    case Redirection => 13
    case PathInconclusive => 14
    case AsnMismatch => 15
    case HostsNote(_) => 16
    case PathNote(_) => 17
    case AsnNote(_) => 18
    case NoAuthority => 19
    case Explanation => 20
  }

  predicate InOrder(findings: seq<Finding>) {
    forall i, j :: 0 <= i < j < |findings| ==> Rank(findings[i].tag) < Rank(findings[j].tag)
  }

  predicate Ranked(findings: seq<Finding>, rank: nat) {
    InOrder(findings) && forall f :: f in findings ==> Rank(f.tag) < rank
  }

  lemma Append(prior: seq<Finding>, rank: nat, condition: bool, tag: Tag, points: nat) returns (next: seq<Finding>)
    requires Ranked(prior, rank) && rank <= Rank(tag)
    ensures next == prior + When(condition, tag, points) && Ranked(next, Rank(tag) + 1)
  {
    next := prior + When(condition, tag, points);
    forall i, j | 0 <= i < j < |next|
      ensures Rank(next[i].tag) < Rank(next[j].tag)
    {
      assert next[i] == prior[i];
    }
  }

  lemma DnsNotesInOrder(prior: seq<Finding>, d: DomainData)
    requires Ranked(prior, 10)
    ensures Ranked(prior + NoteDns(d, Target), 11)
  {
    var f := Append(prior, 10, d.dnsDetail != "" && d.dnsTampered, TamperNote(Target), 0);
    var g := Append(prior, 10, d.dnsDetail != "" && !d.dnsTampered && d.dnsSplit == SplitHorizon, HorizonNote(Target), 0);
  }

  lemma PathNotesInOrder(prior: seq<Finding>, d: DomainData)
    requires Ranked(prior, 16)
    ensures Ranked(NotePaths(prior, d, Target), 19)
  {
    var f := Append(prior, 16, d.hostsHit, HostsNote(Target), 0);
    f := Append(f, 17, Redirected(d), PathNote(Target), 0);
    f := Append(f, 18, AsnSplit(d), AsnNote(Target), 0);
  }

  lemma IdentityInOrder(e: Evidence)
    ensures Ranked(IdentityFindings(e), 8)
  {
    var f := When(e.tier > 0, Age, AgeShare(e));
    f := Append(f, 2, e.chronology, Chronology, 0);
    f := Append(f, 3, e.downgrade, Downgrade, 40);
    f := Append(f, 4, !e.downgrade && e.issuersDiffer, IssuerNote, 0);
    f := Append(f, 5, e.mismatch, RegistrarMismatch, 30);
    f := Append(f, 6, !e.mismatch && e.registrarsKnown, SharedRegistrar, 0);
    f := Append(f, 7, e.dmarc, Dmarc, 0);
    assert f == IdentityFindings(e);
  }

  lemma ResolutionInOrder(prior: seq<Finding>, e: Evidence, t: DomainData)
    requires Ranked(prior, 8)
    ensures Ranked(ResolutionFindings(prior, e, t), 11)
  {
    var f := Append(prior, 8, e.tampered, Tampering, 50);
    f := Append(f, 9, e.horizon, HorizonNote(Suspect), 0);
    DnsNotesInOrder(f, t);
  }

  lemma SuspectPathsInOrder(prior: seq<Finding>, e: Evidence, t: DomainData)
    requires Ranked(ResolutionFindings(prior, e, t), 11)
    ensures Ranked(SuspectPathFindings(prior, e, t), 16)
  {
    var f := ResolutionFindings(prior, e, t);
    f := Append(f, 11, e.hijacked, Hijack, 50);
    f := Append(f, 13, e.redirected, Redirection, 50);
    f := Append(f, 14, e.inconclusive, PathInconclusive, 0);
    f := Append(f, 15, e.asnSplit, AsnMismatch, 30);
    assert f == SuspectPathFindings(prior, e, t);
  }

  lemma ClosingInOrder(prior: seq<Finding>, v: Verdict)
    requires Ranked(prior, 19)
    ensures Ranked(ClosingFindings(prior, v), 21)
  {
    var f := Append(prior, 19, v == UnrelatedPair, NoAuthority, 0);
    f := Append(f, 20, v == MaliciousOrNegligent, Explanation, 0);
  }

  lemma AllInOrder(e: Evidence, t: DomainData, v: Verdict)
    ensures Ranked(ClosingFindings(PathFindings(IdentityFindings(e), e, t), v), 21)
  {
    IdentityInOrder(e);
    ResolutionInOrder(IdentityFindings(e), e, t);
    SuspectPathsInOrder(IdentityFindings(e), e, t);
    PathNotesInOrder(SuspectPathFindings(IdentityFindings(e), e, t), t);
    ClosingInOrder(PathFindings(IdentityFindings(e), e, t), v);
  }

  // Two different names are reported on in this order, each finding once.
  // With FindingsAreDue that fixes the whole list.
  lemma FindingsInOrder(t: DomainData, s: DomainData)
    requires !SameName(t, s)
    ensures InOrder(FindingsOf(t, s))
  {
    AllInOrder(EvidenceOf(t, s), t, FinalVerdict(t, s));
  }

  lemma AgeFlagIs(s: DomainData)
    ensures Flag(s) == Critical <==> s.ageKnown && s.ageDays < 30
    ensures Flag(s) == Warning <==> s.ageKnown && 30 <= s.ageDays < 90
  {
  }

  lemma PointsRange(e: Evidence)
    requires e.tier == 0 || e.tier == 40 || e.tier == 80
    ensures 0 <= Points(e) <= 330 && Points(e) % 10 == 0
  {
    var age := AgeShare(e);
    assert age == 0 || age == 10 || age == 20 || age == 40 || age == 80;
    var rest := Points(e) - age;
    assert rest % 10 == 0 by {
      Tens(e.downgrade, 4);
      Tens(e.mismatch, 3);
      Tens(e.tampered, 5);
      Tens(e.hijacked, 5);
      Tens(e.redirected, 5);
      Tens(e.asnSplit, 3);
    }
  }

  lemma Tens(condition: bool, n: nat)
    ensures (if condition then n * 10 else 0) == 10 * if condition then n else 0
  {
  }

  lemma ScoreRange(t: DomainData, s: DomainData)
    ensures 0 <= ScoreOf(t, s) <= 330 && ScoreOf(t, s) % 10 == 0
  {
    if !SameName(t, s) {
      PointsRange(EvidenceOf(t, s));
    }
  }

  // ----- monotonicity -----

  // Nothing that speaks against the suspect in the first is missing from the
  // second, which may be younger and less endorsed.
  predicate AsBadAs(e: Evidence, f: Evidence) {
    && e.tier <= f.tier
    && (e.downgrade ==> f.downgrade) && (e.mismatch ==> f.mismatch) && (f.endorsed ==> e.endorsed)
    && (e.tampered ==> f.tampered) && (e.hijacked ==> f.hijacked)
    && (e.redirected ==> f.redirected) && (e.asnSplit ==> f.asnSplit)
  }

  lemma AgePointsMonotone(tier: nat, stacked: bool, endorsed: bool, tier': nat, stacked': bool, endorsed': bool)
    requires tier <= tier' && (stacked ==> stacked') && (endorsed' ==> endorsed)
    ensures AgePoints(tier, stacked, endorsed) <= AgePoints(tier', stacked', endorsed')
  {
  }

  lemma PointsMonotone(e: Evidence, f: Evidence)
    requires AsBadAs(e, f)
    ensures Points(e) <= Points(f)
  {
    AgePointsMonotone(e.tier, e.mismatch || e.downgrade, e.endorsed, f.tier, f.mismatch || f.downgrade, f.endorsed);
  }

  // Against one target, the score never falls when a suspect gains a signal,
  // loses an endorsement or gets younger.
  lemma ScoreMonotone(t: DomainData, s: DomainData, s': DomainData)
    requires !SameName(t, s')
    requires s.ageKnown ==> s'.ageKnown && s'.ageDays <= s.ageDays
    requires IsDowngrade(t, s) ==> IsDowngrade(t, s')
    requires IsMismatch(t, s) ==> IsMismatch(t, s')
    requires SansOverlap(t, s') || SpfEndorses(s') ==> SansOverlap(t, s) || SpfEndorses(s)
    requires s.dnsTampered ==> s'.dnsTampered
    requires s.hostsHit ==> s'.hostsHit
    requires Redirected(s) ==> Redirected(s')
    requires AsnSplit(s) ==> AsnSplit(s')
    ensures ScoreOf(t, s) <= ScoreOf(t, s')
  {
    if !SameName(t, s) {
      PointsMonotone(EvidenceOf(t, s), EvidenceOf(t, s'));
    }
  }

  // ----- the target's side -----

  // The target with another view of the way to it.
  function SeenAs(t: DomainData, view: DomainData): DomainData {
    t.(dnsTampered := view.dnsTampered, dnsSplit := view.dnsSplit, dnsDetail := view.dnsDetail,
       pathChecked := view.pathChecked, pathComplete := view.pathComplete, pathMatch := view.pathMatch,
       asnChecked := view.asnChecked, asnMatch := view.asnMatch, hostsHit := view.hostsHit)
  }

  lemma SameEvidence(t: DomainData, s: DomainData, view: DomainData)
    ensures SameName(SeenAs(t, view), s) == SameName(t, s)
    ensures EvidenceOf(SeenAs(t, view), s) == EvidenceOf(t, s)
  {
    assert SansOverlap(SeenAs(t, view), s) == SansOverlap(t, s);
  }

  lemma SameRelationship(t: DomainData, s: DomainData, view: DomainData)
    ensures Classify(SeenAs(t, view), s) == Classify(t, s)
  {
    assert SansOverlap(SeenAs(t, view), s) == SansOverlap(t, s);
    assert RootLabel(SeenAs(t, view).domain) == RootLabel(t.domain);
  }

  // What the observer sees on the way to the target changes neither score,
  // verdict nor relationship.
  lemma TargetViewIrrelevant(t: DomainData, s: DomainData, view: DomainData)
    ensures ScoreOf(SeenAs(t, view), s) == ScoreOf(t, s)
    ensures FinalVerdict(SeenAs(t, view), s) == FinalVerdict(t, s)
    ensures Classify(SeenAs(t, view), s) == Classify(t, s)
  {
    SameEvidence(t, s, view);
    SameRelationship(t, s, view);
  }

  // ----- the verdict -----

  // The bands of the scale, which an unrelated pair leaves below 40.
  lemma VerdictBands(t: DomainData, s: DomainData)
    ensures var score, related := ScoreOf(t, s), Classify(t, s) != Unrelated;
            && (FinalVerdict(t, s) == Phishing <==> score >= 51)
            && (FinalVerdict(t, s) == Suspicious <==> 40 <= score <= 50)
            && (FinalVerdict(t, s) == MaliciousOrNegligent <==> 15 <= score < 40 && related)
            && (FinalVerdict(t, s) == Legitimate <==> score < 15 && related)
            && (FinalVerdict(t, s) == UnrelatedPair <==> score < 40 && !related)
  {
  }

  lemma AgeAdds(t: DomainData, s: DomainData)
    requires !SameName(t, s)
    ensures ScoreOf(t, s) == ScoreOf(t, s.(ageKnown := false)) + AgeShare(EvidenceOf(t, s))
  {
    var unknown := s.(ageKnown := false);
    var e, f := EvidenceOf(t, s), EvidenceOf(t, unknown);
    assert SansOverlap(t, unknown) == SansOverlap(t, s);
    assert f == e.(tier := 0, chronology := false);
    AgeTable(f);
    SamePointsButAge(e, f);
  }

  lemma SamePointsButAge(e: Evidence, f: Evidence)
    requires f == e.(tier := 0, chronology := false) && AgeShare(f) == 0
    ensures Points(e) == Points(f) + AgeShare(e)
  {
  }

  // The rows of the published scale for age: what a suspect's known age adds
  // to the score of the pair. Company is a registrar mismatch or a downgrade.
  lemma AgeRows(t: DomainData, s: DomainData)
    requires s.ageKnown && !SameName(t, s)
    ensures var rest, company := ScoreOf(t, s.(ageKnown := false)), IsMismatch(t, s) || IsDowngrade(t, s);
            var endorsed := SansOverlap(t, s) || SpfEndorses(s);
            && (s.ageDays < 30 && company && !endorsed ==> ScoreOf(t, s) == rest + 80)
            && (s.ageDays < 30 && !company && !endorsed ==> ScoreOf(t, s) == rest + 40)
            && (30 <= s.ageDays < 90 && company && !endorsed ==> ScoreOf(t, s) == rest + 40)
            && (30 <= s.ageDays < 90 && !company && !endorsed ==> ScoreOf(t, s) == rest + 20)
            && (s.ageDays < 30 && company && endorsed ==> ScoreOf(t, s) == rest + 40)
            && (s.ageDays < 30 && !company && endorsed ==> ScoreOf(t, s) == rest + 20)
            && (30 <= s.ageDays < 90 && company && endorsed ==> ScoreOf(t, s) == rest + 20)
            && (30 <= s.ageDays < 90 && !company && endorsed ==> ScoreOf(t, s) == rest + 10)
            && (90 <= s.ageDays ==> ScoreOf(t, s) == rest)
  {
    AgeAdds(t, s);
    AgeTable(EvidenceOf(t, s));
  }

  lemma AgeTable(e: Evidence)
    requires e.tier == 0 || e.tier == 40 || e.tier == 80
    ensures var company := e.mismatch || e.downgrade;
            AgeShare(e) == if e.tier == 0 then 0
                           else if company && !e.endorsed then e.tier
                           else if !company && e.endorsed then e.tier / 4
                           else e.tier / 2
  {
  }

  // A homoglyph disguise of the target's label, however distant, keeps the
  // pair from being unrelated.
  lemma DisguiseIsRelated(t: DomainData, s: DomainData, path: seq<string>)
    requires Disguises(path)
    requires RootLabel(t.domain) == path[0] && RootLabel(s.domain) == path[|path| - 1]
    requires RootLabel(t.domain) != "" && RootLabel(s.domain) != ""
    ensures Classify(t, s) != Unrelated
  {
    RootLabelIsLower(t.domain);
    RootLabelIsLower(s.domain);
    DisguisedIsSimilar(RootLabel(t.domain), RootLabel(s.domain), path);
  }

  // ----- the relationship -----

  ghost predicate Covered(t: DomainData, s: DomainData) {
    || (exists entry :: entry in Split(s.sans, ',') && NameCovered(entry, t.domain))
    || (exists entry :: entry in Split(t.sans, ',') && NameCovered(entry, s.domain))
  }

  predicate NameCovered(entry: string, name: string) {
    ToLower(TrimSpace(name)) != "" && LabelCovers(entry, ToLower(TrimSpace(name)))
  }

  // The normal forms of the two root labels are the same, or close.
  ghost predicate RootsAlike(t: DomainData, s: DomainData) {
    var a, b := Split(ToLower(TrimSpace(t.domain)), '.')[0], Split(ToLower(TrimSpace(s.domain)), '.')[0];
    var na, nb := Normalize(a), Normalize(b);
    && a != "" && b != ""
    && (na == nb
        || (|na| >= 4 && |nb| >= 4 && WithinEdits(na, nb, 2))
        || (|na| >= 5 && |nb| >= 5 && (Inside(na, nb) || Inside(nb, na))))
  }

  lemma OverlapIsCovered(t: DomainData, s: DomainData)
    ensures SansOverlap(t, s) <==> Covered(t, s)
  {
    FieldCoversByLabels(s.sans, t.domain);
    FieldCoversByLabels(t.sans, s.domain);
  }

  lemma RootsAlikeIs(t: DomainData, s: DomainData)
    ensures LabelsSimilar(RootLabel(t.domain), RootLabel(s.domain)) <==> RootsAlike(t, s)
  {
    RootLabelIs(t.domain);
    RootLabelIs(s.domain);
    SimilarIs(RootLabel(t.domain), RootLabel(s.domain));
  }

  // The first of these that holds of a pair is its relationship: one name,
  // coverage by a certificate of either side, sender authority, similar root
  // labels. A pair of which none holds is unrelated.
  lemma RelationshipIs(t: DomainData, s: DomainData)
    ensures var same := t.domain != "" && ToLower(t.domain) == ToLower(s.domain);
            var spf := s.spfChecked && s.spfAuthorized;
            && (Classify(t, s) == Identical <==> same)
            && (Classify(t, s) == SanEndorsed <==> !same && Covered(t, s))
            && (Classify(t, s) == SpfEndorsed <==> !same && !Covered(t, s) && spf)
            && (Classify(t, s) == LookalikePair <==> !same && !Covered(t, s) && !spf && RootsAlike(t, s))
            && (Classify(t, s) == Unrelated <==> !same && !Covered(t, s) && !spf && !RootsAlike(t, s))
  {
    OverlapIsCovered(t, s);
    RootsAlikeIs(t, s);
  }
}
