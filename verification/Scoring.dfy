// internal/score/score.go: the point system, its findings and the verdict.
module Scoring {
  import opened Text
  import opened Certs
  import opened Lookalike
  import opened Resolvers
  import Confusables

  // The fields of score.DomainData that the score reads.
  datatype DomainData = DomainData(
    domain: string, registrar: string, issuer: string, class_: string, sans: string,
    ageDays: int, ageKnown: bool,
    dnsTampered: bool, dnsSplit: SplitKind, dnsDetail: string,
    pathChecked: bool, pathComplete: bool, pathMatch: bool,
    asnChecked: bool, asnMatch: bool, hostsHit: bool,
    spfChecked: bool, spfAuthorized: bool, dmarcPolicy: string)

  datatype Role = Target | Suspect

  datatype Tag =
    | SameDomain | Age | Chronology | Downgrade | IssuerNote | RegistrarMismatch | SharedRegistrar | Dmarc
    | Tampering | HorizonNote(role: Role) | TamperNote(role: Role)
    | Hijack | HostsNote(role: Role) | Redirection | PathNote(role: Role) | PathInconclusive
    | AsnMismatch | AsnNote(role: Role) | NoAuthority | Explanation

  // A finding carries the points it adds; a note adds none.
  datatype Finding = Finding(tag: Tag, points: nat)

  datatype Verdict = Phishing | Suspicious | MaliciousOrNegligent | Legitimate | UnrelatedPair

  datatype Relationship = Identical | SanEndorsed | SpfEndorsed | LookalikePair | Unrelated

  datatype AgeFlag = NoFlag | Critical | Warning

  // ----- the signals -----

  predicate SameName(t: DomainData, s: DomainData) {
    t.domain != "" && EqualFold(t.domain, s.domain)
  }

  predicate Known(v: string) {
    v != "" && v != "Unknown"
  }

  predicate IsDowngrade(t: DomainData, s: DomainData) {
    (t.class_ == "EV" || t.class_ == "OV") && s.class_ == "DV"
  }

  predicate IsMismatch(t: DomainData, s: DomainData) {
    Known(t.registrar) && Known(s.registrar) && !EqualFold(t.registrar, s.registrar)
  }

  predicate SansOverlap(t: DomainData, s: DomainData) {
    FieldCovers(s.sans, t.domain) || FieldCovers(t.sans, s.domain)
  }

  predicate SpfEndorses(s: DomainData) {
    s.spfChecked && s.spfAuthorized
  }

  predicate Redirected(d: DomainData) {
    d.pathComplete && !d.pathMatch
  }

  predicate AsnSplit(d: DomainData) {
    d.asnChecked && !d.asnMatch
  }

  function Tier(s: DomainData): nat {
    if !s.ageKnown || s.ageDays >= 90 then 0 else if s.ageDays < 30 then 80 else 40
  }

  function Flag(s: DomainData): AgeFlag {
    if Tier(s) == 80 then Critical else if Tier(s) == 40 then Warning else NoFlag
  }

  // The full tier needs company, and endorsement halves what remains.
  function AgePoints(tier: nat, stacked: bool, endorsed: bool): nat {
    var points := if stacked then tier else tier / 2;
    if endorsed then points / 2 else points
  }

  predicate ChronologyInverted(t: DomainData, s: DomainData) {
    t.ageKnown && s.ageKnown && t.ageDays < 90 && s.ageDays >= 365
  }

  predicate IssuersDiffer(t: DomainData, s: DomainData) {
    t.issuer != s.issuer && Known(t.issuer) && Known(s.issuer)
  }

  // Everything about a pair that is weighed, and everything that is only
  // remarked upon.
  datatype Evidence = Evidence(
    tier: nat, downgrade: bool, mismatch: bool, endorsed: bool,
    tampered: bool, hijacked: bool, redirected: bool, asnSplit: bool,
    chronology: bool, issuersDiffer: bool, registrarsKnown: bool, dmarc: bool, horizon: bool, inconclusive: bool)

  function EvidenceOf(t: DomainData, s: DomainData): Evidence {
    Evidence(
      Tier(s), IsDowngrade(t, s), IsMismatch(t, s), SansOverlap(t, s) || SpfEndorses(s),
      s.dnsTampered, s.hostsHit, Redirected(s), AsnSplit(s),
      ChronologyInverted(t, s), IssuersDiffer(t, s), Known(t.registrar) && Known(s.registrar),
      t.dmarcPolicy != "", s.dnsSplit == SplitHorizon, s.pathChecked && !s.pathComplete)
  }

  function AgeShare(e: Evidence): nat {
    AgePoints(e.tier, e.mismatch || e.downgrade, e.endorsed)
  }

  function Points(e: Evidence): nat {
    AgeShare(e) + (if e.downgrade then 40 else 0) + (if e.mismatch then 30 else 0)
    + (if e.tampered then 50 else 0) + (if e.hijacked then 50 else 0)
    + (if e.redirected then 50 else 0) + if e.asnSplit then 30 else 0
  }

  // The same domain twice scores nothing.
  function ScoreOf(t: DomainData, s: DomainData): nat {
    if SameName(t, s) then 0 else Points(EvidenceOf(t, s))
  }

  function VerdictOf(score: int): Verdict {
    if score >= 51 then Phishing else if score >= 40 then Suspicious
    else if score >= 15 then MaliciousOrNegligent else Legitimate
  }

  function Classify(t: DomainData, s: DomainData): Relationship {
    if SameName(t, s) then Identical
    else if SansOverlap(t, s) then SanEndorsed
    else if SpfEndorses(s) then SpfEndorsed
    else if LabelsSimilar(RootLabel(t.domain), RootLabel(s.domain)) then LookalikePair
    else Unrelated
  }

  // No unrelated pair is called legitimate, or merely negligent.
  function Settle(v: Verdict, rel: Relationship): Verdict {
    if rel == Unrelated && (v == Legitimate || v == MaliciousOrNegligent) then UnrelatedPair else v
  }

  function FinalVerdict(t: DomainData, s: DomainData): Verdict {
    Settle(VerdictOf(ScoreOf(t, s)), Classify(t, s))
  }

  // ----- the findings, in order -----

  function When(condition: bool, tag: Tag, points: nat): seq<Finding> {
    if condition then [Finding(tag, points)] else []
  }

  function NoteDns(d: DomainData, role: Role): seq<Finding> {
    if d.dnsDetail == "" then []
    else if d.dnsTampered then [Finding(TamperNote(role), 0)]
    else When(d.dnsSplit == SplitHorizon, HorizonNote(role), 0)
  }

  // The findings of each part, behind those already there.
  function NotePaths(prior: seq<Finding>, d: DomainData, role: Role): seq<Finding> {
    prior
    + When(d.hostsHit, HostsNote(role), 0)
    + When(Redirected(d), PathNote(role), 0)
    + When(AsnSplit(d), AsnNote(role), 0)
  }

  function SameDomainFindings(t: DomainData, s: DomainData): seq<Finding> {
    NotePaths(
      [Finding(SameDomain, 0)] + NoteDns(t, Target) + (if s.dnsDetail != t.dnsDetail then NoteDns(s, Suspect) else []),
      t, Target)
  }

  function IdentityFindings(e: Evidence): seq<Finding> {
    When(e.tier > 0, Age, AgeShare(e))
    + When(e.chronology, Chronology, 0)
    + When(e.downgrade, Downgrade, 40)
    + When(!e.downgrade && e.issuersDiffer, IssuerNote, 0)
    + When(e.mismatch, RegistrarMismatch, 30)
    + When(!e.mismatch && e.registrarsKnown, SharedRegistrar, 0)
    + When(e.dmarc, Dmarc, 0)
  }

  function ResolutionFindings(prior: seq<Finding>, e: Evidence, t: DomainData): seq<Finding> {
    prior
    + When(e.tampered, Tampering, 50)
    + When(e.horizon, HorizonNote(Suspect), 0)
    + NoteDns(t, Target)
  }

  function SuspectPathFindings(prior: seq<Finding>, e: Evidence, t: DomainData): seq<Finding> {
    ResolutionFindings(prior, e, t)
    + When(e.hijacked, Hijack, 50)
    + When(e.redirected, Redirection, 50)
    + When(e.inconclusive, PathInconclusive, 0)
    + When(e.asnSplit, AsnMismatch, 30)
  }

  function PathFindings(prior: seq<Finding>, e: Evidence, t: DomainData): seq<Finding> {
    NotePaths(SuspectPathFindings(prior, e, t), t, Target)
  }

  function ClosingFindings(prior: seq<Finding>, v: Verdict): seq<Finding> {
    prior + When(v == UnrelatedPair, NoAuthority, 0) + When(v == MaliciousOrNegligent, Explanation, 0)
  }

  function FindingsOf(t: DomainData, s: DomainData): seq<Finding> {
    if SameName(t, s) then SameDomainFindings(t, s)
    else
      var e := EvidenceOf(t, s);
      ClosingFindings(PathFindings(IdentityFindings(e), e, t), FinalVerdict(t, s))
  }

  // ----- the computation -----

  class Result {
    var score: int
    var findings: seq<Finding>
    var verdict: Verdict
    var ageFlag: AgeFlag
    var relationship: Relationship

    constructor ()
      ensures score == 0 && findings == [] && ageFlag == NoFlag
    {
      score, findings, verdict, ageFlag, relationship := 0, [], Legitimate, NoFlag, Unrelated;
    }

    method Record(condition: bool, tag: Tag, points: nat)
      modifies this`score, this`findings
      ensures score == old(score) + if condition then points else 0
      ensures findings == old(findings) + When(condition, tag, points)
    {
      if condition {
        score := score + points;
        findings := findings + [Finding(tag, points)];
      }
    }

    method AddDnsNotes(d: DomainData, role: Role)
      modifies this`score, this`findings
      ensures score == old(score) && findings == old(findings) + NoteDns(d, role)
    {
      if d.dnsDetail == "" {
        return;
      }
      if d.dnsTampered {
        Record(true, TamperNote(role), 0);
        return;
      }
      Record(d.dnsSplit == SplitHorizon, HorizonNote(role), 0);
    }

    method AddPathNotes(d: DomainData, role: Role)
      modifies this`score, this`findings
      ensures score == old(score) && findings == NotePaths(old(findings), d, role)
    {
      Record(d.hostsHit, HostsNote(role), 0);
      Record(Redirected(d), PathNote(role), 0);
      Record(AsnSplit(d), AsnNote(role), 0);
    }

    method AddIdentity(e: Evidence)
      requires score == 0 && findings == []
      modifies this`score, this`findings
      ensures score == AgeShare(e) + (if e.downgrade then 40 else 0) + if e.mismatch then 30 else 0
      ensures findings == IdentityFindings(e)
    {
      Record(e.tier > 0, Age, AgeShare(e));
      assert findings == When(e.tier > 0, Age, AgeShare(e));
      Record(e.chronology, Chronology, 0);
      Record(e.downgrade, Downgrade, 40);
      Record(!e.downgrade && e.issuersDiffer, IssuerNote, 0);
      Record(e.mismatch, RegistrarMismatch, 30);
      Record(!e.mismatch && e.registrarsKnown, SharedRegistrar, 0);
      Record(e.dmarc, Dmarc, 0);
    }

    method AddPaths(e: Evidence, t: DomainData)
      modifies this`score, this`findings
      ensures score == old(score) + (if e.tampered then 50 else 0) + (if e.hijacked then 50 else 0)
                       + (if e.redirected then 50 else 0) + if e.asnSplit then 30 else 0
      ensures findings == PathFindings(old(findings), e, t)
    {
      Record(e.tampered, Tampering, 50);
      Record(e.horizon, HorizonNote(Suspect), 0);
      AddDnsNotes(t, Target);
      Record(e.hijacked, Hijack, 50);
      Record(e.redirected, Redirection, 50);
      Record(e.inconclusive, PathInconclusive, 0);
      Record(e.asnSplit, AsnMismatch, 30);
      AddPathNotes(t, Target);
    }

    // Steps down the scale, then corrects for a pair without any relation.
    method Conclude(rel: Relationship)
      modifies this
      ensures score == old(score) && ageFlag == old(ageFlag) && relationship == rel
      ensures verdict == Settle(VerdictOf(score), rel)
      ensures verdict == Phishing <==> score >= 51
      ensures verdict == Suspicious <==> 40 <= score <= 50
      ensures verdict == MaliciousOrNegligent <==> 15 <= score < 40 && rel != Unrelated
      ensures verdict == Legitimate <==> score < 15 && rel != Unrelated
      ensures verdict == UnrelatedPair <==> score < 40 && rel == Unrelated
      ensures findings == ClosingFindings(old(findings), verdict)
    {
      verdict, relationship := VerdictOf(score), rel;
      var unrelated := relationship == Unrelated && (verdict == Legitimate || verdict == MaliciousOrNegligent);
      if unrelated {
        verdict := UnrelatedPair;
      }
      Record(unrelated, NoAuthority, 0);
      Record(verdict == MaliciousOrNegligent, Explanation, 0);
    }

    method ScoreSame(t: DomainData, s: DomainData)
      requires score == 0 && findings == []
      modifies this
      ensures score == 0 && findings == SameDomainFindings(t, s) && ageFlag == old(ageFlag)
      ensures verdict == Legitimate && relationship == Identical
    {
      Record(true, SameDomain, 0);
      assert findings == [Finding(SameDomain, 0)];
      AddDnsNotes(t, Target);
      if s.dnsDetail != t.dnsDetail {
        AddDnsNotes(s, Suspect);
      } else {
        assert findings == findings + [];
      }
      AddPathNotes(t, Target);
      verdict, relationship := VerdictOf(score), Identical;
    }
  }

  method Score(t: DomainData, s: DomainData) returns (r: Result)
    ensures fresh(r)
    ensures r.score == ScoreOf(t, s) && r.findings == FindingsOf(t, s)
    ensures r.verdict == FinalVerdict(t, s) && r.relationship == Classify(t, s)
    ensures r.ageFlag == if SameName(t, s) then NoFlag else Flag(s)
  {
    r := new Result();
    if SameName(t, s) {
      r.ScoreSame(t, s);
      return;
    }
    var e := EvidenceOf(t, s);
    r.ageFlag := Flag(s);
    r.AddIdentity(e);
    r.AddPaths(e, t);
    r.Conclude(Classify(t, s));
  }
}
