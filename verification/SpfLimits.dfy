// internal/dns/spf.go:26-28 calls the limit a cap on the terms that query
// DNS; the evaluator also charges every mail host of an mx term. What the
// difference comes to.
module SpfLimits {
  import opened Text
  import opened SpfRecord
  import opened Spf
  import opened SpfEvaluation
  import opened SpfTheorems
  import opened SpfDepartures

  // What an evaluation comes across: include, a, mx and redirect terms, each
  // counted once however often it queries, and mail hosts that are asked for
  // their addresses.
  datatype Count = Count(terms: nat, hosts: nat)

  const NOTHING := Count(0, 0)

  function Plus(a: Count, b: Count): Count {
    Count(a.terms + b.terms, a.hosts + b.hosts)
  }

  function OneMore(c: Count): Count {
    Count(c.terms + 1, c.hosts)
  }

  function MailHosts(env: Env, domain: string, m: Mechanism): seq<Query> {
    match env.mx(AddrHost(env, domain, m.value))
    case None => []
    case Some(hosts) => MxScan(env, hosts, AddrNet(env, m.value)).1
  }

  // The count of a term that names no other record.
  function OwnCount(env: Env, domain: string, m: Mechanism): Count {
    match m.kind
    case A => Count(1, 0)
    case Mx => Count(1, |MailHosts(env, domain, m)|)
    case _ => NOTHING
  }

  // The evaluation of domain that asks t comes across c...
  ghost predicate Counts(env: Env, domain: string, t: seq<Query>, c: Count)
    decreases |t|, 0
  {
    && |t| >= 1 && t[0] == TxtOf(domain)
    && match RecordOf(env, domain)
       case None => |t| == 1 && c == NOTHING
       case Some(ms) => TermsCount(env, domain, ms, [], t[1..], c)
  }

  // ...and so does a term that is done with after the queries t...
  ghost predicate TermCounts(env: Env, domain: string, m: Mechanism, t: seq<Query>, c: Count)
    decreases |t|, 1
  {
    if m.kind == Include then exists d :: Counts(env, m.value, t, d) && c == OneMore(d)
    else t == Direct(env, domain, m).1 && c == OwnCount(env, domain, m)
  }

  ghost predicate Ended(env: Env, domain: string, m: Mechanism, t: seq<Query>) {
    exists out :: Stops(env, domain, m, out, t)
  }

  // ...and the terms still to come.
  ghost predicate TermsCount(env: Env, domain: string, ms: seq<Mechanism>, redirects: seq<string>,
                             t: seq<Query>, c: Count)
    decreases |t|, 2 + 2 * |ms|
  {
    if ms == [] then
      if |redirects| == 1 then exists d :: Counts(env, redirects[0], t, d) && c == OneMore(d)
      else t == [] && c == NOTHING
    else
      || (Ended(env, domain, ms[0], t) && TermCounts(env, domain, ms[0], t, c))
      || exists k, a, b :: CountsInTwo(env, domain, ms, redirects, t, k, a, b) && c == Plus(a, b)
  }

  // The first term lets the evaluation go on after k queries.
  ghost predicate CountsInTwo(env: Env, domain: string, ms: seq<Mechanism>, redirects: seq<string>,
                              t: seq<Query>, k: int, a: Count, b: Count)
    requires ms != []
    decreases |t|, 1 + 2 * |ms|
  {
    && 0 <= k <= |t|
    && Passes(env, domain, ms[0], t[..k]) && TermCounts(env, domain, ms[0], t[..k], a)
    && TermsCount(env, domain, ms[1..], redirects + RedirectOf(ms[0]), t[k..], b)
  }

  // ----- the charge is the terms and the hosts -----

  lemma OwnQueries(env: Env, domain: string, m: Mechanism)
    requires m.kind != Include
    ensures |Direct(env, domain, m).1| == OwnCount(env, domain, m).terms + OwnCount(env, domain, m).hosts
  {
  }

  // Every query but the first is that of a counted term or of a mail host.
  lemma {:induction false} QueriesCounted(env: Env, domain: string, t: seq<Query>, c: Count)
    requires Counts(env, domain, t, c)
    ensures |t| == 1 + c.terms + c.hosts
    decreases |t|, 0
  {
    if RecordOf(env, domain).Some? {
      TermsQueriesCounted(env, domain, RecordOf(env, domain).value, [], t[1..], c);
    }
  }

  lemma {:induction false} TermQueriesCounted(env: Env, domain: string, m: Mechanism, t: seq<Query>, c: Count)
    requires TermCounts(env, domain, m, t, c)
    ensures |t| == c.terms + c.hosts
    decreases |t|, 1
  {
    if m.kind == Include {
      var d :| Counts(env, m.value, t, d) && c == OneMore(d);
      QueriesCounted(env, m.value, t, d);
    } else {
      OwnQueries(env, domain, m);
    }
  }

  lemma {:induction false} TermsQueriesCounted(env: Env, domain: string, ms: seq<Mechanism>, redirects: seq<string>,
                                               t: seq<Query>, c: Count)
    requires TermsCount(env, domain, ms, redirects, t, c)
    ensures |t| == c.terms + c.hosts
    decreases |t|, 2 + |ms|
  {
    if ms == [] {
      if |redirects| == 1 {
        var d :| Counts(env, redirects[0], t, d) && c == OneMore(d);
        QueriesCounted(env, redirects[0], t, d);
      }
    } else if Ended(env, domain, ms[0], t) && TermCounts(env, domain, ms[0], t, c) {
      TermQueriesCounted(env, domain, ms[0], t, c);
    } else {
      var k, a, b := CountParts(env, domain, ms, redirects, t, c);
      TermQueriesCounted(env, domain, ms[0], t[..k], a);
      TermsQueriesCounted(env, domain, ms[1..], redirects + RedirectOf(ms[0]), t[k..], b);
    }
  }

  lemma CountParts(env: Env, domain: string, ms: seq<Mechanism>, redirects: seq<string>, t: seq<Query>, c: Count)
    returns (k: nat, a: Count, b: Count)
    requires ms != [] && TermsCount(env, domain, ms, redirects, t, c)
    requires !(Ended(env, domain, ms[0], t) && TermCounts(env, domain, ms[0], t, c))
    ensures k <= |t| && Passes(env, domain, ms[0], t[..k]) && TermCounts(env, domain, ms[0], t[..k], a)
    ensures TermsCount(env, domain, ms[1..], redirects + RedirectOf(ms[0]), t[k..], b) && c == Plus(a, b)
  {
    var n: int;
    n, a, b :| CountsInTwo(env, domain, ms, redirects, t, n, a, b) && c == Plus(a, b);
    k := n;
  }

  // ----- every evaluation has one count -----

  lemma {:induction false} CountOf(env: Env, domain: string, out: Option<SPFResult>, t: seq<Query>) returns (c: Count)
    requires Yields(env, domain, out, t)
    ensures Counts(env, domain, t, c)
    decreases |t|, 0
  {
    c := NOTHING;
    if RecordOf(env, domain).Some? {
      c := TermsCountOf(env, domain, RecordOf(env, domain).value, [], out, t[1..]);
    }
  }

  lemma {:induction false} PassCountOf(env: Env, domain: string, m: Mechanism, t: seq<Query>) returns (c: Count)
    requires Passes(env, domain, m, t)
    ensures TermCounts(env, domain, m, t, c)
    decreases |t|, 1
  {
    if m.kind == Include {
      var r :| Yields(env, m.value, Some(r), t) && !r.authorized;
      var d := CountOf(env, m.value, Some(r), t);
      c := OneMore(d);
    } else {
      c := OwnCount(env, domain, m);
    }
  }

  lemma {:induction false} StopCountOf(env: Env, domain: string, m: Mechanism, out: Option<SPFResult>, t: seq<Query>)
    returns (c: Count)
    requires Stops(env, domain, m, out, t)
    ensures TermCounts(env, domain, m, t, c)
    decreases |t|, 1
  {
    if m.kind == Include {
      var sub := IncludedAnswer(env, domain, m, out, t);
      var d := CountOf(env, m.value, sub, t);
      c := OneMore(d);
    } else {
      c := OwnCount(env, domain, m);
    }
  }

  lemma {:induction false} TermsCountOf(env: Env, domain: string, ms: seq<Mechanism>, redirects: seq<string>,
                                        out: Option<SPFResult>, t: seq<Query>) returns (c: Count)
    requires TermsYield(env, domain, ms, redirects, out, t)
    ensures TermsCount(env, domain, ms, redirects, t, c)
    decreases |t|, 2 + |ms|
  {
    if ms == [] {
      c := NOTHING;
      if |redirects| == 1 {
        var d := CountOf(env, redirects[0], out, t);
        c := OneMore(d);
      }
    } else if Stops(env, domain, ms[0], out, t) {
      c := StopCountOf(env, domain, ms[0], out, t);
      assert Ended(env, domain, ms[0], t);
    } else {
      var k := EndOfPass(env, domain, ms, redirects, out, t);
      var a := PassCountOf(env, domain, ms[0], t[..k]);
      var b := TermsCountOf(env, domain, ms[1..], redirects + RedirectOf(ms[0]), out, t[k..]);
      assert CountsInTwo(env, domain, ms, redirects, t, k, a, b);
      c := Plus(a, b);
    }
  }

  lemma {:induction false} CountsOnce(env: Env, domain: string, t: seq<Query>, c: Count, c': Count)
    requires Counts(env, domain, t, c) && Counts(env, domain, t, c')
    ensures c == c'
    decreases |t|, 0
  {
    if RecordOf(env, domain).Some? {
      TermsCountOnce(env, domain, RecordOf(env, domain).value, [], t[1..], c, c');
    }
  }

  lemma {:induction false} TermCountsOnce(env: Env, domain: string, m: Mechanism, t: seq<Query>, c: Count, c': Count)
    requires TermCounts(env, domain, m, t, c) && TermCounts(env, domain, m, t, c')
    ensures c == c'
    decreases |t|, 1
  {
    if m.kind == Include {
      var d :| Counts(env, m.value, t, d) && c == OneMore(d);
      var d' :| Counts(env, m.value, t, d') && c' == OneMore(d');
      CountsOnce(env, m.value, t, d, d');
    }
  }

  lemma {:induction false} TermsCountOnce(env: Env, domain: string, ms: seq<Mechanism>, redirects: seq<string>,
                                          t: seq<Query>, c: Count, c': Count)
    requires TermsCount(env, domain, ms, redirects, t, c) && TermsCount(env, domain, ms, redirects, t, c')
    ensures c == c'
    decreases |t|, 2 + |ms|
  {
    if ms == [] {
      if |redirects| == 1 {
        var d :| Counts(env, redirects[0], t, d) && c == OneMore(d);
        var d' :| Counts(env, redirects[0], t, d') && c' == OneMore(d');
        CountsOnce(env, redirects[0], t, d, d');
      }
    } else if Ended(env, domain, ms[0], t) {
      EndedNeverPasses(env, domain, ms[0], t);
      TermCountsOnce(env, domain, ms[0], t, c, c');
    } else {
      var k, a, b := CountParts(env, domain, ms, redirects, t, c);
      var k', a', b' := CountParts(env, domain, ms, redirects, t, c');
      PassesOnce(env, domain, ms[0], t[..k], t[..k']);
      assert k == k' by { assert |t[..k]| == |t[..k']|; }
      TermCountsOnce(env, domain, ms[0], t[..k], a, a');
      TermsCountOnce(env, domain, ms[1..], redirects + RedirectOf(ms[0]), t[k..], b, b');
    }
  }

  lemma EndedNeverPasses(env: Env, domain: string, m: Mechanism, t: seq<Query>)
    requires Ended(env, domain, m, t)
    ensures forall k | 0 <= k <= |t| :: !Passes(env, domain, m, t[..k])
  {
    var out :| Stops(env, domain, m, out, t);
    forall k | 0 <= k <= |t|
      ensures !Passes(env, domain, m, t[..k])
    {
      StopsOnce(env, domain, m, out, t, out, t[..k]);
    }
  }

  // What is charged beyond the terms is one lookup for each mail host asked:
  // nothing, then, if and only if none is asked.
  lemma ChargeOfEvaluation(env: Env, domain: string, out: Option<SPFResult>, t: seq<Query>) returns (c: Count)
    requires Yields(env, domain, out, t)
    ensures forall c' :: Counts(env, domain, t, c') <==> c' == c
    ensures |t| - 1 - c.terms == c.hosts
    ensures |t| - 1 == c.terms <==> c.hosts == 0
  {
    c := CountOf(env, domain, out, t);
    QueriesCounted(env, domain, t, c);
    forall c' | Counts(env, domain, t, c')
      ensures c' == c
    {
      CountsOnce(env, domain, t, c, c');
    }
  }

  // ----- the two limits -----

  // The policy settles the matter as r with at most ten terms.
  ghost predicate SettlesByTerms(env: Env, domain: string, r: SPFResult) {
    exists t, c :: Yields(env, domain, Some(r), t) && Counts(env, domain, t, c) && c.terms <= 10
  }

  // On an evaluation the two limits decide differently if and only if its
  // terms are within the limit and its terms and mail hosts together are not.
  lemma LimitsDiffer(env: Env, domain: string, r: SPFResult, t: seq<Query>, c: Count)
    requires Yields(env, domain, Some(r), t) && Counts(env, domain, t, c)
    ensures Settles(env, domain, r) <==> c.terms + c.hosts <= 10
    ensures SettlesByTerms(env, domain, r) <==> c.terms <= 10
    ensures !(Settles(env, domain, r) <==> SettlesByTerms(env, domain, r))
            <==> c.terms <= 10 < c.terms + c.hosts
  {
    QueriesCounted(env, domain, t, c);
    forall t' | Yields(env, domain, Some(r), t')
      ensures t' == t
    {
      YieldsOnce(env, domain, Some(r), t, Some(r), t');
    }
    forall c' | Counts(env, domain, t, c')
      ensures c' == c
    {
      CountsOnce(env, domain, t, c, c');
    }
  }

  // So the code never settles what the documented cap leaves open.
  lemma SettledByTermsToo(env: Env, domain: string, r: SPFResult)
    requires Settles(env, domain, r)
    ensures SettlesByTerms(env, domain, r)
  {
    var t :| Yields(env, domain, Some(r), t) && |t| <= 11;
    var c := CountOf(env, domain, Some(r), t);
    QueriesCounted(env, domain, t, c);
  }

  // ----- records that lead to no mx term -----

  predicate NoMx(ms: seq<Mechanism>) {
    forall m :: m in ms ==> m.kind != Mx
  }

  ghost predicate MxFree(env: Env, zone: iset<string>) {
    Closed(env, zone) && forall d :: d in zone && RecordOf(env, d).Some? ==> NoMx(RecordOf(env, d).value)
  }

  // The terms lead into the zone and none is an mx term.
  predicate LeadInto(ms: seq<Mechanism>, redirects: seq<string>, zone: iset<string>) {
    && NoMx(ms)
    && (forall m :: m in ms && (m.kind == Include || m.kind == Redirect) ==> m.value in zone)
    && (forall target :: target in redirects ==> target in zone)
  }

  lemma RestLeadsInto(ms: seq<Mechanism>, redirects: seq<string>, zone: iset<string>)
    requires ms != [] && LeadInto(ms, redirects, zone)
    ensures LeadInto(ms[1..], redirects + RedirectOf(ms[0]), zone)
  {
  }

  lemma RecordLeadsInto(env: Env, domain: string, zone: iset<string>)
    requires MxFree(env, zone) && domain in zone && RecordOf(env, domain).Some?
    ensures LeadInto(RecordOf(env, domain).value, [], zone)
  {
    forall m | m in RecordOf(env, domain).value && (m.kind == Include || m.kind == Redirect)
      ensures m.value in zone
    {
      assert Names(m, m.value);
    }
  }

  lemma {:induction false} NoHosts(env: Env, zone: iset<string>, domain: string, t: seq<Query>, c: Count)
    requires MxFree(env, zone) && domain in zone && Counts(env, domain, t, c)
    ensures c.hosts == 0
    decreases |t|, 0
  {
    if RecordOf(env, domain).Some? {
      RecordLeadsInto(env, domain, zone);
      NoHostsOfTerms(env, zone, domain, RecordOf(env, domain).value, [], t[1..], c);
    }
  }

  lemma {:induction false} NoHostsOfTerm(env: Env, zone: iset<string>, domain: string, m: Mechanism,
                                         t: seq<Query>, c: Count)
    requires MxFree(env, zone) && m.kind != Mx && (m.kind == Include ==> m.value in zone)
    requires TermCounts(env, domain, m, t, c)
    ensures c.hosts == 0
    decreases |t|, 1
  {
    if m.kind == Include {
      var d :| Counts(env, m.value, t, d) && c == OneMore(d);
      NoHosts(env, zone, m.value, t, d);
    }
  }

  lemma {:induction false} NoHostsOfTerms(env: Env, zone: iset<string>, domain: string,
                                          ms: seq<Mechanism>, redirects: seq<string>, t: seq<Query>, c: Count)
    requires MxFree(env, zone) && LeadInto(ms, redirects, zone)
    requires TermsCount(env, domain, ms, redirects, t, c)
    ensures c.hosts == 0
    decreases |t|, 2 + |ms|
  {
    if ms == [] {
      if |redirects| == 1 {
        var d :| Counts(env, redirects[0], t, d) && c == OneMore(d);
        NoHosts(env, zone, redirects[0], t, d);
      }
    } else if Ended(env, domain, ms[0], t) && TermCounts(env, domain, ms[0], t, c) {
      NoHostsOfTerm(env, zone, domain, ms[0], t, c);
    } else {
      var k, a, b := CountParts(env, domain, ms, redirects, t, c);
      NoHostsOfTerm(env, zone, domain, ms[0], t[..k], a);
      RestLeadsInto(ms, redirects, zone);
      NoHostsOfTerms(env, zone, domain, ms[1..], redirects + RedirectOf(ms[0]), t[k..], b);
    }
  }

  // On records that lead to no mx term the two limits decide alike.
  lemma LimitsAgreeWithoutMx(env: Env, zone: iset<string>, domain: string, r: SPFResult)
    requires MxFree(env, zone) && domain in zone
    ensures Settles(env, domain, r) <==> SettlesByTerms(env, domain, r)
  {
    if Settles(env, domain, r) {
      SettledByTermsToo(env, domain, r);
    }
    if SettlesByTerms(env, domain, r) {
      var t, c :| Yields(env, domain, Some(r), t) && Counts(env, domain, t, c) && c.terms <= 10;
      NoHosts(env, zone, domain, t, c);
      LimitsDiffer(env, domain, r, t, c);
    }
  }

  // ----- one term that exhausts the limit -----

  function HostQueries(hosts: seq<string>): seq<Query> {
    seq(|hosts|, i requires 0 <= i < |hosts| => IpOf(hosts[i]))
  }

  lemma {:induction false} DeadHostsAreAllAsked(env: Env, hosts: seq<string>, cidr: Option<Net>)
    requires forall h :: h in hosts ==> env.ip(h) == None
    ensures MxScan(env, hosts, cidr) == (false, HostQueries(hosts))
  {
    if hosts != [] {
      DeadHostsAreAllAsked(env, hosts[1..], cidr);
      assert HostQueries(hosts) == [IpOf(hosts[0])] + HostQueries(hosts[1..]);
    }
  }

  // The record "v=spf1 mx" with ten or more mail hosts that have no address:
  // a single term, settled by the documented cap and by nothing in the code.
  lemma OneTermExhaustsLimit(env: Env, domain: string, hosts: seq<string>) returns (t: seq<Query>)
    requires env.txt(domain) == Some([PrintRecord([Mechanism('+', Mx, "")])])
    requires env.mx(domain) == Some(hosts) && |hosts| >= 10
    requires forall h :: h in hosts ==> env.ip(h) == None
    ensures Yields(env, domain, Some(SPFResult(false, "")), t) && Counts(env, domain, t, Count(1, |hosts|))
    ensures SettlesByTerms(env, domain, SPFResult(false, ""))
    ensures forall r :: !Settles(env, domain, r)
  {
    t := OneTermEvaluation(env, domain, hosts);
    QueriesCounted(env, domain, t, Count(1, |hosts|));
    forall r, t' | Yields(env, domain, Some(r), t')
      ensures t' == t
    {
      YieldsOnce(env, domain, Some(SPFResult(false, "")), t, Some(r), t');
    }
  }

  lemma NoValueNoHost(env: Env, domain: string)
    ensures AddrHost(env, domain, "") == domain
  {
  }

  lemma MxAsksDeadHosts(env: Env, domain: string, m: Mechanism, hosts: seq<string>)
    requires m.kind == Mx && m.value == ""
    requires env.mx(domain) == Some(hosts) && forall h :: h in hosts ==> env.ip(h) == None
    ensures var qs := [MxOf(domain)] + HostQueries(hosts);
            Passes(env, domain, m, qs) && TermCounts(env, domain, m, qs, Count(1, |hosts|))
  {
    NoValueNoHost(env, domain);
    DeadHostsAreAllAsked(env, hosts, AddrNet(env, ""));
  }

  lemma OneTermEvaluation(env: Env, domain: string, hosts: seq<string>) returns (t: seq<Query>)
    requires env.txt(domain) == Some([PrintRecord([Mechanism('+', Mx, "")])])
    requires env.mx(domain) == Some(hosts) && forall h :: h in hosts ==> env.ip(h) == None
    ensures Yields(env, domain, Some(SPFResult(false, "")), t) && Counts(env, domain, t, Count(1, |hosts|))
  {
    var m := Mechanism('+', Mx, "");
    assert !Contains("", "%{");
    PublishedIsEvaluated(env, domain, [m]);
    var qs := [MxOf(domain)] + HostQueries(hosts);
    MxAsksDeadHosts(env, domain, m, hosts);
    PassedAlone(env, domain, m, qs);
    CountedAlone(env, domain, [m], qs, Count(1, |hosts|));
    t := [TxtOf(domain)] + qs;
    assert t[1..] == qs;
  }

  lemma PassedAlone(env: Env, domain: string, m: Mechanism, qs: seq<Query>)
    requires Passes(env, domain, m, qs) && m.kind != Redirect
    ensures TermsYield(env, domain, [m], [], Some(SPFResult(false, "")), qs)
  {
    AfterPass(env, domain, [m], [], qs, Some(SPFResult(false, "")), qs);
    assert [m][1..] == [] && qs[|qs|..] == [] && [] + RedirectOf(m) == [];
  }

  lemma CountOfLast(env: Env, domain: string, ms: seq<Mechanism>, qs: seq<Query>, c: Count, k: nat)
    requires ms != [] && k == |qs| && qs[..k] == qs && c == Plus(c, NOTHING)
    requires Passes(env, domain, ms[0], qs) && TermCounts(env, domain, ms[0], qs, c)
    requires TermsCount(env, domain, ms[1..], [] + RedirectOf(ms[0]), qs[k..], NOTHING)
    ensures TermsCount(env, domain, ms, [], qs, c)
  {
    assert CountsInTwo(env, domain, ms, [], qs, k, c, NOTHING);
  }

  lemma NothingLeft(env: Env, domain: string, ms: seq<Mechanism>, redirects: seq<string>, t: seq<Query>)
    requires ms == [] && redirects == [] && t == []
    ensures TermsCount(env, domain, ms, redirects, t, NOTHING)
  {
  }

  lemma CountedAlone(env: Env, domain: string, ms: seq<Mechanism>, qs: seq<Query>, c: Count)
    requires |ms| == 1 && ms[0].kind == Mx
    requires Passes(env, domain, ms[0], qs) && TermCounts(env, domain, ms[0], qs, c)
    ensures TermsCount(env, domain, ms, [], qs, c)
  {
    NothingLeft(env, domain, ms[1..], [] + RedirectOf(ms[0]), qs[|qs|..]);
    CountOfLast(env, domain, ms, qs, c, |qs|);
  }
}
