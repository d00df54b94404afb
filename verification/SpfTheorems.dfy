// What follows for sender authority: the role of the budget, the chains of
// records behind an authorization, redirects, and cycles.
module SpfTheorems {
  import opened Text
  import opened SpfRecord
  import opened Spf
  import opened SpfEvaluation

  // ----- the budget decides whether, never what -----

  // A run answers r exactly when r has a derivation that b lookups pay for.
  lemma BudgetDecidesWhether(env: Env, domain: string, b: nat, out: Option<SPFResult>, left: int, t: seq<Query>)
    requires DomainRun(env, domain, b, out, left, t)
    ensures forall r :: out == Some(r) <==> exists t' :: Yields(env, domain, Some(r), t') && |t'| <= 1 + b
  {
    forall r, t' | Yields(env, domain, Some(r), t') && |t'| <= 1 + b
      ensures out == Some(r)
    {
      if left >= 0 {
        YieldsOnce(env, domain, out, t, Some(r), t');
      } else {
        BeginsBeforeEnd(env, domain, t, Some(r), t');
      }
    }
  }

  // With more budget the answer, the queries and their cost are the same.
  lemma LargerBudgetSameAnswer(env: Env, domain: string, b: nat, r: SPFResult, left: int, t: seq<Query>,
                               b': nat, out': Option<SPFResult>, left': int, t': seq<Query>)
    requires DomainRun(env, domain, b, Some(r), left, t)
    requires DomainRun(env, domain, b', out', left', t') && b <= b'
    ensures out' == Some(r) && t' == t && b' - left' == b - left
  {
    if left' >= 0 {
      YieldsOnce(env, domain, Some(r), t, out', t');
    } else {
      BeginsBeforeEnd(env, domain, t', Some(r), t);
    }
  }

  // Whether or not they are cut short, of two runs the one with the smaller
  // budget asks the first queries of the other.
  lemma CutShortIsPrefix(env: Env, domain: string, b: nat, out: Option<SPFResult>, left: int, t: seq<Query>,
                         b': nat, out': Option<SPFResult>, left': int, t': seq<Query>)
    requires DomainRun(env, domain, b, out, left, t)
    requires DomainRun(env, domain, b', out', left', t') && b <= b'
    ensures t <= t' && (left >= 0 ==> left' >= 0)
  {
    if left >= 0 && left' >= 0 {
      YieldsOnce(env, domain, out, t, out', t');
    } else if left < 0 && left' < 0 {
      BeginsOnce(env, domain, t, t');
    } else if left < 0 {
      BeginsBeforeEnd(env, domain, t, out', t');
    } else {
      BeginsBeforeEnd(env, domain, t', out, t);
    }
  }

  // And budget b is refused a lookup exactly when the evaluation has more to
  // ask after 1 + b queries.
  lemma RefusedWhenMoreToAsk(env: Env, domain: string, b: nat, out: Option<SPFResult>, left: int, t: seq<Query>)
    requires DomainRun(env, domain, b, out, left, t)
    ensures left < 0 <==> exists cut :: Begins(env, domain, cut) && |cut| == 1 + b
  {
    forall cut | Begins(env, domain, cut) && |cut| == 1 + b
      ensures left < 0
    {
      if left >= 0 {
        BeginsBeforeEnd(env, domain, cut, out, t);
      }
    }
  }

  // The policy of domain settles the matter as r within the limit.
  ghost predicate Settles(env: Env, domain: string, r: SPFResult) {
    exists t :: Yields(env, domain, Some(r), t) && |t| <= 11
  }

  // CheckSPFAuthority: at most one query and ten more, and ok exactly when
  // the policy settles the matter within them.
  method CheckSPFAuthority(env: Env, target: string, suspect: Option<IP>)
    returns (r: SPFResult, ok: bool, ghost log: seq<Query>)
    ensures suspect.None? ==> !ok && log == []
    ensures |log| <= 11
    ensures suspect.Some? ==>
              forall r' :: (ok && r' == r) <==> Settles(env.(suspect := suspect.value), target, r')
  {
    if suspect.None? {
      return SPFResult(false, ""), false, [];
    }
    var e := new SpfEval(env.(suspect := suspect.value));
    r, ok := e.EvalDomain(target);
    log := e.log;
    assert log[0..] == log;
    BudgetDecidesWhether(e.env, target, SPF_LOOKUP_LIMIT, Outcome(r, ok), e.budget, log);
    assert forall r' :: (ok && r' == r) <==> Outcome(r, ok) == Some(r');
  }

  // ----- walking through a record -----

  function Redirects(ms: seq<Mechanism>): seq<string> {
    if ms == [] then [] else RedirectOf(ms[0]) + Redirects(ms[1..])
  }

  ghost predicate PassedOver(env: Env, domain: string, m: Mechanism) {
    exists t :: Passes(env, domain, m, t)
  }

  // Evaluation of domain's record gets as far as term i.
  ghost predicate Reaches(env: Env, domain: string, i: nat) {
    && RecordOf(env, domain).Some?
    && i <= |RecordOf(env, domain).value|
    && forall j :: 0 <= j < i ==> PassedOver(env, domain, RecordOf(env, domain).value[j])
  }

  lemma {:induction false} RedirectsSnoc(ms: seq<Mechanism>, i: nat)
    requires i < |ms|
    ensures Redirects(ms[..i + 1]) == Redirects(ms[..i]) + RedirectOf(ms[i])
  {
    if i == 0 {
      assert ms[..1][1..] == [];
    } else {
      RedirectsSnoc(ms[1..], i - 1);
      assert ms[..i + 1][1..] == ms[1..][..i] && ms[..i][1..] == ms[1..][..i - 1];
      Associative(RedirectOf(ms[0]), Redirects(ms[..i][1..]), RedirectOf(ms[i]));
    }
  }

  lemma TermsSplit(ms: seq<Mechanism>, i: nat)
    requires i < |ms|
    ensures ms[i..][0] == ms[i] && ms[i..][1..] == ms[i + 1..]
  {
  }

  // From the queries that follow a passed-over prefix to those of the record...
  lemma {:induction false} WalkBack(env: Env, domain: string, ms: seq<Mechanism>, i: nat,
                                    out: Option<SPFResult>, t: seq<Query>) returns (t': seq<Query>)
    requires RecordOf(env, domain) == Some(ms) && Reaches(env, domain, i)
    requires TermsYield(env, domain, ms[i..], Redirects(ms[..i]), out, t)
    ensures Yields(env, domain, out, t')
  {
    if i == 0 {
      t' := [TxtOf(domain)] + t;
      assert ms[0..] == ms && t'[1..] == t;
    } else {
      var q :| Passes(env, domain, ms[i - 1], q);
      TermsSplit(ms, i - 1);
      RedirectsSnoc(ms, i - 1);
      AfterPass(env, domain, ms[i - 1..], Redirects(ms[..i - 1]), q, out, q + t);
      t' := WalkBack(env, domain, ms, i - 1, out, q + t);
    }
  }

  // ...and from the queries of the record to those that follow the prefix.
  lemma {:induction false} WalkTo(env: Env, domain: string, ms: seq<Mechanism>, i: nat,
                                  out: Option<SPFResult>, t: seq<Query>) returns (t': seq<Query>)
    requires RecordOf(env, domain) == Some(ms) && Reaches(env, domain, i)
    requires Yields(env, domain, out, t)
    ensures |t'| < |t| && TermsYield(env, domain, ms[i..], Redirects(ms[..i]), out, t')
  {
    if i == 0 {
      t' := t[1..];
      assert ms[0..] == ms;
    } else {
      t' := WalkTo(env, domain, ms, i - 1, out, t);
      var q :| Passes(env, domain, ms[i - 1], q);
      TermsSplit(ms, i - 1);
      RedirectsSnoc(ms, i - 1);
      AfterPass(env, domain, ms[i - 1..], Redirects(ms[..i - 1]), q, out, t');
      t' := t'[|q|..];
    }
  }

  lemma NextTerm(env: Env, domain: string, ms: seq<Mechanism>, i: nat, out: Option<SPFResult>, t: seq<Query>)
    returns (k: nat)
    requires RecordOf(env, domain) == Some(ms) && Reaches(env, domain, i) && i < |ms|
    requires TermsYield(env, domain, ms[i..], Redirects(ms[..i]), out, t)
    requires !Stops(env, domain, ms[i], out, t)
    ensures k <= |t| && Passes(env, domain, ms[i], t[..k]) && Reaches(env, domain, i + 1)
    ensures TermsYield(env, domain, ms[i + 1..], Redirects(ms[..i + 1]), out, t[k..])
  {
    TermsSplit(ms, i);
    k := EndOfPass(env, domain, ms[i..], Redirects(ms[..i]), out, t);
    RedirectsSnoc(ms, i);
  }

  // ----- authority is a chain of records -----

  // The record of domain sends the evaluation on to another domain, by an
  // include it reaches or by the one redirect of a record without a match.
  ghost predicate Leads(env: Env, domain: string, next: string) {
    exists i: nat :: Reaches(env, domain, i) && LeadsAt(RecordOf(env, domain).value, i, next)
  }

  ghost predicate LeadsAt(ms: seq<Mechanism>, i: nat, next: string)
    requires i <= |ms|
  {
    if i < |ms| then ms[i].kind == Include && ms[i].value == next
    else Redirects(ms) == [next]
  }

  // The record of domain itself passes the suspect: the first of its terms
  // to match is a '+' term that covers the address.
  ghost predicate Grants(env: Env, domain: string) {
    exists i: nat :: Reaches(env, domain, i) && i < |RecordOf(env, domain).value|
                     && GrantsBy(env, domain, RecordOf(env, domain).value[i])
  }

  ghost predicate GrantsBy(env: Env, domain: string, m: Mechanism) {
    m.kind != Include && m.qualifier == '+' && Direct(env, domain, m).0 == Some(true)
  }

  ghost predicate Chain(env: Env, path: seq<string>) {
    && path != []
    && if |path| == 1 then Grants(env, path[0])
       else Leads(env, path[0], path[1]) && Chain(env, path[1..])
  }

  lemma LeadExtendsChain(env: Env, domain: string, i: nat, path: seq<string>)
    requires Reaches(env, domain, i) && Chain(env, path)
    requires LeadsAt(RecordOf(env, domain).value, i, path[0])
    ensures Chain(env, [domain] + path)
  {
    var longer := [domain] + path;
    assert longer[1..] == path && longer[1] == path[0];
    assert Leads(env, domain, path[0]);
  }

  lemma StopGrants(env: Env, domain: string, m: Mechanism, r: SPFResult, t: seq<Query>)
    requires Stops(env, domain, m, Some(r), t) && r.authorized && m.kind != Include
    ensures GrantsBy(env, domain, m)
  {
    assert Direct(env, domain, m).0.value;
  }

  lemma GrantIsChain(env: Env, domain: string, i: nat)
    requires Reaches(env, domain, i) && i < |RecordOf(env, domain).value|
    requires GrantsBy(env, domain, RecordOf(env, domain).value[i])
    ensures Chain(env, [domain])
  {
  }

  lemma LoneRedirect(env: Env, domain: string, redirects: seq<string>, r: SPFResult, t: seq<Query>)
    requires TermsYield(env, domain, [], redirects, Some(r), t) && r.authorized
    ensures |redirects| == 1 && Yields(env, redirects[0], Some(r), t)
  {
  }

  lemma {:induction false} AuthorizedByChain(env: Env, domain: string, r: SPFResult, t: seq<Query>)
    returns (path: seq<string>)
    requires Yields(env, domain, Some(r), t) && r.authorized
    ensures Chain(env, path) && path[0] == domain && |path| <= |t|
    decreases |t|, 0
  {
    var ms := RecordOf(env, domain).value;
    assert ms[0..] == ms && ms[..0] == [];
    path := TermsChain(env, domain, ms, 0, r, t[1..]);
  }

  lemma {:induction false} TermsChain(env: Env, domain: string, ms: seq<Mechanism>, i: nat, r: SPFResult, t: seq<Query>)
    returns (path: seq<string>)
    requires RecordOf(env, domain) == Some(ms) && Reaches(env, domain, i)
    requires TermsYield(env, domain, ms[i..], Redirects(ms[..i]), Some(r), t) && r.authorized
    ensures Chain(env, path) && path[0] == domain && |path| <= 1 + |t|
    decreases |t|, 1 + |ms| - i
  {
    if i == |ms| {
      assert ms[..i] == ms && ms[i..] == [];
      LoneRedirect(env, domain, Redirects(ms), r, t);
      path := AuthorizedByChain(env, Redirects(ms)[0], r, t);
      LeadExtendsChain(env, domain, i, path);
      return [domain] + path;
    }
    if !Stops(env, domain, ms[i], Some(r), t) {
      var k := NextTerm(env, domain, ms, i, Some(r), t);
      path := TermsChain(env, domain, ms, i + 1, r, t[k..]);
    } else if ms[i].kind == Include {
      var sub := IncludedAnswer(env, domain, ms[i], Some(r), t);
      path := AuthorizedByChain(env, ms[i].value, sub.value, t);
      LeadExtendsChain(env, domain, i, path);
      return [domain] + path;
    } else {
      StopGrants(env, domain, ms[i], r, t);
      GrantIsChain(env, domain, i);
      return [domain];
    }
  }

  lemma GrantAuthorizes(env: Env, domain: string) returns (r: SPFResult, t: seq<Query>)
    requires Grants(env, domain)
    ensures Yields(env, domain, Some(r), t) && r.authorized
  {
    var ms := RecordOf(env, domain).value;
    var i: nat :| Reaches(env, domain, i) && i < |ms| && GrantsBy(env, domain, ms[i]);
    r := SPFResult(true, Cover(ms[i]));
    t := Direct(env, domain, ms[i]).1;
    TermsSplit(ms, i);
    assert Stops(env, domain, ms[i], Some(r), t);
    t := WalkBack(env, domain, ms, i, Some(r), t);
  }

  lemma LeadAuthorizes(env: Env, domain: string, next: string, sub: SPFResult, qs: seq<Query>)
    returns (r: SPFResult, t: seq<Query>)
    requires Leads(env, domain, next) && Yields(env, next, Some(sub), qs) && sub.authorized
    ensures Yields(env, domain, Some(r), t) && r.authorized
  {
    var ms := RecordOf(env, domain).value;
    var i: nat :| Reaches(env, domain, i) && LeadsAt(ms, i, next);
    if i < |ms| {
      r := SPFResult(true, "include:" + next);
      TermsSplit(ms, i);
      assert Stops(env, domain, ms[i], Some(r), qs);
    } else {
      r := sub;
      assert ms[i..] == [] && ms[..i] == ms;
    }
    t := WalkBack(env, domain, ms, i, Some(r), qs);
  }

  lemma {:induction false} ChainAuthorizes(env: Env, path: seq<string>) returns (r: SPFResult, t: seq<Query>)
    requires Chain(env, path)
    ensures Yields(env, path[0], Some(r), t) && r.authorized
  {
    if |path| == 1 {
      r, t := GrantAuthorizes(env, path[0]);
    } else {
      var sub, qs := ChainAuthorizes(env, path[1..]);
      r, t := LeadAuthorizes(env, path[0], path[1], sub, qs);
    }
  }

  ghost predicate Authorizes(env: Env, domain: string) {
    exists r, t :: Yields(env, domain, Some(r), t) && r.authorized
  }

  ghost predicate HasChain(env: Env, domain: string) {
    exists path :: Chain(env, path) && path[0] == domain
  }

  lemma ChainSuffices(env: Env, domain: string, path: seq<string>)
    requires Chain(env, path) && path[0] == domain
    ensures Authorizes(env, domain)
  {
    var r, t := ChainAuthorizes(env, path);
  }

  lemma ChainNecessary(env: Env, domain: string, r: SPFResult, t: seq<Query>)
    requires Yields(env, domain, Some(r), t) && r.authorized
    ensures HasChain(env, domain)
  {
    var path := AuthorizedByChain(env, domain, r, t);
  }

  // Some evaluation authorizes the suspect exactly when a chain of includes
  // and redirects leads from the target to a record that passes it.
  lemma AuthorityIsAChain(env: Env, domain: string)
    ensures Authorizes(env, domain) <==> HasChain(env, domain)
  {
    if Authorizes(env, domain) {
      var r, t :| Yields(env, domain, Some(r), t) && r.authorized;
      ChainNecessary(env, domain, r, t);
    }
    if HasChain(env, domain) {
      var path :| Chain(env, path) && path[0] == domain;
      ChainSuffices(env, domain, path);
    }
  }

  // Within the limit the chain has at most ten links.
  lemma AuthorizedWithinLimit(env: Env, domain: string, r: SPFResult, left: int, t: seq<Query>)
    returns (path: seq<string>)
    requires DomainRun(env, domain, SPF_LOOKUP_LIMIT, Some(r), left, t) && r.authorized
    ensures Chain(env, path) && path[0] == domain && |path| - 1 <= 10
  {
    path := AuthorizedByChain(env, domain, r, t);
  }

  // The suspect is in what the value of an ip4 or ip6 term writes.
  predicate Written(env: Env, value: string) {
    if '/' in value then
      var net := env.parseCIDR(value);
      net.Some? && net.value.v6 == env.suspect.v6 && net.value.prefix <= env.suspect.bits
    else
      env.parseIP(TrimSpace(value)) == Some(env.suspect)
  }

  lemma SecondTermDenies(env: Env, domain: string, m: Mechanism, all: Mechanism)
    requires Passes(env, domain, m, []) && m.kind != Redirect && all == Mechanism('-', All, "")
    ensures TermsYield(env, domain, [m, all], [], Some(SPFResult(false, "")), [])
  {
    var out := Some(SPFResult(false, ""));
    AfterPass(env, domain, [m, all], [], [], out, []);
    assert [m, all][1..] == [all] && [] + RedirectOf(m) == [];
    assert Stops(env, domain, all, out, []);
  }

  // What a record "v=spf1 ip4:... -all" means, from its text: with '+' it
  // authorizes exactly the suspects in what the term writes.
  lemma PublishedNetDecides(env: Env, domain: string, m: Mechanism)
    requires (m.kind == Ip4 || m.kind == Ip6) && Printable(m)
    requires env.txt(domain) == Some([PrintRecord([m, Mechanism('-', All, "")])])
    ensures Authorizes(env, domain) <==> m.qualifier == '+' && Written(env, m.value)
    ensures Settles(env, domain,
              if Written(env, m.value) then SPFResult(m.qualifier == '+', Cover(m)) else SPFResult(false, ""))
  {
    var all := Mechanism('-', All, "");
    var r := if Written(env, m.value) then SPFResult(m.qualifier == '+', Cover(m)) else SPFResult(false, "");
    assert !Contains("", "%{");
    PublishedIsEvaluated(env, domain, [m, all]);
    NetMatchIsExact(env, domain, m);
    var t := [TxtOf(domain)];
    assert t[1..] == [];
    if Written(env, m.value) {
      assert Stops(env, domain, [m, all][0], Some(r), []);
    } else {
      SecondTermDenies(env, domain, m, all);
    }
    assert Yields(env, domain, Some(r), t);
    forall r', t' | Yields(env, domain, Some(r'), t')
      ensures r' == r
    {
      YieldsOnce(env, domain, Some(r), t, Some(r'), t');
    }
  }

  // ----- cycles -----

  // A record that leads on has an answer only if the next record has one,
  // with fewer queries.
  lemma LeadNeedsAnswer(env: Env, domain: string, next: string, out: Option<SPFResult>, t: seq<Query>)
    returns (sub: Option<SPFResult>, qs: seq<Query>)
    requires Leads(env, domain, next) && Yields(env, domain, out, t)
    ensures Yields(env, next, sub, qs) && |qs| < |t|
  {
    var ms := RecordOf(env, domain).value;
    var i: nat :| Reaches(env, domain, i) && LeadsAt(ms, i, next);
    var t' := WalkTo(env, domain, ms, i, out, t);
    if i == |ms| {
      assert ms[..i] == ms;
      return out, t';
    }
    TermsSplit(ms, i);
    if Stops(env, domain, ms[i], out, t') {
      sub := IncludedAnswer(env, domain, ms[i], out, t');
      qs := t';
    } else {
      var k := EndOfPass(env, domain, ms[i..], Redirects(ms[..i]), out, t');
      var r :| Yields(env, next, Some(r), t'[..k]);
      return Some(r), t'[..k];
    }
  }

  ghost predicate LeadsWithin(env: Env, domain: string, cycle: set<string>) {
    exists next :: next in cycle && Leads(env, domain, next)
  }

  // When every record of a set leads back into the set, none has an answer.
  lemma {:induction false} CycleNeverAnswers(env: Env, cycle: set<string>, domain: string,
                                             out: Option<SPFResult>, t: seq<Query>)
    requires forall d :: d in cycle ==> LeadsWithin(env, d, cycle)
    requires domain in cycle
    ensures !Yields(env, domain, out, t)
    decreases |t|
  {
    if Yields(env, domain, out, t) {
      assert LeadsWithin(env, domain, cycle);
      var next :| next in cycle && Leads(env, domain, next);
      var sub, qs := LeadNeedsAnswer(env, domain, next, out, t);
      CycleNeverAnswers(env, cycle, next, sub, qs);
    }
  }

  // Whatever the budget, it runs out.
  lemma CycleIsInconclusive(env: Env, cycle: set<string>, domain: string,
                            b: nat, out: Option<SPFResult>, left: int, t: seq<Query>)
    requires forall d :: d in cycle ==> LeadsWithin(env, d, cycle)
    requires domain in cycle && DomainRun(env, domain, b, out, left, t)
    ensures out == None && left == -1
  {
    CycleNeverAnswers(env, cycle, domain, out, t);
  }

  // The smallest cycles: a record that starts by including itself, or only
  // redirects to itself.
  lemma SelfReferenceIsInconclusive(env: Env, domain: string, ms: seq<Mechanism>,
                                    b: nat, out: Option<SPFResult>, left: int, t: seq<Query>)
    requires RecordOf(env, domain) == Some(ms) && ms != [] && ms[0].value == domain
    requires ms[0].kind == Include || (ms[0].kind == Redirect && |ms| == 1)
    requires DomainRun(env, domain, b, out, left, t)
    ensures out == None && left == -1
  {
    var i := if ms[0].kind == Include then 0 else 1;
    if i == 1 {
      assert Passes(env, domain, ms[0], []);
      assert ms[1..] == [];
    }
    assert Reaches(env, domain, i) && LeadsAt(ms, i, domain);
    assert Leads(env, domain, domain);
    assert LeadsWithin(env, domain, {domain});
    CycleIsInconclusive(env, {domain}, domain, b, out, left, t);
  }

  // ----- redirects: section 6.1 of RFC 7208 -----

  function Others(ms: seq<Mechanism>): seq<Mechanism> {
    if ms == [] then []
    else (if ms[0].kind == Redirect then [] else [ms[0]]) + Others(ms[1..])
  }

  // A record means the same with its redirects moved to the end.
  lemma {:induction false} RedirectsLast(env: Env, domain: string, ms: seq<Mechanism>, redirects: seq<string>,
                                         out: Option<SPFResult>, t: seq<Query>)
    ensures TermsYield(env, domain, ms, redirects, out, t)
            <==> TermsYield(env, domain, Others(ms), redirects + Redirects(ms), out, t)
    decreases |ms|
  {
    if ms == [] {
      assert redirects + [] == redirects;
    } else {
      var m, rest := ms[0], ms[1..];
      Associative(redirects, RedirectOf(m), Redirects(rest));
      if m.kind == Redirect {
        AfterPass(env, domain, ms, redirects, [], out, t);
        assert t[0..] == t && Others(ms) == Others(rest);
        RedirectsLast(env, domain, rest, redirects + [m.value], out, t);
      } else {
        var os := Others(ms);
        assert os[0] == m && os[1..] == Others(rest);
        assert redirects + RedirectOf(m) == redirects && RedirectOf(m) + Redirects(rest) == Redirects(rest);
        var all := redirects + Redirects(ms);
        assert all + RedirectOf(m) == all;
        forall k | 0 <= k <= |t|
          ensures TermsYield(env, domain, rest, redirects, out, t[k..])
                  <==> TermsYield(env, domain, Others(rest), all, out, t[k..])
        {
          RedirectsLast(env, domain, rest, redirects, out, t[k..]);
        }
      }
    }
  }

  // Hence where the redirects stand does not matter.
  lemma RedirectPositionIrrelevant(env: Env, domain: string, ms: seq<Mechanism>, ms': seq<Mechanism>,
                                   out: Option<SPFResult>, t: seq<Query>)
    requires Others(ms) == Others(ms') && Redirects(ms) == Redirects(ms')
    ensures TermsYield(env, domain, ms, [], out, t) <==> TermsYield(env, domain, ms', [], out, t)
  {
    RedirectsLast(env, domain, ms, [], out, t);
    RedirectsLast(env, domain, ms', [], out, t);
  }

  // One term that never passes, such as `all` or a match, and the redirects
  // are of no consequence.
  lemma {:induction false} RedirectNeedsNoMatch(env: Env, domain: string, ms: seq<Mechanism>, i: nat,
                                                redirects: seq<string>, redirects': seq<string>,
                                                out: Option<SPFResult>, t: seq<Query>)
    requires i < |ms| && !PassedOver(env, domain, ms[i])
    ensures TermsYield(env, domain, ms, redirects, out, t) <==> TermsYield(env, domain, ms, redirects', out, t)
    decreases i
  {
    if i > 0 {
      forall k | 0 <= k <= |t|
        ensures TermsYield(env, domain, ms[1..], redirects + RedirectOf(ms[0]), out, t[k..])
                <==> TermsYield(env, domain, ms[1..], redirects' + RedirectOf(ms[0]), out, t[k..])
      {
        RedirectNeedsNoMatch(env, domain, ms[1..], i - 1,
          redirects + RedirectOf(ms[0]), redirects' + RedirectOf(ms[0]), out, t[k..]);
      }
    }
  }

  lemma {:induction false} StaysAmongOthers(ms: seq<Mechanism>, i: nat) returns (j: nat)
    requires i < |ms| && ms[i].kind != Redirect
    ensures j < |Others(ms)| && Others(ms)[j] == ms[i]
  {
    if i == 0 {
      j := 0;
    } else {
      j := StaysAmongOthers(ms[1..], i - 1);
      if ms[0].kind != Redirect {
        j := j + 1;
      }
    }
  }

  // So two records with such a term, which differ in their redirects only,
  // however many and wherever they are, mean the same.
  lemma RedirectsWithoutInfluence(env: Env, domain: string, ms: seq<Mechanism>, ms': seq<Mechanism>, i: nat,
                                  out: Option<SPFResult>, t: seq<Query>)
    requires Others(ms) == Others(ms')
    requires i < |ms| && !PassedOver(env, domain, ms[i])
    ensures TermsYield(env, domain, ms, [], out, t) <==> TermsYield(env, domain, ms', [], out, t)
  {
    if ms[i].kind == Redirect {
      assert Passes(env, domain, ms[i], []);
    } else {
      var j := StaysAmongOthers(ms, i);
      RedirectsLast(env, domain, ms, [], out, t);
      RedirectsLast(env, domain, ms', [], out, t);
      RedirectNeedsNoMatch(env, domain, Others(ms), j, [] + Redirects(ms), [] + Redirects(ms'), out, t);
    }
  }

  lemma AllNeverPasses(env: Env, domain: string, m: Mechanism)
    requires m.kind == All
    ensures !PassedOver(env, domain, m)
  {
  }

  // A record that contains `all` never follows a redirect.
  lemma AllSilencesRedirects(env: Env, domain: string, ms: seq<Mechanism>, ms': seq<Mechanism>, i: nat,
                             out: Option<SPFResult>, t: seq<Query>)
    requires Others(ms) == Others(ms') && i < |ms| && ms[i].kind == All
    ensures TermsYield(env, domain, ms, [], out, t) <==> TermsYield(env, domain, ms', [], out, t)
  {
    AllNeverPasses(env, domain, ms[i]);
    RedirectsWithoutInfluence(env, domain, ms, ms', i, out, t);
  }

  // Some evaluation of domain ends in out.
  ghost predicate Concludes(env: Env, domain: string, out: Option<SPFResult>) {
    exists t :: Yields(env, domain, out, t)
  }

  // What a record without a match answers, by its redirects.
  ghost predicate RedirectConcludes(env: Env, targets: seq<string>, out: Option<SPFResult>) {
    if |targets| == 1 then Concludes(env, targets[0], out)
    else out == if targets == [] then Some(SPFResult(false, "")) else None
  }

  // A record without a match has the answers of its redirect if it has one,
  // denial if it has none, and is inconclusive if it has several.
  lemma NoMatchMeansRedirect(env: Env, domain: string, ms: seq<Mechanism>, out: Option<SPFResult>)
    requires RecordOf(env, domain) == Some(ms) && Reaches(env, domain, |ms|)
    ensures Concludes(env, domain, out) <==> RedirectConcludes(env, Redirects(ms), out)
  {
    var targets := Redirects(ms);
    assert ms[..|ms|] == ms && ms[|ms|..] == [];
    if Concludes(env, domain, out) {
      var t :| Yields(env, domain, out, t);
      var t' := WalkTo(env, domain, ms, |ms|, out, t);
    }
    if RedirectConcludes(env, targets, out) {
      var t: seq<Query> := [];
      if |targets| == 1 {
        t :| Yields(env, targets[0], out, t);
      }
      var t' := WalkBack(env, domain, ms, |ms|, out, t);
    }
  }
}
