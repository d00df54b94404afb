// internal/dns/spf.go: the evaluator itself, with its lookup budget, proved
// against the budget-free meaning in module Spf.
module SpfEvaluation {
  import opened Text
  import opened SpfRecord
  import opened Spf

  // Section 4.6.4 of RFC 7208.
  const SPF_LOOKUP_LIMIT: nat := 10

  function Outcome(r: SPFResult, ok: bool): Option<SPFResult> {
    if ok then Some(r) else None
  }

  // What evaluating a domain with a budget of b >= 0 does: it asks the
  // queries t, leaves the budget at left, and ends in out. Either the budget
  // held and t is the complete evaluation, one lookup spent for each query
  // but the first; or the spend after b lookups was refused, and t is the
  // beginning of the evaluation that b lookups pay for.
  ghost predicate DomainRun(env: Env, domain: string, b: nat, out: Option<SPFResult>, left: int, t: seq<Query>) {
    if left >= 0 then
      Yields(env, domain, out, t) && |t| == 1 + b - left
    else
      left == -1 && out == None && |t| == 1 + b && Begins(env, domain, t)
  }

  // The same of the terms still to come, with the redirects met so far.
  ghost predicate TermsRun(env: Env, domain: string, ms: seq<Mechanism>, redirects: seq<string>,
                           b: nat, out: Option<SPFResult>, left: int, t: seq<Query>) {
    if left >= 0 then
      TermsYield(env, domain, ms, redirects, out, t) && |t| == b - left
    else
      left == -1 && out == None && |t| == b && TermsBegin(env, domain, ms, redirects, t)
  }

  // After the queries used, the terms in rest are what is left to run of ms.
  ghost predicate Remains(env: Env, domain: string, ms: seq<Mechanism>, used: seq<Query>,
                          rest: seq<Mechanism>, redirects: seq<string>) {
    forall b: nat, out, left, t {:trigger TermsRun(env, domain, rest, redirects, b, out, left, t), used + t} ::
      TermsRun(env, domain, rest, redirects, b, out, left, t)
      ==> TermsRun(env, domain, ms, [], |used| + b, out, left, used + t)
  }

  lemma RemainsAtStart(env: Env, domain: string, ms: seq<Mechanism>)
    ensures Remains(env, domain, ms, [], ms[0..], [])
  {
    assert ms[0..] == ms;
    forall t: seq<Query>
      ensures [] + t == t
    {
    }
  }

  // A term that lets the evaluation go on, and how the others then run.
  lemma RunAfterPass(env: Env, domain: string, ms: seq<Mechanism>, redirects: seq<string>, qs: seq<Query>,
                     b: nat, out: Option<SPFResult>, left: int, t: seq<Query>)
    requires ms != [] && Passes(env, domain, ms[0], qs)
    requires TermsRun(env, domain, ms[1..], redirects + RedirectOf(ms[0]), b, out, left, t)
    ensures TermsRun(env, domain, ms, redirects, |qs| + b, out, left, qs + t)
  {
    assert (qs + t)[..|qs|] == qs && (qs + t)[|qs|..] == t;
  }

  lemma RemainsAfterPass(env: Env, domain: string, ms: seq<Mechanism>, used: seq<Query>,
                         rest: seq<Mechanism>, redirects: seq<string>, qs: seq<Query>)
    requires Remains(env, domain, ms, used, rest, redirects) && rest != []
    requires Passes(env, domain, rest[0], qs)
    ensures Remains(env, domain, ms, used + qs, rest[1..], redirects + RedirectOf(rest[0]))
  {
    forall b: nat, out, left, t | TermsRun(env, domain, rest[1..], redirects + RedirectOf(rest[0]), b, out, left, t)
      ensures TermsRun(env, domain, ms, [], |used + qs| + b, out, left, (used + qs) + t)
    {
      RunAfterPass(env, domain, rest, redirects, qs, b, out, left, t);
      Associative(used, qs, t);
    }
  }

  // What running one term with a budget of b does: done says whether it
  // ends the evaluation.
  ghost predicate TermRun(env: Env, domain: string, m: Mechanism, b: nat, done: bool, out: Option<SPFResult>,
                          left: int, t: seq<Query>) {
    if left >= 0 then
      |t| == b - left && if done then Stops(env, domain, m, out, t) else Passes(env, domain, m, t)
    else
      left == -1 && done && out == None && |t| == b && TermBegins(env, domain, m, t)
  }

  lemma DomainRunFromTerms(env: Env, domain: string, b: nat, out: Option<SPFResult>, left: int, t: seq<Query>)
    requires RecordOf(env, domain).Some?
    requires TermsRun(env, domain, RecordOf(env, domain).value, [], b, out, left, t)
    ensures DomainRun(env, domain, b, out, left, [TxtOf(domain)] + t)
  {
    assert ([TxtOf(domain)] + t)[1..] == t;
  }

  lemma MxScanStep(env: Env, hosts: seq<string>, cidr: Option<Net>, asked: seq<Query>)
    requires hosts != []
    ensures var addrs, scan, rest := env.ip(hosts[0]), MxScan(env, hosts, cidr), MxScan(env, hosts[1..], cidr);
            |scan.1| > 0 &&
            if addrs.Some? && AddrCovered(env, addrs.value, cidr)
            then scan.0 && asked + scan.1 == asked + [IpOf(hosts[0])]
            else scan.0 == rest.0 && asked + scan.1 == asked + [IpOf(hosts[0])] + rest.1
  {
    Associative(asked, [IpOf(hosts[0])], MxScan(env, hosts[1..], cidr).1);
  }

  class SpfEval {
    const env: Env
    var budget: int
    ghost var log: seq<Query>

    constructor (env: Env)
      ensures this.env == env && budget == SPF_LOOKUP_LIMIT && log == []
    {
      this.env := env;
      budget := SPF_LOOKUP_LIMIT;
      log := [];
    }

    // Nothing is spent or asked once a spend has been refused.
    method Spend(n: nat) returns (granted: bool)
      requires budget >= 0
      modifies this`budget
      ensures budget == old(budget) - n
      ensures granted <==> budget >= 0
    {
      budget := budget - n;
      granted := budget >= 0;
    }

    method LookupTXT(name: string) returns (txts: Option<seq<string>>)
      requires budget >= 0
      modifies this`log
      ensures log == old(log) + [TxtOf(name)] && txts == env.txt(name)
    {
      log := log + [TxtOf(name)];
      txts := env.txt(name);
    }

    method LookupIP(name: string) returns (addrs: Option<seq<IP>>)
      requires budget >= 0
      modifies this`log
      ensures log == old(log) + [IpOf(name)] && addrs == env.ip(name)
    {
      log := log + [IpOf(name)];
      addrs := env.ip(name);
    }

    method LookupMX(name: string) returns (hosts: Option<seq<string>>)
      requires budget >= 0
      modifies this`log
      ensures log == old(log) + [MxOf(name)] && hosts == env.mx(name)
    {
      log := log + [MxOf(name)];
      hosts := env.mx(name);
    }

    method Covered(addrs: seq<IP>, cidr: Option<Net>) returns (covered: bool)
      ensures covered == AddrCovered(env, addrs, cidr)
    {
      for i := 0 to |addrs|
        invariant forall j :: 0 <= j < i ==> !AddrMatches(env, addrs[j], cidr)
      {
        var a := addrs[i];
        assert a in addrs;
        if a.v6 != env.suspect.v6 {
          continue;
        }
        if cidr.Some? {
          if Within(cidr.value, a) && Within(cidr.value, env.suspect) {
            return true;
          }
          continue;
        }
        if a == env.suspect {
          return true;
        }
      }
      return false;
    }

    // An a or mx term asks the queries of Direct while the budget lasts.
    method EvalAddrMech(domain: string, m: Mechanism) returns (matched: bool, ok: bool)
      requires budget >= 0
      requires m.kind == A || m.kind == Mx
      modifies this
      ensures var (hit, qs) := Direct(env, domain, m);
              if |qs| <= old(budget) then
                hit == (if ok then Some(matched) else None)
                && budget == old(budget) - |qs| && log == old(log) + qs
              else
                !ok && budget == -1 && log == old(log) + qs[..old(budget)]
    {
      var dual := SplitDualCIDR(env, m.value);
      var host := if dual.host == "" then domain else dual.host;
      var cidr := if env.suspect.v6 then dual.cidr6 else dual.cidr4;
      var granted := Spend(1);
      if !granted {
        return false, false;
      }
      if m.kind == A {
        var addrs := LookupIP(host);
        if addrs.None? {
          return false, false;
        }
        matched := Covered(addrs.value, cidr);
        return matched, true;
      }
      var hosts := LookupMX(host);
      if hosts.None? {
        return false, false;
      }
      ghost var scan := MxScan(env, hosts.value, cidr).1;
      matched, ok := ScanHosts(hosts.value, cidr);
      if budget >= 0 {
        Associative(old(log), [MxOf(host)], scan);
      } else {
        var asked := scan[..old(budget) - 1];
        Associative(old(log), [MxOf(host)], asked);
        assert ([MxOf(host)] + scan)[..old(budget)] == [MxOf(host)] + asked;
      }
    }

    method ScanHosts(hosts: seq<string>, cidr: Option<Net>) returns (matched: bool, ok: bool)
      requires budget >= 0
      modifies this
      ensures var (hit, qs) := MxScan(env, hosts, cidr);
              if |qs| <= old(budget) then
                ok && matched == hit && budget == old(budget) - |qs| && log == old(log) + qs
              else
                !ok && budget == -1 && log == old(log) + qs[..old(budget)]
    {
      ghost var asked: seq<Query> := [];
      ghost var all := MxScan(env, hosts, cidr);
      assert hosts[0..] == hosts && asked + all.1 == all.1;
      for i := 0 to |hosts|
        invariant budget == old(budget) - |asked| >= 0 && log == old(log) + asked
        invariant all.0 == MxScan(env, hosts[i..], cidr).0
        invariant all.1 == asked + MxScan(env, hosts[i..], cidr).1
      {
        ghost var q := IpOf(hosts[i]);
        MxScanStep(env, hosts[i..], cidr, asked);
        assert hosts[i..][1..] == hosts[i + 1..];
        var granted := Spend(1);
        if !granted {
          assert all.1[..old(budget)] == asked;
          return false, false;
        }
        var addrs := LookupIP(hosts[i]);
        asked := asked + [q];
        if addrs.Some? {
          var covered := Covered(addrs.value, cidr);
          if covered {
            return true, true;
          }
        }
      }
      return false, true;
    }

    static method SelectRecords(txts: seq<string>) returns (records: seq<string>)
      ensures records == SpfRecords(txts)
    {
      records := [];
      for i := 0 to |txts|
        invariant records == SpfRecords(txts[..i])
      {
        assert txts[..i + 1][..i] == txts[..i];
        if IsSpfRecord(txts[i]) {
          records := records + [txts[i]];
        }
      }
      assert txts[..|txts|] == txts;
    }

    // The lookup and the parser; the budget is not touched.
    method FetchRecord(domain: string) returns (mechs: seq<Mechanism>, found: bool)
      requires budget >= 0
      modifies this`log
      ensures log == old(log) + [TxtOf(domain)]
      ensures RecordOf(env, domain) == if found then Some(mechs) else None
    {
      var txts := LookupTXT(domain);
      if txts.None? {
        return [], false;
      }
      var records := SelectRecords(txts.value);
      if |records| != 1 {
        return [], false;
      }
      mechs, found := ParseSPFRecord(records[0]);
    }

    // Cyclic records are no obstacle: every nested record costs a lookup.
    method EvalDomain(domain: string) returns (r: SPFResult, ok: bool)
      requires budget >= 0
      modifies this
      ensures old(log) <= log
      ensures DomainRun(env, domain, old(budget), Outcome(r, ok), budget, log[|old(log)|..])
      decreases budget, 3
    {
      var mechs, found := FetchRecord(domain);
      if !found {
        assert log[|old(log)|..] == [TxtOf(domain)];
        return SPFResult(false, ""), false;
      }
      label terms:
      r, ok := EvalMechanisms(domain, mechs);
      ghost var t := log[|old@terms(log)|..];
      assert log[|old(log)|..] == [TxtOf(domain)] + t;
      DomainRunFromTerms(env, domain, old(budget), Outcome(r, ok), budget, t);
    }

    // One turn of the loop over a record's terms.
    method EvalTerm(domain: string, m: Mechanism) returns (done: bool, r: SPFResult, ok: bool)
      requires budget >= 0
      modifies this
      ensures old(log) <= log
      ensures TermRun(env, domain, m, old(budget), done, Outcome(r, ok), budget, log[|old(log)|..])
      decreases budget, 1
    {
      r, ok := SPFResult(false, ""), false;
      assert log[|old(log)|..] == [];
      match m.kind {
        case All =>
          return true, SPFResult(m.qualifier == '+', ""), true;
        case Ip4 =>
          if !InNet(env, m.value) {
            return false, r, ok;
          }
          return true, SPFResult(m.qualifier == '+', "ip4:" + m.value), true;
        case Ip6 =>
          if !InNet(env, m.value) {
            return false, r, ok;
          }
          return true, SPFResult(m.qualifier == '+', "ip6:" + m.value), true;
        case A =>
          done, r, ok := EvalAddrTerm(domain, m);
        case Mx =>
          done, r, ok := EvalAddrTerm(domain, m);
        case Include =>
          done, r, ok := EvalInclude(domain, m);
        case Redirect =>
          return false, r, ok;
        case Exists =>
          return false, r, ok;
        case Unknown =>
          return false, r, ok;
      }
    }

    method EvalAddrTerm(domain: string, m: Mechanism) returns (done: bool, r: SPFResult, ok: bool)
      requires budget >= 0
      requires m.kind == A || m.kind == Mx
      modifies this
      ensures old(log) <= log
      ensures TermRun(env, domain, m, old(budget), done, Outcome(r, ok), budget, log[|old(log)|..])
    {
      var matched, found := EvalAddrMech(domain, m);
      if !found {
        return true, SPFResult(false, ""), false;
      }
      if !matched {
        return false, SPFResult(false, ""), false;
      }
      return true, SPFResult(m.qualifier == '+', Cover(m)), true;
    }

    method EvalInclude(domain: string, m: Mechanism) returns (done: bool, r: SPFResult, ok: bool)
      requires budget >= 0
      requires m.kind == Include
      modifies this
      ensures old(log) <= log
      ensures TermRun(env, domain, m, old(budget), done, Outcome(r, ok), budget, log[|old(log)|..])
      decreases budget, 0
    {
      var granted := Spend(1);
      if !granted {
        return true, SPFResult(false, ""), false;
      }
      var sub, found := EvalDomain(m.value);
      if !found {
        return true, SPFResult(false, ""), false;
      }
      if !sub.authorized {
        return false, SPFResult(false, ""), false;
      }
      return true, SPFResult(true, "include:" + m.value), true;
    }

    method EvalMechanisms(domain: string, mechs: seq<Mechanism>) returns (r: SPFResult, ok: bool)
      requires budget >= 0
      modifies this
      ensures old(log) <= log
      ensures TermsRun(env, domain, mechs, [], old(budget), Outcome(r, ok), budget, log[|old(log)|..])
      decreases budget, 2
    {
      var redirects, redirectTarget := 0, "";
      ghost var targets: seq<string> := [];
      ghost var used: seq<Query> := [];
      RemainsAtStart(env, domain, mechs);
      for i := 0 to |mechs|
        invariant redirects == |targets|
        invariant redirects > 0 ==> redirectTarget == targets[|targets| - 1]
        invariant log == old(log) + used && budget == old(budget) - |used| >= 0
        invariant Remains(env, domain, mechs, used, mechs[i..], targets)
      {
        ghost var rest := mechs[i..];
        assert rest[0] == mechs[i] && rest[1..] == mechs[i + 1..];
        label term:
        var done;
        done, r, ok := EvalTerm(domain, mechs[i]);
        ghost var qs := log[|old@term(log)|..];
        assert log[|old(log)|..] == used + qs;
        if done {
          assert TermsRun(env, domain, rest, targets, old@term(budget), Outcome(r, ok), budget, qs);
          return;
        }
        RemainsAfterPass(env, domain, mechs, used, rest, targets, qs);
        used := used + qs;
        if mechs[i].kind == Redirect {
          redirects, redirectTarget := redirects + 1, mechs[i].value;
        }
        targets := targets + RedirectOf(mechs[i]);
      }
      assert mechs[|mechs|..] == [];
      label matchless:
      r, ok := FollowRedirect(domain, redirects, redirectTarget, targets);
      ghost var qs := log[|old@matchless(log)|..];
      assert log[|old(log)|..] == used + qs;
    }

    // What a record without a match means.
    method FollowRedirect(domain: string, redirects: nat, redirectTarget: string, ghost targets: seq<string>)
      returns (r: SPFResult, ok: bool)
      requires budget >= 0
      requires redirects == |targets| && (redirects > 0 ==> redirectTarget == targets[|targets| - 1])
      modifies this
      ensures old(log) <= log
      ensures TermsRun(env, domain, [], targets, old(budget), Outcome(r, ok), budget, log[|old(log)|..])
      decreases budget, 1
    {
      assert log[|old(log)|..] == [];
      if redirects != 1 {
        return SPFResult(false, ""), redirects == 0;
      }
      var granted := Spend(1);
      if !granted {
        return SPFResult(false, ""), false;
      }
      r, ok := EvalDomain(redirectTarget);
    }
  }
}
