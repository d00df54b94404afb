// The selection of the record, the qualifier of an include and the prefix
// length of an a or mx term: where internal/dns/spf.go departs from sections
// 4.5 and 5.2 to 5.4 of RFC 7208 in these points, and exactly when.
module SpfDepartures {
  import opened Text
  import opened SpfRecord
  import opened Spf
  import opened SpfTheorems

  // ----- section 5.2: an include has the result its qualifier says -----

  // The standard's reading of records. It is the code's but for one thing:
  // an include whose record authorizes the suspect authorizes it only if its
  // own qualifier is '+'.
  ghost predicate StdYields(env: Env, domain: string, out: Option<SPFResult>, t: seq<Query>)
    decreases |t|, 0
  {
    && |t| >= 1 && t[0] == TxtOf(domain)
    && match RecordOf(env, domain)
       case None => out == None && |t| == 1
       case Some(ms) => StdTermsYield(env, domain, ms, [], out, t[1..])
  }

  ghost predicate StdPasses(env: Env, domain: string, m: Mechanism, t: seq<Query>)
    decreases |t|, 1
  {
    if m.kind == Include then exists r :: StdYields(env, m.value, Some(r), t) && !r.authorized
    else Passes(env, domain, m, t)
  }

  ghost predicate StdStops(env: Env, domain: string, m: Mechanism, out: Option<SPFResult>, t: seq<Query>)
    decreases |t|, 1
  {
    if m.kind != Include then Stops(env, domain, m, out, t)
    else if out.None? then StdYields(env, m.value, None, t)
    else out.value == SPFResult(m.qualifier == '+', "include:" + m.value)
         && exists r :: StdYields(env, m.value, Some(r), t) && r.authorized
  }

  ghost predicate StdTermsYield(env: Env, domain: string, ms: seq<Mechanism>, redirects: seq<string>,
                                out: Option<SPFResult>, t: seq<Query>)
    decreases |t|, 2 + |ms|
  {
    if ms == [] then
      if |redirects| == 1 then StdYields(env, redirects[0], out, t)
      else t == [] && out == if redirects == [] then Some(SPFResult(false, "")) else None
    else
      || StdStops(env, domain, ms[0], out, t)
      || exists k | 0 <= k <= |t| ::
           StdPasses(env, domain, ms[0], t[..k])
           && StdTermsYield(env, domain, ms[1..], redirects + RedirectOf(ms[0]), out, t[k..])
  }

  // The two readings of domain's policy agree, on up to n queries...
  ghost predicate SameUpTo(env: Env, domain: string, n: nat) {
    forall out, t :: |t| <= n ==> (Yields(env, domain, out, t) <==> StdYields(env, domain, out, t))
  }

  // ...and altogether.
  ghost predicate SameReading(env: Env, domain: string) {
    forall out, t :: Yields(env, domain, out, t) <==> StdYields(env, domain, out, t)
  }

  predicate Names(m: Mechanism, next: string) {
    (m.kind == Include || m.kind == Redirect) && m.value == next
  }

  ghost predicate NextSameUpTo(env: Env, ms: seq<Mechanism>, n: nat) {
    forall m, next :: m in ms && Names(m, next) ==> SameUpTo(env, next, n)
  }

  // Evaluation reaches term i, an include with another qualifier than '+'
  // whose record authorizes the suspect.
  ghost predicate OddDecider(env: Env, domain: string, ms: seq<Mechanism>, i: nat) {
    && Reaches(env, domain, i) && i < |ms|
    && ms[i].kind == Include && ms[i].qualifier != '+' && Authorizes(env, ms[i].value)
  }

  ghost predicate OddIncludeDecides(env: Env, domain: string) {
    RecordOf(env, domain).Some? && exists i: nat :: OddDecider(env, domain, RecordOf(env, domain).value, i)
  }

  lemma PassSame(env: Env, domain: string, m: Mechanism, t: seq<Query>)
    requires m.kind == Include ==> SameUpTo(env, m.value, |t|)
    ensures Passes(env, domain, m, t) <==> StdPasses(env, domain, m, t)
  {
  }

  lemma StopSame(env: Env, domain: string, m: Mechanism, out: Option<SPFResult>, t: seq<Query>)
    requires m.kind == Include ==> SameUpTo(env, m.value, |t|)
    requires m.kind == Include ==> m.qualifier == '+' || !Authorizes(env, m.value)
    ensures Stops(env, domain, m, out, t) <==> StdStops(env, domain, m, out, t)
  {
  }

  lemma {:induction false} RedirectsAreNamed(ms: seq<Mechanism>, target: string) returns (m: Mechanism)
    requires target in Redirects(ms)
    ensures m in ms && Names(m, target)
  {
    if ms[0].kind == Redirect && ms[0].value == target {
      m := ms[0];
    } else {
      m := RedirectsAreNamed(ms[1..], target);
    }
  }

  // Without an odd decider the terms still to come read the same.
  lemma {:induction false} TermsSame(env: Env, domain: string, ms: seq<Mechanism>, i: nat,
                                     out: Option<SPFResult>, t: seq<Query>)
    requires RecordOf(env, domain) == Some(ms) && Reaches(env, domain, i)
    requires NextSameUpTo(env, ms, |t|) && !OddIncludeDecides(env, domain)
    ensures TermsYield(env, domain, ms[i..], Redirects(ms[..i]), out, t)
            <==> StdTermsYield(env, domain, ms[i..], Redirects(ms[..i]), out, t)
    decreases |ms| - i
  {
    if i == |ms| {
      LastSame(env, domain, ms, out, t);
    } else {
      TermsSplit(ms, i);
      RedirectsSnoc(ms, i);
      assert Names(ms[i], ms[i].value) || ms[i].kind != Include;
      assert !OddDecider(env, domain, ms, i);
      StopSame(env, domain, ms[i], out, t);
      forall k | 0 <= k <= |t|
        ensures Passes(env, domain, ms[i], t[..k]) <==> StdPasses(env, domain, ms[i], t[..k])
        ensures Passes(env, domain, ms[i], t[..k]) ==>
                  (TermsYield(env, domain, ms[i + 1..], Redirects(ms[..i + 1]), out, t[k..])
                   <==> StdTermsYield(env, domain, ms[i + 1..], Redirects(ms[..i + 1]), out, t[k..]))
      {
        PassSame(env, domain, ms[i], t[..k]);
        if Passes(env, domain, ms[i], t[..k]) {
          assert PassedOver(env, domain, ms[i]);
          TermsSame(env, domain, ms, i + 1, out, t[k..]);
        }
      }
    }
  }

  lemma LastSame(env: Env, domain: string, ms: seq<Mechanism>, out: Option<SPFResult>, t: seq<Query>)
    requires NextSameUpTo(env, ms, |t|)
    ensures TermsYield(env, domain, ms[|ms|..], Redirects(ms[..|ms|]), out, t)
            <==> StdTermsYield(env, domain, ms[|ms|..], Redirects(ms[..|ms|]), out, t)
  {
    assert ms[|ms|..] == [] && ms[..|ms|] == ms;
    if |Redirects(ms)| == 1 {
      var m := RedirectsAreNamed(ms, Redirects(ms)[0]);
    }
  }

  lemma DomainSame(env: Env, domain: string, n: nat)
    requires RecordOf(env, domain).Some? ==> NextSameUpTo(env, RecordOf(env, domain).value, n)
    requires !OddIncludeDecides(env, domain)
    ensures SameUpTo(env, domain, n + 1)
  {
    forall out, t | 1 <= |t| <= n + 1 && RecordOf(env, domain).Some?
      ensures Yields(env, domain, out, t) <==> StdYields(env, domain, out, t)
    {
      var ms := RecordOf(env, domain).value;
      assert ms[0..] == ms && ms[..0] == [];
      TermsSame(env, domain, ms, 0, out, t[1..]);
    }
  }

  // Behind an odd decider the code authorizes...
  lemma OddAuthorizes(env: Env, domain: string, ms: seq<Mechanism>, i: nat) returns (t: seq<Query>)
    requires RecordOf(env, domain) == Some(ms) && OddDecider(env, domain, ms, i)
    ensures Yields(env, domain, Some(SPFResult(true, "include:" + ms[i].value)), t)
  {
    var r, qs :| Yields(env, ms[i].value, Some(r), qs) && r.authorized;
    var out := Some(SPFResult(true, "include:" + ms[i].value));
    TermsSplit(ms, i);
    assert Stops(env, domain, ms[i], out, qs);
    t := WalkBack(env, domain, ms, i, out, qs);
  }

  // ...and the standard, which gets as far, denies.
  lemma {:induction false} OddDenies(env: Env, domain: string, ms: seq<Mechanism>, i: nat, j: nat,
                                     out: Option<SPFResult>, t: seq<Query>)
    requires RecordOf(env, domain) == Some(ms) && OddDecider(env, domain, ms, i) && j <= i
    requires NextSameUpTo(env, ms, |t|)
    requires StdTermsYield(env, domain, ms[j..], Redirects(ms[..j]), out, t)
    ensures out == Some(SPFResult(false, "include:" + ms[i].value))
    decreases i - j
  {
    TermsSplit(ms, j);
    RedirectsSnoc(ms, j);
    assert Names(ms[j], ms[j].value) || ms[j].kind != Include;
    if j == i {
      DeciderDenies(env, domain, ms[i], out, t);
    } else {
      var q :| Passes(env, domain, ms[j], q);
      PassedDoesNotStop(env, domain, ms[j], q, out, t);
      var k :| 0 <= k <= |t| && StdPasses(env, domain, ms[j], t[..k])
               && StdTermsYield(env, domain, ms[j + 1..], Redirects(ms[..j + 1]), out, t[k..]);
      OddDenies(env, domain, ms, i, j + 1, out, t[k..]);
    }
  }

  lemma DeciderDenies(env: Env, domain: string, m: Mechanism, out: Option<SPFResult>, t: seq<Query>)
    requires m.kind == Include && m.qualifier != '+' && Authorizes(env, m.value)
    requires SameUpTo(env, m.value, |t|)
    ensures StdStops(env, domain, m, out, t) ==> out == Some(SPFResult(false, "include:" + m.value))
    ensures forall k | 0 <= k <= |t| :: !StdPasses(env, domain, m, t[..k])
  {
    var r, qs :| Yields(env, m.value, Some(r), qs) && r.authorized;
    forall sub, s | Yields(env, m.value, sub, s)
      ensures sub == Some(r)
    {
      YieldsOnce(env, m.value, Some(r), qs, sub, s);
    }
    assert !Yields(env, m.value, None, t);
  }

  lemma PassedDoesNotStop(env: Env, domain: string, m: Mechanism, q: seq<Query>, out: Option<SPFResult>, t: seq<Query>)
    requires Passes(env, domain, m, q)
    requires m.kind == Include ==> SameUpTo(env, m.value, |t|)
    ensures !StdStops(env, domain, m, out, t)
  {
    if m.kind == Include {
      var r :| Yields(env, m.value, Some(r), q) && !r.authorized;
      forall sub | Yields(env, m.value, sub, t)
        ensures sub == Some(r)
      {
        YieldsOnce(env, m.value, Some(r), q, sub, t);
      }
    } else {
      PassesOnce(env, domain, m, q, t);
    }
  }

  ghost predicate NextSame(env: Env, domain: string) {
    RecordOf(env, domain).Some? ==>
      forall m, next :: m in RecordOf(env, domain).value && Names(m, next) ==> SameReading(env, next)
  }

  lemma NextSameAlways(env: Env, domain: string, n: nat)
    requires NextSame(env, domain) && RecordOf(env, domain).Some?
    ensures NextSameUpTo(env, RecordOf(env, domain).value, n)
  {
    forall m, next | m in RecordOf(env, domain).value && Names(m, next)
      ensures SameUpTo(env, next, n)
    {
      assert SameReading(env, next);
    }
  }

  // What the code authorizes by an include that carries another qualifier
  // than '+', the standard does not.
  lemma OddIncludeDiffers(env: Env, domain: string, ms: seq<Mechanism>, i: nat)
    returns (out: Option<SPFResult>, t: seq<Query>)
    requires RecordOf(env, domain) == Some(ms) && OddDecider(env, domain, ms, i) && NextSame(env, domain)
    ensures Yields(env, domain, out, t) && !StdYields(env, domain, out, t)
  {
    t := OddAuthorizes(env, domain, ms, i);
    out := Some(SPFResult(true, "include:" + ms[i].value));
    NextSameAlways(env, domain, |t[1..]|);
    assert ms[0..] == ms && ms[..0] == [];
    if StdTermsYield(env, domain, ms[0..], Redirects(ms[..0]), out, t[1..]) {
      OddDenies(env, domain, ms, i, 0, out, t[1..]);
    }
  }

  lemma SameWithoutOddDecider(env: Env, domain: string, out: Option<SPFResult>, t: seq<Query>)
    requires NextSame(env, domain) && !OddIncludeDecides(env, domain)
    ensures Yields(env, domain, out, t) <==> StdYields(env, domain, out, t)
  {
    if RecordOf(env, domain).Some? {
      NextSameAlways(env, domain, |t|);
    }
    DomainSame(env, domain, |t|);
  }

  // Where the two readings agree on the records it names, they agree on a
  // record if and only if no include with another qualifier than '+' decides.
  lemma IncludeReadingsAgree(env: Env, domain: string)
    requires NextSame(env, domain)
    ensures SameReading(env, domain) <==> !OddIncludeDecides(env, domain)
  {
    if OddIncludeDecides(env, domain) {
      var i: nat :| OddDecider(env, domain, RecordOf(env, domain).value, i);
      var out, t := OddIncludeDiffers(env, domain, RecordOf(env, domain).value, i);
    } else {
      forall out, t
        ensures Yields(env, domain, out, t) <==> StdYields(env, domain, out, t)
      {
        SameWithoutOddDecider(env, domain, out, t);
      }
    }
  }

  // A set of domains whose records name each other only.
  ghost predicate Closed(env: Env, zone: iset<string>) {
    forall d, m, next ::
      d in zone && RecordOf(env, d).Some? && m in RecordOf(env, d).value && Names(m, next) ==> next in zone
  }

  ghost predicate NoneOdd(env: Env, zone: iset<string>) {
    forall d :: d in zone ==> !OddIncludeDecides(env, d)
  }

  ghost predicate ZoneSameUpTo(env: Env, zone: iset<string>, n: nat) {
    forall d :: d in zone ==> SameUpTo(env, d, n)
  }

  lemma NextWithin(env: Env, zone: iset<string>, domain: string, n: nat)
    requires Closed(env, zone) && ZoneSameUpTo(env, zone, n) && domain in zone && RecordOf(env, domain).Some?
    ensures NextSameUpTo(env, RecordOf(env, domain).value, n)
  {
    forall m, next | m in RecordOf(env, domain).value && Names(m, next)
      ensures SameUpTo(env, next, n)
    {
      assert next in zone;
    }
  }

  lemma SameOneFurther(env: Env, zone: iset<string>, domain: string, n: nat)
    requires Closed(env, zone) && ZoneSameUpTo(env, zone, n) && domain in zone
    requires !OddIncludeDecides(env, domain)
    ensures SameUpTo(env, domain, n + 1)
  {
    if RecordOf(env, domain).Some? {
      NextWithin(env, zone, domain, n);
    }
    DomainSame(env, domain, n);
  }

  lemma {:induction false} NoneOddSame(env: Env, zone: iset<string>, n: nat)
    requires Closed(env, zone) && NoneOdd(env, zone)
    ensures ZoneSameUpTo(env, zone, n)
  {
    if n > 0 {
      NoneOddSame(env, zone, n - 1);
      forall d | d in zone
        ensures SameUpTo(env, d, n)
      {
        SameOneFurther(env, zone, d, n - 1);
      }
    }
  }

  lemma NoneOddAgrees(env: Env, zone: iset<string>, domain: string)
    requires Closed(env, zone) && NoneOdd(env, zone) && domain in zone
    ensures SameReading(env, domain)
  {
    forall out, t
      ensures Yields(env, domain, out, t) <==> StdYields(env, domain, out, t)
    {
      NoneOddSame(env, zone, |t|);
      assert SameUpTo(env, domain, |t|);
    }
  }

  ghost predicate AllSame(env: Env, zone: iset<string>) {
    forall d :: d in zone ==> SameReading(env, d)
  }

  lemma NextSameWithin(env: Env, zone: iset<string>, domain: string)
    requires Closed(env, zone) && AllSame(env, zone) && domain in zone
    ensures NextSame(env, domain)
  {
    if RecordOf(env, domain).Some? {
      forall m, next | m in RecordOf(env, domain).value && Names(m, next)
        ensures SameReading(env, next)
      {
        assert next in zone;
      }
    }
  }

  // On records that name each other only, cyclic or not, the two readings
  // agree everywhere if and only if no include with another qualifier than
  // '+' decides anywhere.
  lemma ZoneReadingsAgree(env: Env, zone: iset<string>)
    requires Closed(env, zone)
    ensures AllSame(env, zone) <==> NoneOdd(env, zone)
  {
    if AllSame(env, zone) {
      forall d | d in zone
        ensures !OddIncludeDecides(env, d)
      {
        NextSameWithin(env, zone, d);
        IncludeReadingsAgree(env, d);
      }
    }
    if NoneOdd(env, zone) {
      forall d | d in zone
        ensures SameReading(env, d)
      {
        NoneOddAgrees(env, zone, d);
      }
    }
  }

  predicate PlusIncludes(ms: seq<Mechanism>) {
    forall m :: m in ms && m.kind == Include ==> m.qualifier == '+'
  }

  // In particular where all includes carry '+'.
  lemma PlusOnlyAgrees(env: Env, zone: iset<string>, domain: string)
    requires Closed(env, zone) && domain in zone
    requires forall d :: d in zone && RecordOf(env, d).Some? ==> PlusIncludes(RecordOf(env, d).value)
    ensures SameReading(env, domain)
  {
    NoneOddAgrees(env, zone, domain);
  }

  // The smallest difference: -include of a record that passes everyone.
  lemma IncludeQualifierMatters(env: Env, domain: string, next: string, q: char) returns (t: seq<Query>)
    requires IsQualifier(q) && q != '+' && next != "" && NoSpace(next) && !Contains(next, "%{")
    requires env.txt(domain) == Some([PrintRecord([Mechanism(q, Include, next)])])
    requires env.txt(next) == Some([PrintRecord([Mechanism('+', All, "")])])
    ensures Yields(env, domain, Some(SPFResult(true, "include:" + next)), t)
    ensures StdYields(env, domain, Some(SPFResult(false, "include:" + next)), t)
  {
    var inc, all := Mechanism(q, Include, next), Mechanism('+', All, "");
    assert !Contains("", "%{");
    PublishedIsEvaluated(env, domain, [inc]);
    PublishedIsEvaluated(env, next, [all]);
    var sub := [TxtOf(next)];
    AllAnswers(env, next, [all]);
    t := [TxtOf(domain)] + sub;
    assert t[1..] == sub;
    assert Stops(env, domain, inc, Some(SPFResult(true, "include:" + next)), sub);
    assert StdStops(env, domain, inc, Some(SPFResult(false, "include:" + next)), sub);
  }

  lemma AllAnswers(env: Env, domain: string, ms: seq<Mechanism>)
    requires RecordOf(env, domain) == Some(ms) && ms != [] && ms[0] == Mechanism('+', All, "")
    ensures Yields(env, domain, Some(SPFResult(true, "")), [TxtOf(domain)])
    ensures StdYields(env, domain, Some(SPFResult(true, "")), [TxtOf(domain)])
  {
    assert [TxtOf(domain)][1..] == [];
    assert Stops(env, domain, ms[0], Some(SPFResult(true, "")), []);
    assert StdStops(env, domain, ms[0], Some(SPFResult(true, "")), []);
  }

  lemma IncludeFirst(env: Env, domain: string, m: Mechanism, sub: SPFResult, qs: seq<Query>)
    requires RecordOf(env, domain).Some? && m.kind == Include && [m] <= RecordOf(env, domain).value
    ensures Yields(env, m.value, Some(sub), qs) && sub.authorized
            ==> Yields(env, domain, Some(SPFResult(true, "include:" + m.value)), [TxtOf(domain)] + qs)
    ensures StdYields(env, m.value, Some(sub), qs) && sub.authorized
            ==> StdYields(env, domain, Some(SPFResult(m.qualifier == '+', "include:" + m.value)), [TxtOf(domain)] + qs)
  {
    var ms := RecordOf(env, domain).value;
    assert ms[0] == m && ([TxtOf(domain)] + qs)[1..] == qs;
    if Yields(env, m.value, Some(sub), qs) && sub.authorized {
      assert Stops(env, domain, m, Some(SPFResult(true, "include:" + m.value)), qs);
    }
    if StdYields(env, m.value, Some(sub), qs) && sub.authorized {
      assert StdStops(env, domain, m, Some(SPFResult(m.qualifier == '+', "include:" + m.value)), qs);
    }
  }

  lemma AllSecond(env: Env, domain: string, m: Mechanism, all: Mechanism, sub: SPFResult, qs: seq<Query>)
    requires RecordOf(env, domain) == Some([m, all]) && m.kind == Include && all == Mechanism('+', All, "")
    requires StdYields(env, m.value, Some(sub), qs) && !sub.authorized
    ensures StdYields(env, domain, Some(SPFResult(true, "")), [TxtOf(domain)] + qs)
  {
    var t := [TxtOf(domain)] + qs;
    var k := |qs|;
    assert t[1..] == qs && qs[..k] == qs && qs[k..] == [] && [m, all][1..] == [all];
    assert StdPasses(env, domain, m, qs[..k]);
    assert StdStops(env, domain, all, Some(SPFResult(true, "")), qs[k..]);
    assert StdTermsYield(env, domain, [all], [] + RedirectOf(m), Some(SPFResult(true, "")), qs[k..]);
  }

  lemma PartedAtMid(env: Env, mid: string, odd: string, code: SPFResult, std: SPFResult, qs: seq<Query>)
    requires RecordOf(env, mid) == Some([Mechanism('+', Include, odd), Mechanism('+', All, "")])
    requires Yields(env, odd, Some(code), qs) && code.authorized
    requires StdYields(env, odd, Some(std), qs) && !std.authorized
    ensures Yields(env, mid, Some(SPFResult(true, "include:" + odd)), [TxtOf(mid)] + qs)
    ensures StdYields(env, mid, Some(SPFResult(true, "")), [TxtOf(mid)] + qs)
  {
    IncludeFirst(env, mid, Mechanism('+', Include, odd), code, qs);
    AllSecond(env, mid, Mechanism('+', Include, odd), Mechanism('+', All, ""), std, qs);
  }

  // Two levels above a record where they part, the readings may meet again:
  // agreement on the named records is sufficient, not necessary, for
  // agreement.
  lemma ReadingsMeetAgain(env: Env, top: string, mid: string, odd: string, code: SPFResult, std: SPFResult,
                          qs: seq<Query>)
    requires RecordOf(env, top) == Some([Mechanism('+', Include, mid)])
    requires RecordOf(env, mid) == Some([Mechanism('+', Include, odd), Mechanism('+', All, "")])
    requires Yields(env, odd, Some(code), qs) && code.authorized
    requires StdYields(env, odd, Some(std), qs) && !std.authorized
    ensures var out, t := Some(SPFResult(true, "include:" + mid)), [TxtOf(top)] + ([TxtOf(mid)] + qs);
            Yields(env, top, out, t) && StdYields(env, top, out, t)
  {
    PartedAtMid(env, mid, odd, code, std, qs);
    IncludeFirst(env, top, Mechanism('+', Include, mid), SPFResult(true, "include:" + odd), [TxtOf(mid)] + qs);
    IncludeFirst(env, top, Mechanism('+', Include, mid), SPFResult(true, ""), [TxtOf(mid)] + qs);
  }

  // For the code the qualifier of an include might be any other.
  lemma {:induction false} IncludeQualifierIgnored(env: Env, domain: string, ms: seq<Mechanism>, i: nat, q: char,
                                                   redirects: seq<string>, out: Option<SPFResult>, t: seq<Query>)
    requires i < |ms| && ms[i].kind == Include
    ensures TermsYield(env, domain, ms, redirects, out, t)
            <==> TermsYield(env, domain, ms[i := ms[i].(qualifier := q)], redirects, out, t)
    decreases i
  {
    var m, ms' := ms[i].(qualifier := q), ms[i := ms[i].(qualifier := q)];
    if i == 0 {
      assert ms'[1..] == ms[1..];
      forall s ensures Passes(env, domain, ms[0], s) <==> Passes(env, domain, m, s) {}
    } else {
      assert ms'[1..] == ms[1..][i - 1 := m] && ms'[0] == ms[0];
      forall k | 0 <= k <= |t|
        ensures TermsYield(env, domain, ms[1..], redirects + RedirectOf(ms[0]), out, t[k..])
                <==> TermsYield(env, domain, ms'[1..], redirects + RedirectOf(ms[0]), out, t[k..])
      {
        IncludeQualifierIgnored(env, domain, ms[1..], i - 1, q, redirects + RedirectOf(ms[0]), out, t[k..]);
      }
    }
  }

  // ----- sections 5.3 and 5.4: prefix lengths of a and mx terms -----

  // The part of the value that is for the suspect's family.
  function LengthPart(env: Env, value: string): string {
    var parts, i := SplitN(value, '/', 3), if env.suspect.v6 then 2 else 1;
    if i < |parts| then parts[i] else ""
  }

  lemma SecondPartIsPlain(value: string)
    ensures var parts := SplitN(value, '/', 3); |parts| > 1 ==> '/' !in parts[1]
  {
    var parts := SplitN(value, '/', 3);
    if |parts| > 1 {
      var rest := value[|Before(value, '/')| + 1..];
      BeforeIsPrefix(rest, '/');
      assert parts[1] == SplitN(rest, '/', 2)[0];
    }
  }

  // Only the third part, so only an IPv6 suspect, can meet a network.
  lemma NetOfPart(env: Env, value: string)
    ensures var part := LengthPart(env, value);
            && AddrNet(env, value) == (if part == "" then None else ParseNet(env, part))
            && (!env.suspect.v6 ==> '/' !in part)
  {
    SecondPartIsPlain(value);
  }

  // The term would match any address of a network around the suspect.
  predicate NetAround(env: Env, value: string) {
    var net := AddrNet(env, value);
    net.Some? && Within(net.value, env.suspect) && |net.value.prefix| < |env.suspect.bits|
  }

  lemma PlainPartIsNoNet(env: Env, value: string)
    requires env.suspect.v6 ==> '/' !in LengthPart(env, value)
    ensures !NetAround(env, value)
  {
    NetOfPart(env, value);
  }

  function OtherAddress(a: IP): (b: IP)
    ensures b != a && b.v6 == a.v6 && b.bits[..|b.bits| - 1] == a.bits[..|a.bits| - 1]
  {
    var last := |a.bits| - 1;
    var bits := a.bits[last := !a.bits[last]];
    assert bits[last] != a.bits[last];
    Bits(a.v6, bits)
  }

  // The code compares whole addresses exactly when there is no such network.
  lemma WholeAddressUnlessNet(env: Env, value: string)
    ensures (forall addrs: seq<IP> :: AddrCovered(env, addrs, AddrNet(env, value)) ==> env.suspect in addrs)
            <==> !NetAround(env, value)
  {
    if NetAround(env, value) {
      var a := OtherAddress(env.suspect);
      var prefix := AddrNet(env, value).value.prefix;
      assert prefix == a.bits[..|a.bits| - 1][..|prefix|];
      assert a in [a] && AddrMatches(env, a, AddrNet(env, value));
      assert AddrCovered(env, [a], AddrNet(env, value)) && env.suspect !in [a];
    } else {
      forall a: IP
        ensures AddrMatches(env, a, AddrNet(env, value)) ==> a == env.suspect
      {
      }
    }
  }

  // The suspect itself is among the addresses, and in the bare address, if
  // any, that the value gives as its prefix length.
  predicate IsSuspect(env: Env, value: string, addrs: seq<IP>) {
    && env.suspect in addrs
    && (AddrNet(env, value).Some? ==> Within(AddrNet(env, value).value, env.suspect))
  }

  lemma CoveredIsSuspect(env: Env, value: string, addrs: seq<IP>)
    requires !NetAround(env, value)
    ensures AddrCovered(env, addrs, AddrNet(env, value)) <==> IsSuspect(env, value, addrs)
  {
    WholeAddressUnlessNet(env, value);
    if IsSuspect(env, value, addrs) {
      assert AddrMatches(env, env.suspect, AddrNet(env, value));
    }
  }

  // Whatever prefix length it names, an a term matches exactly when the
  // suspect is an address of its host...
  lemma AMatchIsExact(env: Env, domain: string, m: Mechanism)
    requires m.kind == A && !NetAround(env, m.value)
    ensures Direct(env, domain, m).0 == Some(true)
            <==> var addrs := env.ip(AddrHost(env, domain, m.value)); addrs.Some? && IsSuspect(env, m.value, addrs.value)
  {
    var addrs := env.ip(AddrHost(env, domain, m.value));
    if addrs.Some? {
      CoveredIsSuspect(env, m.value, addrs.value);
    }
  }

  predicate HostIsSuspect(env: Env, value: string, host: string) {
    env.ip(host).Some? && IsSuspect(env, value, env.ip(host).value)
  }

  // ...and an mx term when it is an address of one of its mail hosts.
  lemma MxMatchIsExact(env: Env, domain: string, m: Mechanism)
    requires m.kind == Mx && !NetAround(env, m.value)
    ensures Direct(env, domain, m).0 == Some(true)
            <==> var hosts := env.mx(AddrHost(env, domain, m.value));
                 hosts.Some? && exists host :: host in hosts.value && HostIsSuspect(env, m.value, host)
  {
    var hosts := env.mx(AddrHost(env, domain, m.value));
    if hosts.Some? {
      ScanFindsFirst(env, hosts.value, AddrNet(env, m.value));
      forall host
        ensures HostCovers(env, host, AddrNet(env, m.value)) <==> HostIsSuspect(env, m.value, host)
      {
        if env.ip(host).Some? {
          CoveredIsSuspect(env, m.value, env.ip(host).value);
        }
      }
    }
  }

  // Either is inconclusive when, and only when, the lookup of the host itself
  // fails; a mail host that fails is passed over.
  lemma AddrTermInconclusive(env: Env, domain: string, m: Mechanism)
    requires m.kind == A || m.kind == Mx
    ensures var host, said := AddrHost(env, domain, m.value), Direct(env, domain, m);
            && (said.0 == None <==> if m.kind == A then env.ip(host) == None else env.mx(host) == None)
            && |said.1| > 0 && said.1[0] == (if m.kind == A then IpOf(host) else MxOf(host))
  {
  }

  // A third part with a '/' of its own does act as a network, in which the
  // suspect and an address of the host may lie anywhere.
  lemma ThirdPartIsNetwork(env: Env, host: string, text: string)
    requires env.suspect.v6 && '/' !in host && '/' in text
    ensures AddrNet(env, host + "//" + text) == env.parseCIDR(text)
  {
    ThirdPart(host, text);
    NetOfPart(env, host + "//" + text);
  }

  lemma NetworkMatch(env: Env, domain: string, m: Mechanism, net: Net)
    requires m.kind == A && AddrNet(env, m.value) == Some(net)
    ensures Direct(env, domain, m).0 == Some(true)
            <==> var addrs := env.ip(AddrHost(env, domain, m.value));
                 addrs.Some? && Within(net, env.suspect) && exists a :: a in addrs.value && Within(net, a)
  {
    var addrs := env.ip(AddrHost(env, domain, m.value));
    if addrs.Some? && Within(net, env.suspect) {
      if a :| a in addrs.value && Within(net, a) {
        assert AddrMatches(env, a, Some(net));
      }
    }
  }

  lemma ThirdPart(host: string, text: string)
    requires '/' !in host
    ensures SplitN(host + "//" + text, '/', 3) == [host, "", text]
  {
    var value, rest := host + "//" + text, "/" + text;
    assert value == host + ['/'] + rest;
    BeforeCuts(host, '/', rest);
    assert value[|host| + 1..] == rest && rest[1..] == text;
    assert SplitN(rest, '/', 2) == [""] + SplitN(text, '/', 1);
  }

  // So a:h//2001:db8::/32 matches a suspect of that network which is not an
  // address of h.
  lemma NetworkMatchIsNotExact(env: Env, domain: string, q: char, host: string, text: string, a: IP, net: Net)
    requires env.suspect.v6 && host != "" && '/' !in host && '/' in text
    requires env.ip(host) == Some([a]) && env.parseCIDR(text) == Some(net)
    requires a != env.suspect && Within(net, a) && Within(net, env.suspect)
    ensures Direct(env, domain, Mechanism(q, A, host + "//" + text)).0 == Some(true)
    ensures AddrHost(env, domain, host + "//" + text) == host && env.suspect !in env.ip(host).value
  {
    ThirdPart(host, text);
    ThirdPartIsNetwork(env, host, text);
    NetworkMatch(env, domain, Mechanism(q, A, host + "//" + text), net);
    assert a in env.ip(host).value;
  }

  // The standard has a term of prefix length n match every address that
  // shares n bits with one of its host.
  predicate SharesBits(a: IP, b: IP, n: nat) {
    a.v6 == b.v6 && n <= |a.bits| && a.bits[..n] == b.bits[..n]
  }

  predicate SomeSharesBits(env: Env, addrs: seq<IP>, n: nat) {
    exists a :: a in addrs && SharesBits(a, env.suspect, n)
  }

  // Where the value makes no network, the code gives the standard's answer
  // for all addresses of the host exactly when the length is the full one.
  lemma PrefixLengthIgnored(env: Env, value: string, n: nat)
    requires AddrNet(env, value) == None && n <= |env.suspect.bits|
    ensures (forall addrs: seq<IP> :: AddrCovered(env, addrs, AddrNet(env, value)) <==> SomeSharesBits(env, addrs, n))
            <==> n == |env.suspect.bits|
  {
    if n < |env.suspect.bits| {
      var a := OtherAddress(env.suspect);
      assert a.bits[..n] == a.bits[..|a.bits| - 1][..n];
      assert env.suspect.bits[..n] == env.suspect.bits[..|a.bits| - 1][..n];
      assert a in [a] && SharesBits(a, env.suspect, n);
      assert SomeSharesBits(env, [a], n) && !AddrCovered(env, [a], None);
    } else {
      forall a: IP
        ensures SharesBits(a, env.suspect, n) <==> AddrMatches(env, a, None)
      {
      }
    }
  }

  // The standard's own forms h/n4//n6 and h/n4 make no network, since the
  // parsers refuse a bare number and one behind a slash.
  lemma DualFormMakesNoNet(env: Env, host: string, n4: string, n6: string)
    requires '/' !in host && '/' !in n4 && env.parseIP(TrimSpace(n4)) == None && env.parseCIDR("/" + n6) == None
    ensures AddrNet(env, host + ['/'] + (n4 + ['/'] + ("/" + n6))) == None
  {
    DualParts(host, n4, n6);
    assert ("/" + n6)[0] == '/';
  }

  lemma DualParts(host: string, n4: string, n6: string)
    requires '/' !in host && '/' !in n4
    ensures SplitN(host + ['/'] + (n4 + ['/'] + ("/" + n6)), '/', 3) == [host, n4, "/" + n6]
  {
    SplitOnce(host, n4 + ['/'] + ("/" + n6), 3);
    SplitOnce(n4, "/" + n6, 2);
  }

  lemma SingleFormMakesNoNet(env: Env, host: string, n: string)
    requires '/' !in host && '/' !in n && env.parseIP(TrimSpace(n)) == None
    ensures AddrNet(env, host + (if env.suspect.v6 then "//" else "/") + n) == None
  {
    if env.suspect.v6 {
      ThirdPart(host, n);
    } else {
      SplitOnce(host, n, 3);
      BeforeIsPrefix(n, '/');
      assert host + "/" + n == host + ['/'] + n;
      assert SplitN(n, '/', 2) == [n];
    }
  }

  lemma SplitOnce(head: string, rest: string, n: nat)
    requires '/' !in head && n >= 2
    ensures SplitN(head + ['/'] + rest, '/', n) == [head] + SplitN(rest, '/', n - 1)
  {
    BeforeCuts(head, '/', rest);
    assert (head + ['/'] + rest)[|head| + 1..] == rest;
  }

  // And a prefix length given without a domain is taken for the domain.
  lemma PrefixLengthReadAsHost(env: Env, domain: string, q: char, length: string)
    requires length != "" && '/' !in length
    ensures ParseBody(q, "a/" + length) == Term(Mechanism(q, A, length))
    ensures ParseBody(q, "mx/" + length) == Term(Mechanism(q, Mx, length))
    ensures AddrHost(env, domain, length) == length
  {
    ALengthBecomesValue(q, length);
    MxLengthBecomesValue(q, length);
    BeforeIsPrefix(length, '/');
  }

  lemma SlashIsDropped(length: string)
    requires length != "" && '/' !in length
    ensures AddressValue(['/'] + length) == length
  {
    var body := ['/'] + length;
    assert body[0] == '/' && body[1..] == length;
    assert TrimPrefix(body, ":") == body;
    assert "/" <= body;
  }

  lemma ALengthBecomesValue(q: char, length: string)
    requires length != "" && '/' !in length
    ensures ParseBody(q, "a/" + length) == Term(Mechanism(q, A, length))
  {
    var f := "a/" + length;
    assert f[0] == 'a' && f[1] == '/' && f[..2] == "a/";
    assert f[1..] == ['/'] + length;
    SlashIsDropped(length);
  }

  lemma MxLengthBecomesValue(q: char, length: string)
    requires length != "" && '/' !in length
    ensures ParseBody(q, "mx/" + length) == Term(Mechanism(q, Mx, length))
  {
    var f := "mx/" + length;
    assert f[0] == 'm' && f[1] == 'x' && f[2] == '/' && f[..3] == "mx/";
    assert f[2..] == ['/'] + length;
    SlashIsDropped(length);
  }

  // ----- section 4.5: which TXT strings are SPF records -----

  // The standard wants white space, or nothing, behind the tag.
  predicate TaggedExactly(txt: string) {
    Fields(txt) != [] && ToLower(Fields(txt)[0]) == "v=spf1"
  }

  predicate TaggedLonger(txt: string) {
    Fields(txt) != [] && "v=spf1" < ToLower(Fields(txt)[0])
  }

  function StdRecords(txts: seq<string>): seq<string> {
    if txts == [] then []
    else
      var last := |txts| - 1;
      StdRecords(txts[..last]) + if TaggedExactly(txts[last]) then [txts[last]] else []
  }

  function StdRecordOf(env: Env, domain: string): Option<seq<Mechanism>> {
    var txts := env.txt(domain);
    if txts.None? then None
    else
      var records := StdRecords(txts.value);
      if |records| == 1 then ParseRecord(records[0]) else None
  }

  lemma ExactlyOrLonger(txt: string)
    ensures Fields(txt) != [] && "v=spf1" <= ToLower(Fields(txt)[0]) <==> TaggedExactly(txt) || TaggedLonger(txt)
  {
    if Fields(txt) != [] {
      var w := ToLower(Fields(txt)[0]);
      if "v=spf1" <= w && |w| == 6 {
        assert w == w[..6];
      }
    }
  }

  lemma {:induction false} SameSelection(txts: seq<string>)
    requires forall txt :: txt in txts ==> !TaggedLonger(txt)
    ensures SpfRecords(txts) == StdRecords(txts)
  {
    if txts != [] {
      var last := |txts| - 1;
      SameSelection(txts[..last]);
      SpfRecordIs(txts[last]);
      ExactlyOrLonger(txts[last]);
    }
  }

  lemma LongerTagSpoils(env: Env, domain: string, txt: string)
    requires env.txt(domain).Some? && txt in env.txt(domain).value && TaggedLonger(txt)
    ensures RecordOf(env, domain) == None
  {
    SpfRecordIs(txt);
    RecordRefused(txt);
    if RecordOf(env, domain).Some? {
      RecordIsTheOnlyOne(env, domain, RecordOf(env, domain).value);
    }
  }

  // The code selects the standard's record unless there is one and a TXT
  // string with a longer tag, such as v=spf10, stands beside it.
  lemma SelectionsAgree(env: Env, domain: string)
    ensures RecordOf(env, domain) == StdRecordOf(env, domain)
            <==> StdRecordOf(env, domain) == None
                 || forall txt :: txt in env.txt(domain).value ==> !TaggedLonger(txt)
  {
    if env.txt(domain).Some? {
      if txt :| txt in env.txt(domain).value && TaggedLonger(txt) {
        LongerTagSpoils(env, domain, txt);
      } else {
        SameSelection(env.txt(domain).value);
      }
    }
  }
}
