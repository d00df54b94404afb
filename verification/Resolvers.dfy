// internal/dns/resolvers.go: the vote over the outcomes of several resolvers.
module Resolvers {
  import opened Text
  import opened Sorting

  datatype OutcomeKind = Live | NXDomain | Inconclusive

  // An IPv4 address as a number; only whether two are equal matters here.
  type Addr = nat

  datatype Outcome = Outcome(name: string, kind: OutcomeKind, ns: seq<string>, addrs: seq<Addr>)

  datatype SplitKind = SplitNone | SplitSuppression | SplitHorizon | SplitNS

  const SYSTEM := "system"

  // What a lookup may return, and how it is classified.
  datatype Lookup = Found(addrs: seq<Addr>) | Failed(notFound: bool)

  function ClassifyOutcome(l: Lookup): OutcomeKind {
    match l
    case Failed(notFound) => if notFound then NXDomain else Inconclusive
    case Found(addrs) => if addrs == [] then Inconclusive else Live
  }

  // A lookup is live if it returns an address, and says that the name does
  // not exist if it fails for that reason; anything else abstains.
  lemma OutcomeIs(l: Lookup)
    ensures ClassifyOutcome(l) == Live <==> l.Found? && l.addrs != []
    ensures ClassifyOutcome(l) == NXDomain <==> l == Failed(true)
  {
  }

  function NormalizeNS(host: string): string {
    TrimSuffix(ToLower(TrimSpace(host)), ".")
  }

  // Name servers are told apart up to letter case, white space around and
  // one dot at the end.
  lemma NameServerIs(host: string, name: string)
    requires name != "" && Edgeless(name) && name[|name| - 1] != '.'
    ensures NormalizeNS(host) == name <==> Dressed(host, name)
  {
    UndressedIs(host, name);
  }

  // ----- name server lists -----

  function CountOf<T(==)>(counts: map<T, int>, ns: T): int {
    if ns in counts then counts[ns] else 0
  }

  lemma SubMultisetOfSameSize<T>(a: multiset<T>, b: multiset<T>)
    requires b <= a && |a| == |b|
    ensures a == b
  {
    assert a == b + (a - b);
  }

  lemma PrefixCounts<T>(s: seq<T>, i: nat)
    requires i < |s|
    ensures multiset(s[..i + 1]) == multiset(s[..i]) + multiset{s[i]}
    ensures multiset(s[..i + 1]) <= multiset(s)
  {
    assert s[..i + 1] == s[..i] + [s[i]] && s == s[..i + 1] + s[i + 1..];
  }

  method CountAll<T(==)>(a: seq<T>) returns (counts: map<T, int>)
    ensures forall ns :: CountOf(counts, ns) == multiset(a)[ns]
  {
    counts := map[];
    for i := 0 to |a|
      invariant forall ns :: CountOf(counts, ns) == multiset(a[..i])[ns]
    {
      PrefixCounts(a, i);
      counts := counts[a[i] := CountOf(counts, a[i]) + 1];
    }
    assert a[..|a|] == a;
  }

  // nsSetsEqual, for any kind of element. It counts, so it decides equality
  // of multisets, not of sets.
  method NsSetsEqual<T(==)>(a: seq<T>, b: seq<T>) returns (equal: bool)
    ensures equal <==> multiset(a) == multiset(b)
  {
    if |a| != |b| {
      assert |multiset(a)| == |a| && |multiset(b)| == |b|;
      return false;
    }
    var counts := CountAll(a);
    ghost var all, seen := multiset(a), multiset{};
    for i := 0 to |b|
      invariant seen == multiset(b[..i])
      invariant forall ns :: CountOf(counts, ns) + seen[ns] == all[ns]
      invariant forall ns :: CountOf(counts, ns) >= 0
    {
      PrefixCounts(b, i);
      seen := seen + multiset{b[i]};
      counts := counts[b[i] := CountOf(counts, b[i]) - 1];
      if counts[b[i]] < 0 {
        assert CountOf(counts, b[i]) < 0 && seen[b[i]] > all[b[i]];
        return false;
      }
    }
    assert b[..|b|] == b;
    assert forall ns :: seen[ns] <= all[ns] by {
      forall ns ensures seen[ns] <= all[ns] {
        assert CountOf(counts, ns) >= 0;
      }
    }
    SubMultisetOfSameSize(all, seen);
    return true;
  }

  lemma NotEqualityOfSets()
    ensures var a, b := ["x", "x", "y"], ["x", "y", "y"];
            (set s | s in a) == (set s | s in b) && |a| == |b| && multiset(a) != multiset(b)
  {
    var a, b := ["x", "x", "y"], ["x", "y", "y"];
    assert multiset(a)["x"] == 2 && multiset(b)["x"] == 1;
  }

  function Elements<T>(s: seq<T>): set<T> {
    set x | x in s
  }

  predicate Distinct<T(==)>(s: seq<T>) {
    forall i, j :: 0 <= i < j < |s| ==> s[i] != s[j]
  }

  lemma {:induction false} DistinctCounts<T>(s: seq<T>)
    ensures Distinct(s) <==> forall x :: multiset(s)[x] <= 1
  {
    if s != [] {
      var last := |s| - 1;
      DistinctCounts(s[..last]);
      PrefixCounts(s, last);
      assert s[..last + 1] == s;
      if Distinct(s[..last]) && s[last] in s[..last] {
        assert multiset(s)[s[last]] == 2;
      }
      if exists x :: multiset(s[..last])[x] > 1 {
        var x :| multiset(s[..last])[x] > 1;
        assert multiset(s)[x] > 1;
      }
    }
  }

  // Two lists equal to the comparison are equal as sets. Of lists equal as
  // sets, one without repetition is equal to those without.
  lemma ComparisonOfSets<T>(a: seq<T>, b: seq<T>)
    ensures multiset(a) == multiset(b) ==> Elements(a) == Elements(b)
    ensures Elements(a) == Elements(b) && Distinct(b) ==> (multiset(a) == multiset(b) <==> Distinct(a))
  {
    DistinctCounts(a);
    DistinctCounts(b);
    forall x
      ensures x in multiset(a) <==> x in Elements(a)
      ensures x in multiset(b) <==> x in Elements(b)
    {
    }
    if Elements(a) == Elements(b) && Distinct(a) && Distinct(b) {
      forall x
        ensures multiset(a)[x] == multiset(b)[x]
      {
        assert x in multiset(a) <==> x in multiset(b);
      }
    }
  }

  lemma ElementsSnoc<T>(s: seq<T>, x: T)
    ensures Elements(s + [x]) == Elements(s) + {x}
  {
  }

  // The elements of a list, each once.
  lemma {:induction false} Once<T>(s: seq<T>) returns (r: seq<T>)
    ensures Elements(r) == Elements(s) && Distinct(r)
  {
    if s == [] {
      return [];
    }
    var last := |s| - 1;
    r := Once(s[..last]);
    assert s == s[..last] + [s[last]];
    ElementsSnoc(s[..last], s[last]);
    if s[last] !in Elements(r) {
      ElementsSnoc(r, s[last]);
      r := r + [s[last]];
    }
  }

  // nsSetsEqual meets its comment on a list, whatever duplicate-free list it
  // is compared with, if and only if the list is free of duplicates itself.
  lemma SetsEqualWhenDistinct<T>(a: seq<T>)
    ensures (forall b: seq<T> | Distinct(b) :: multiset(a) == multiset(b) <==> Elements(a) == Elements(b))
            <==> Distinct(a)
  {
    forall b: seq<T> | Distinct(b)
      ensures (multiset(a) == multiset(b) <==> Elements(a) == Elements(b)) <==> (Elements(a) == Elements(b) ==> Distinct(a))
    {
      ComparisonOfSets(a, b);
    }
    var once := Once(a);
  }

  // Whatever list it is compared with, only the empty list is safe.
  lemma SetsEqualWhenEmpty<T>(a: seq<T>)
    ensures (forall b: seq<T> :: multiset(a) == multiset(b) <==> Elements(a) == Elements(b)) <==> a == []
  {
    if a == [] {
      forall b: seq<T>
        ensures multiset(a) == multiset(b) <==> Elements(a) == Elements(b)
      {
        if b != [] {
          assert b[0] in Elements(b);
        }
      }
    } else {
      var b := a + a;
      assert Elements(b) == Elements(a);
      assert multiset(b)[a[0]] == 2 * multiset(a)[a[0]] && a[0] in multiset(a);
    }
  }

  // ----- tallies -----

  // What f finds in each outcome, in order.
  function Collect<T>(f: Outcome -> Option<T>, outcomes: seq<Outcome>): seq<T> {
    if outcomes == [] then []
    else
      var last := |outcomes| - 1;
      Collect(f, outcomes[..last]) + match f(outcomes[last]) case None => [] case Some(v) => [v]
  }

  function SystemVote(o: Outcome): Option<OutcomeKind> {
    if o.name == SYSTEM then Some(o.kind) else None
  }

  function PublicLive(o: Outcome): Option<string> {
    if o.name != SYSTEM && o.kind == Live then Some(o.name) else None
  }

  function PublicNX(o: Outcome): Option<string> {
    if o.name != SYSTEM && o.kind == NXDomain then Some(o.name) else None
  }

  function NsVote(o: Outcome): Option<seq<string>> {
    if o.kind == Live && o.ns != [] then Some(o.ns) else None
  }

  function NsVoter(o: Outcome): Option<string> {
    if o.kind == Live && o.ns != [] then Some(o.name) else None
  }

  // The last system entry has the say; none counts as inconclusive.
  function SystemKind(outcomes: seq<Outcome>): OutcomeKind {
    var votes := Collect(SystemVote, outcomes);
    if votes == [] then Inconclusive else votes[|votes| - 1]
  }

  // Every list of name servers is compared with the first.
  predicate VotesDiffer<T(==)>(votes: seq<seq<T>>) {
    exists i :: 0 < i < |votes| && multiset(votes[0]) != multiset(votes[i])
  }

  function Names(names: seq<string>): string {
    Join(Sort(names), ", ")
  }

  function SuppressionText(domain: string, live: string): string {
    "suppression pattern on " + domain + ": system reports NXDOMAIN while " + live + " resolve live"
  }

  function HorizonText(domain: string, nx: string): string {
    "split-horizon pattern on " + domain + ": system resolves live while " + nx + " report NXDOMAIN"
  }

  function ExistenceText(domain: string, nx: string, live: string): string {
    "existence split on " + domain + ": " + nx + " report NXDOMAIN while " + live
    + " resolve live (system inconclusive)"
  }

  function DelegationText(domain: string, names: string): string {
    "NS delegation split on " + domain + " across resolvers (" + names + ")"
  }

  // The classification...
  function DecideKind(sys: OutcomeKind, live: seq<string>, nx: seq<string>, votes: seq<seq<string>>): SplitKind {
    if sys == NXDomain && live != [] then SplitSuppression
    else if sys == Live && nx != [] then SplitHorizon
    else if sys == Inconclusive && live != [] && nx != [] then SplitSuppression
    else if VotesDiffer(votes) then SplitNS
    else SplitNone
  }

  // ...and the text that explains it.
  function Explain(domain: string, kind: SplitKind, sys: OutcomeKind,
                   live: seq<string>, nx: seq<string>, voters: seq<string>): string {
    match kind
    case SplitSuppression =>
      if sys == NXDomain then SuppressionText(domain, Names(live))
      else ExistenceText(domain, Names(nx), Names(live))
    case SplitHorizon => HorizonText(domain, Names(nx))
    case SplitNS => DelegationText(domain, Names(voters))
    case SplitNone => ""
  }

  function KindOf(outcomes: seq<Outcome>): SplitKind {
    DecideKind(SystemKind(outcomes), Collect(PublicLive, outcomes), Collect(PublicNX, outcomes),
               Collect(NsVote, outcomes))
  }

  function DetailOf(domain: string, outcomes: seq<Outcome>): string {
    Explain(domain, KindOf(outcomes), SystemKind(outcomes),
            Collect(PublicLive, outcomes), Collect(PublicNX, outcomes), Collect(NsVoter, outcomes))
  }

  method Tally(outcomes: seq<Outcome>)
    returns (sysKind: OutcomeKind, pubLive: seq<string>, pubNX: seq<string>,
             nsVotes: seq<seq<string>>, nsNames: seq<string>)
    ensures sysKind == SystemKind(outcomes)
    ensures pubLive == Collect(PublicLive, outcomes) && pubNX == Collect(PublicNX, outcomes)
    ensures nsVotes == Collect(NsVote, outcomes) && nsNames == Collect(NsVoter, outcomes)
  {
    sysKind := Inconclusive;
    pubLive, pubNX, nsVotes, nsNames := [], [], [], [];
    for i := 0 to |outcomes|
      invariant sysKind == SystemKind(outcomes[..i])
      invariant pubLive == Collect(PublicLive, outcomes[..i])
      invariant pubNX == Collect(PublicNX, outcomes[..i])
      invariant nsVotes == Collect(NsVote, outcomes[..i])
      invariant nsNames == Collect(NsVoter, outcomes[..i])
    {
      var o := outcomes[i];
      assert outcomes[..i + 1][..i] == outcomes[..i];
      if o.name == SYSTEM {
        sysKind := o.kind;
      }
      if o.name != SYSTEM && o.kind == Live {
        pubLive := pubLive + [o.name];
      }
      if o.name != SYSTEM && o.kind == NXDomain {
        pubNX := pubNX + [o.name];
      }
      if o.kind == Live && |o.ns| > 0 {
        nsVotes := nsVotes + [o.ns];
        nsNames := nsNames + [o.name];
      }
    }
    assert outcomes[..|outcomes|] == outcomes;
  }

  method DetectSplit(domain: string, outcomes: seq<Outcome>) returns (kind: SplitKind, detail: string)
    ensures kind == KindOf(outcomes) && detail == DetailOf(domain, outcomes)
  {
    var sysKind, pubLive, pubNX, nsVotes, nsNames := Tally(outcomes);
    if sysKind == NXDomain && |pubLive| > 0 {
      pubLive := Sort(pubLive);
      return SplitSuppression,
        "suppression pattern on " + domain + ": system reports NXDOMAIN while " + Join(pubLive, ", ") + " resolve live";
    }
    if sysKind == Live && |pubNX| > 0 {
      pubNX := Sort(pubNX);
      return SplitHorizon,
        "split-horizon pattern on " + domain + ": system resolves live while " + Join(pubNX, ", ") + " report NXDOMAIN";
    }
    if sysKind == Inconclusive && |pubLive| > 0 && |pubNX| > 0 {
      pubLive := Sort(pubLive);
      pubNX := Sort(pubNX);
      return SplitSuppression,
        "existence split on " + domain + ": " + Join(pubNX, ", ") + " report NXDOMAIN while " + Join(pubLive, ", ")
        + " resolve live (system inconclusive)";
    }
    var i := 1;
    while i < |nsVotes|
      invariant i >= 1
      invariant forall k :: 0 < k < i && k < |nsVotes| ==> multiset(nsVotes[0]) == multiset(nsVotes[k])
    {
      var equal := NsSetsEqual(nsVotes[0], nsVotes[i]);
      if !equal {
        nsNames := Sort(nsNames);
        return SplitNS, "NS delegation split on " + domain + " across resolvers (" + Join(nsNames, ", ") + ")";
      }
      i := i + 1;
    }
    return SplitNone, "";
  }
}
