// internal/dns/resolvers.go: CheckDomain, whose goroutines each fill one slot
// while the main goroutine waits for all of them.
module Probes {
  import opened Text
  import opened Resolvers
  import opened Voting
  import Hosts

  // One resolver and its answers about the domain; ns is None when the NS
  // lookup fails.
  datatype Resolver = Resolver(name: string, ip: Lookup, ns: Option<seq<string>>)

  datatype DomainCheck = DomainCheck(
    systemLive: bool, publicLive: bool, systemAddrs: seq<Addr>, publicAddrs: seq<Addr>,
    hostsHit: bool, hostsIP: string, kind: SplitKind, tampered: bool, detail: string)

  function NormalizeAll(hosts: seq<string>): seq<string> {
    seq(|hosts|, i requires 0 <= i < |hosts| => NormalizeNS(hosts[i]))
  }

  // A goroutine's outcome after its first lookup, and after its second.
  function FirstOutcome(r: Resolver): Outcome {
    var kind := ClassifyOutcome(r.ip);
    Outcome(r.name, kind, [], if kind == Live then r.ip.addrs else [])
  }

  function Answer(r: Resolver): Outcome {
    var out := FirstOutcome(r);
    if out.kind == Live && r.ns.Some? then out.(ns := NormalizeAll(r.ns.value)) else out
  }

  function Answers(rs: seq<Resolver>): (outcomes: seq<Outcome>)
    ensures |outcomes| == |rs|
    ensures forall i :: 0 <= i < |rs| ==> outcomes[i] == Answer(rs[i])
  {
    seq(|rs|, i requires 0 <= i < |rs| => Answer(rs[i]))
  }

  // ----- what is made of the slots -----

  function SystemAddrs(o: Outcome): Option<seq<Addr>> {
    if o.name == SYSTEM && o.kind == Live then Some(o.addrs) else None
  }

  function PublicAddrs(o: Outcome): Option<seq<Addr>> {
    if o.name != SYSTEM && o.kind == Live then Some(o.addrs) else None
  }

  function FirstNonEmpty(lists: seq<seq<Addr>>): seq<Addr> {
    if lists == [] then []
    else
      var last := |lists| - 1;
      var earlier := FirstNonEmpty(lists[..last]);
      if earlier == [] then lists[last] else earlier
  }

  function LastOf(lists: seq<seq<Addr>>): seq<Addr> {
    if lists == [] then [] else lists[|lists| - 1]
  }

  // The check before the hosts file is read.
  function CheckOf(domain: string, outcomes: seq<Outcome>): DomainCheck {
    var sys, pub := Collect(SystemAddrs, outcomes), Collect(PublicAddrs, outcomes);
    var kind := KindOf(outcomes);
    DomainCheck(sys != [], pub != [], LastOf(sys), FirstNonEmpty(pub), false, "",
                kind, kind == SplitSuppression || kind == SplitNS, DetailOf(domain, outcomes))
  }

  lemma SidesSnoc(outcomes: seq<Outcome>, i: nat)
    requires i < |outcomes|
    ensures var o, sys, pub := outcomes[i], Collect(SystemAddrs, outcomes[..i]), Collect(PublicAddrs, outcomes[..i]);
            && Collect(SystemAddrs, outcomes[..i + 1]) ==
                 (if o.name == SYSTEM && o.kind == Live then sys + [o.addrs] else sys)
            && Collect(PublicAddrs, outcomes[..i + 1]) ==
                 if o.name != SYSTEM && o.kind == Live then pub + [o.addrs] else pub
  {
    assert outcomes[..i + 1] == outcomes[..i] + [outcomes[i]];
    CollectSnoc(SystemAddrs, outcomes[..i], outcomes[i]);
    CollectSnoc(PublicAddrs, outcomes[..i], outcomes[i]);
  }

  method LiveSides(outcomes: seq<Outcome>)
    returns (systemLive: bool, publicLive: bool, systemAddrs: seq<Addr>, publicAddrs: seq<Addr>)
    ensures systemLive == (Collect(SystemAddrs, outcomes) != [])
    ensures systemAddrs == LastOf(Collect(SystemAddrs, outcomes))
    ensures publicLive == (Collect(PublicAddrs, outcomes) != [])
    ensures publicAddrs == FirstNonEmpty(Collect(PublicAddrs, outcomes))
  {
    systemLive, publicLive, systemAddrs, publicAddrs := false, false, [], [];
    ghost var sys: seq<seq<Addr>>, pub: seq<seq<Addr>> := [], [];
    for i := 0 to |outcomes|
      invariant sys == Collect(SystemAddrs, outcomes[..i]) && pub == Collect(PublicAddrs, outcomes[..i])
      invariant systemLive == (sys != []) && systemAddrs == LastOf(sys)
      invariant publicLive == (pub != []) && publicAddrs == FirstNonEmpty(pub)
    {
      var o := outcomes[i];
      SidesSnoc(outcomes, i);
      if o.name == SYSTEM && o.kind == Live {
        sys := sys + [o.addrs];
        systemLive, systemAddrs := true, o.addrs;
      }
      if o.name != SYSTEM && o.kind == Live {
        FirstNonEmptySnoc(pub, o.addrs);
        pub := pub + [o.addrs];
        publicLive := true;
        if |publicAddrs| == 0 {
          publicAddrs := o.addrs;
        }
      }
    }
    assert outcomes[..|outcomes|] == outcomes;
  }

  method Summarize(domain: string, outcomes: seq<Outcome>) returns (dc: DomainCheck)
    ensures dc == CheckOf(domain, outcomes)
  {
    var systemLive, publicLive, systemAddrs, publicAddrs := LiveSides(outcomes);
    var kind, detail := DetectSplit(domain, outcomes);
    dc := DomainCheck(systemLive, publicLive, systemAddrs, publicAddrs, false, "",
                      kind, kind == SplitSuppression || kind == SplitNS, detail);
  }

  // The body of one goroutine.
  method Probe(r: Resolver) returns (out: Outcome)
    ensures out == Answer(r)
  {
    out := Outcome(r.name, ClassifyOutcome(r.ip), [], []);
    if out.kind == Live {
      out := out.(addrs := r.ip.addrs);
      if r.ns.Some? {
        var hosts: seq<string> := [];
        for i := 0 to |r.ns.value|
          invariant |hosts| == i && forall k :: 0 <= k < i ==> hosts[k] == NormalizeNS(r.ns.value[k])
        {
          hosts := hosts + [NormalizeNS(r.ns.value[i])];
        }
        out := out.(ns := hosts);
      }
    }
  }

  // ----- the resolvers that are asked -----

  datatype Server = SystemServer | PinnedServer(addr: string)

  datatype Replies = Replies(ip: Lookup, ns: Option<seq<string>>)

  // Name and address of the pinned public resolvers.
  const PINNED := [("1.1.1.1", "1.1.1.1:53"), ("8.8.8.8", "8.8.8.8:53")]

  function Asked(name: string, replies: Replies): Resolver {
    Resolver(name, replies.ip, replies.ns)
  }

  function Table(ask: (Server, string) -> Replies, domain: string): (rs: seq<Resolver>)
    ensures |rs| == 1 + |PINNED|
  {
    [Asked(SYSTEM, ask(SystemServer, domain))]
    + seq(|PINNED|, i requires 0 <= i < |PINNED| => Asked(PINNED[i].0, ask(PinnedServer(PINNED[i].1), domain)))
  }

  function FullCheck(ask: (Server, string) -> Replies, file: Option<string>, domain: string): DomainCheck {
    var dc := CheckOf(domain, Answers(Table(ask, domain)));
    match Hosts.Override(file, domain)
    case None => dc
    case Some(ip) => dc.(hostsHit := true, hostsIP := ip)
  }

  // CheckDomain with its goroutines run one after the other.
  method CheckDomain(ask: (Server, string) -> Replies, file: Option<string>, domain: string) returns (dc: DomainCheck)
    ensures dc == FullCheck(ask, file, domain)
  {
    var names, servers := [SYSTEM], [SystemServer];
    for i := 0 to |PINNED|
      invariant |names| == |servers| == 1 + i
      invariant names[0] == SYSTEM && servers[0] == SystemServer
      invariant forall k :: 0 <= k < i ==> names[1 + k] == PINNED[k].0 && servers[1 + k] == PinnedServer(PINNED[k].1)
    {
      names, servers := names + [PINNED[i].0], servers + [PinnedServer(PINNED[i].1)];
    }
    ghost var rs := Table(ask, domain);
    var outcomes := new Outcome[|servers|](_ => Outcome("", Live, [], []));
    for i := 0 to |servers|
      invariant forall k :: 0 <= k < i ==> outcomes[k] == Answer(rs[k])
    {
      assert rs[i] == Asked(names[i], ask(servers[i], domain));
      outcomes[i] := Probe(Asked(names[i], ask(servers[i], domain)));
    }
    assert outcomes[..] == Answers(rs);
    dc := Summarize(domain, outcomes[..]);
    var ip, hit := Hosts.CheckHostsOverride(file, domain);
    if hit {
      dc := dc.(hostsHit := true, hostsIP := ip);
    }
  }

  predicate HasAddress(r: Replies) {
    r.ip.Found? && r.ip.addrs != []
  }

  // The name does not exist; any other failure says nothing.
  predicate SaysNone(r: Replies) {
    r.ip == Failed(true)
  }

  predicate Finds(ask: (Server, string) -> Replies, server: Server, domain: string) {
    HasAddress(ask(server, domain))
  }

  function Public(ask: (Server, string) -> Replies, domain: string): seq<Replies> {
    [ask(PinnedServer("1.1.1.1:53"), domain), ask(PinnedServer("8.8.8.8:53"), domain)]
  }

  predicate FoundInPublic(ask: (Server, string) -> Replies, domain: string) {
    exists r :: r in Public(ask, domain) && HasAddress(r)
  }

  predicate DeniedInPublic(ask: (Server, string) -> Replies, domain: string) {
    exists r :: r in Public(ask, domain) && SaysNone(r)
  }

  // What one resolver's outcome says of its replies.
  lemma AnswerIs(r: Resolver)
    ensures Answer(r).name == r.name
    ensures Answer(r).kind == Live <==> r.ip.Found? && r.ip.addrs != []
    ensures Answer(r).kind == NXDomain <==> r.ip == Failed(true)
    ensures Answer(r).kind == Live ==> Answer(r).addrs == r.ip.addrs
    ensures Answer(r).ns == if Answer(r).kind == Live && r.ns.Some? then NormalizeAll(r.ns.value) else []
  {
    OutcomeIs(r.ip);
  }

  // Lists that dress the same names are the same vote, and lists that dress
  // different ones are not.
  lemma VotesByName(a: seq<string>, b: seq<string>, as_: seq<string>, bs: seq<string>)
    requires |a| == |as_| && |b| == |bs|
    requires forall i :: 0 <= i < |a| ==> PlainName(as_[i]) && Dressed(a[i], as_[i])
    requires forall i :: 0 <= i < |b| ==> PlainName(bs[i]) && Dressed(b[i], bs[i])
    ensures multiset(NormalizeAll(a)) == multiset(NormalizeAll(b)) <==> multiset(as_) == multiset(bs)
  {
    forall i | 0 <= i < |a|
      ensures NormalizeAll(a)[i] == as_[i]
    {
      NameServerIs(a[i], as_[i]);
    }
    forall i | 0 <= i < |b|
      ensures NormalizeAll(b)[i] == bs[i]
    {
      NameServerIs(b[i], bs[i]);
    }
    assert NormalizeAll(a) == as_ && NormalizeAll(b) == bs;
  }

  predicate PlainName(name: string) {
    name != "" && Edgeless(name) && name[|name| - 1] != '.'
  }

  lemma RowsOfTable(ask: (Server, string) -> Replies, domain: string)
    ensures var rs, pub := Table(ask, domain), Public(ask, domain);
            && |rs| == 3 && rs[0] == Asked(SYSTEM, ask(SystemServer, domain))
            && rs[1] == Asked("1.1.1.1", pub[0]) && rs[2] == Asked("8.8.8.8", pub[1])
            && forall i :: 0 < i < |rs| ==> rs[i].name != SYSTEM
  {
    var rs := Table(ask, domain);
    assert rs[1] == Asked(PINNED[0].0, ask(PinnedServer(PINNED[0].1), domain));
    assert rs[2] == Asked(PINNED[1].0, ask(PinnedServer(PINNED[1].1), domain));
    assert |SYSTEM| == 6 && |PINNED[0].0| == 7 && |PINNED[1].0| == 7;
  }

  lemma {:induction false} FirstIsSystem(rs: seq<Resolver>)
    requires rs != [] && rs[0].name == SYSTEM
    requires forall i :: 0 < i < |rs| ==> rs[i].name != SYSTEM
    ensures Collect(SystemVote, Answers(rs)) == [ClassifyOutcome(rs[0].ip)]
  {
    var last := |rs| - 1;
    assert Answers(rs) == Answers(rs[..last]) + [Answer(rs[last])];
    CollectSnoc(SystemVote, Answers(rs[..last]), Answer(rs[last]));
    if last == 0 {
      assert Collect(SystemVote, Answers(rs[..0])) == [];
    } else {
      FirstIsSystem(rs[..last]);
    }
  }

  // One entry of the table, the first, is called system.
  lemma OneIsSystem(ask: (Server, string) -> Replies, domain: string)
    ensures Collect(SystemVote, Answers(Table(ask, domain))) == [ClassifyOutcome(ask(SystemServer, domain).ip)]
    ensures OneSystem(Answers(Table(ask, domain)))
  {
    RowsOfTable(ask, domain);
    FirstIsSystem(Table(ask, domain));
  }

  // What the three rows show, by side.
  lemma SidesOfTable(ask: (Server, string) -> Replies, domain: string, kind: OutcomeKind)
    ensures var outcomes := Answers(Table(ask, domain));
            && (SystemIs(outcomes, kind) <==> ClassifyOutcome(ask(SystemServer, domain).ip) == kind)
            && (PublicIs(outcomes, kind) <==> exists r :: r in Public(ask, domain) && ClassifyOutcome(r.ip) == kind)
  {
    var rs, pub := Table(ask, domain), Public(ask, domain);
    RowsOfTable(ask, domain);
    var outcomes := Answers(rs);
    assert outcomes == [Answer(rs[0]), Answer(rs[1]), Answer(rs[2])];
    assert outcomes[0] in outcomes && outcomes[1] in outcomes && outcomes[2] in outcomes;
    assert pub[0] in pub && pub[1] in pub;
  }

  lemma LiveSideIs(ask: (Server, string) -> Replies, domain: string)
    ensures var outcomes := Answers(Table(ask, domain));
            && (SystemIs(outcomes, Live) <==> Finds(ask, SystemServer, domain))
            && (PublicIs(outcomes, Live) <==> FoundInPublic(ask, domain))
  {
    SidesOfTable(ask, domain, Live);
    OutcomeIs(ask(SystemServer, domain).ip);
    forall r: Replies
      ensures ClassifyOutcome(r.ip) == Live <==> HasAddress(r)
    {
      OutcomeIs(r.ip);
    }
  }

  lemma DeadSideIs(ask: (Server, string) -> Replies, domain: string)
    ensures var outcomes := Answers(Table(ask, domain));
            && (SystemIs(outcomes, NXDomain) <==> SaysNone(ask(SystemServer, domain)))
            && (PublicIs(outcomes, NXDomain) <==> DeniedInPublic(ask, domain))
  {
    SidesOfTable(ask, domain, NXDomain);
    OutcomeIs(ask(SystemServer, domain).ip);
    forall r: Replies
      ensures ClassifyOutcome(r.ip) == NXDomain <==> SaysNone(r)
    {
      OutcomeIs(r.ip);
    }
  }

  // The split a check reports, from the replies. Horizon: the system finds
  // the domain and a pinned resolver says there is none. Suppression: the
  // other way round, or the pinned ones disagree while the system abstains.
  lemma SplitOfReplies(ask: (Server, string) -> Replies, file: Option<string>, domain: string)
    ensures var dc, sys := FullCheck(ask, file, domain), ask(SystemServer, domain);
            && (dc.kind == SplitHorizon <==> HasAddress(sys) && DeniedInPublic(ask, domain))
            && (dc.kind == SplitSuppression <==>
                  FoundInPublic(ask, domain)
                  && (SaysNone(sys) || (!HasAddress(sys) && DeniedInPublic(ask, domain))))
            && (dc.tampered <==> dc.kind == SplitSuppression || dc.kind == SplitNS)
  {
    OneIsSystem(ask, domain);
    SplitDirection(Answers(Table(ask, domain)));
    LiveSideIs(ask, domain);
    DeadSideIs(ask, domain);
  }

  // The replies of two resolvers that find the domain name different sets of
  // name servers.
  predicate OtherServers(a: Replies, b: Replies) {
    && HasAddress(a) && HasAddress(b) && a.ns.Some? && b.ns.Some? && a.ns.value != [] && b.ns.value != []
    && multiset(NormalizeAll(a.ns.value)) != multiset(NormalizeAll(b.ns.value))
  }

  function AllReplies(ask: (Server, string) -> Replies, domain: string): seq<Replies> {
    [ask(SystemServer, domain)] + Public(ask, domain)
  }

  predicate Divided(replies: seq<Replies>) {
    exists a, b :: a in replies && b in replies && OtherServers(a, b)
  }

  predicate Contradicted(replies: seq<Replies>) {
    exists a, b :: a in replies && b in replies && HasAddress(a) && SaysNone(b)
  }

  lemma ConflictOfReplies(n: string, a: Replies, m: string, b: Replies)
    ensures Conflict(Answer(Asked(n, a)), Answer(Asked(m, b))) <==> (SaysNone(a) && HasAddress(b)) || OtherServers(a, b)
  {
    AnswerIs(Asked(n, a));
    AnswerIs(Asked(m, b));
  }

  lemma ConflictOfRows(rs: seq<Resolver>, replies: seq<Replies>)
    requires |rs| == |replies| && forall i :: 0 <= i < |rs| ==> rs[i] == Asked(rs[i].name, replies[i])
    ensures InConflict(Answers(rs)) <==> Contradicted(replies) || Divided(replies)
  {
    forall i, j | 0 <= i < |rs| && 0 <= j < |rs|
      ensures Conflict(Answers(rs)[i], Answers(rs)[j])
              <==> (SaysNone(replies[i]) && HasAddress(replies[j])) || OtherServers(replies[i], replies[j])
    {
      ConflictOfReplies(rs[i].name, replies[i], rs[j].name, replies[j]);
    }
    ConflictByIndex(Answers(rs));
    ContradictionByIndex(replies);
  }

  // A split of any kind is reported exactly when two of the three replies
  // contradict each other, on existence or on name servers.
  lemma AnySplitOfReplies(ask: (Server, string) -> Replies, file: Option<string>, domain: string)
    ensures FullCheck(ask, file, domain).kind != SplitNone
            <==> Contradicted(AllReplies(ask, domain)) || Divided(AllReplies(ask, domain))
  {
    OneIsSystem(ask, domain);
    RowsOfTable(ask, domain);
    ConflictOfRows(Table(ask, domain), AllReplies(ask, domain));
    SplitIsConflict(Answers(Table(ask, domain)));
  }

  lemma ConflictByIndex(outcomes: seq<Outcome>)
    ensures InConflict(outcomes) <==>
            exists i, j :: 0 <= i < |outcomes| && 0 <= j < |outcomes| && Conflict(outcomes[i], outcomes[j])
  {
  }

  lemma ContradictionByIndex(all: seq<Replies>)
    ensures Contradicted(all) || Divided(all) <==>
            exists i, j :: 0 <= i < |all| && 0 <= j < |all|
                           && ((SaysNone(all[i]) && HasAddress(all[j])) || OtherServers(all[i], all[j]))
  {
  }

  // The two sides of a check are the system resolver and the pinned ones.
  lemma SystemSide(ask: (Server, string) -> Replies, file: Option<string>, domain: string)
    ensures FullCheck(ask, file, domain).systemLive <==> Finds(ask, SystemServer, domain)
    ensures FullCheck(ask, file, domain).systemAddrs
            == if Finds(ask, SystemServer, domain) then ask(SystemServer, domain).ip.addrs else []
  {
    var rs := Table(ask, domain);
    RowsOfTable(ask, domain);
    forall i | 0 <= i < 3 {
      AnswerIs(rs[i]);
    }
    CollectThree(SystemAddrs, rs);
  }

  lemma PublicRows(rs: seq<Resolver>, a: Replies, b: Replies)
    requires |rs| == 3 && rs[0].name == SYSTEM && rs[1].name != SYSTEM && rs[2].name != SYSTEM
    requires rs[1] == Asked(rs[1].name, a) && rs[2] == Asked(rs[2].name, b)
    ensures Collect(PublicAddrs, Answers(rs)) ==
            (if HasAddress(a) then [a.ip.addrs] else []) + if HasAddress(b) then [b.ip.addrs] else []
  {
    forall i | 0 <= i < 3 {
      AnswerIs(rs[i]);
    }
    CollectThree(PublicAddrs, rs);
  }

  lemma PublicFields(ask: (Server, string) -> Replies, file: Option<string>, domain: string, lists: seq<seq<Addr>>)
    requires lists == Collect(PublicAddrs, Answers(Table(ask, domain)))
    ensures FullCheck(ask, file, domain).publicLive == (lists != [])
    ensures FullCheck(ask, file, domain).publicAddrs == FirstNonEmpty(lists)
  {
  }

  lemma FirstListed(a: Replies, b: Replies, lists: seq<seq<Addr>>)
    requires lists == (if HasAddress(a) then [a.ip.addrs] else []) + if HasAddress(b) then [b.ip.addrs] else []
    ensures lists != [] <==> HasAddress(a) || HasAddress(b)
    ensures FirstNonEmpty(lists) == if HasAddress(a) then a.ip.addrs else if HasAddress(b) then b.ip.addrs else []
  {
    FirstOfTwo(if HasAddress(a) then [a.ip.addrs] else [], if HasAddress(b) then [b.ip.addrs] else []);
  }

  lemma PublicSide(ask: (Server, string) -> Replies, file: Option<string>, domain: string)
    ensures FullCheck(ask, file, domain).publicLive <==> FoundInPublic(ask, domain)
    ensures var pub := Public(ask, domain);
            FullCheck(ask, file, domain).publicAddrs ==
            if HasAddress(pub[0]) then pub[0].ip.addrs else if HasAddress(pub[1]) then pub[1].ip.addrs else []
  {
    var a, b := Public(ask, domain)[0], Public(ask, domain)[1];
    var lists := Collect(PublicAddrs, Answers(Table(ask, domain)));
    RowsOfTable(ask, domain);
    PublicRows(Table(ask, domain), a, b);
    FirstListed(a, b, lists);
    TwoPublic(ask, domain);
    PublicFields(ask, file, domain, lists);
  }

  lemma TwoPublic(ask: (Server, string) -> Replies, domain: string)
    ensures FoundInPublic(ask, domain) <==> HasAddress(Public(ask, domain)[0]) || HasAddress(Public(ask, domain)[1])
  {
    assert Public(ask, domain)[0] in Public(ask, domain) && Public(ask, domain)[1] in Public(ask, domain);
  }

  // A check reports an override if and only if the hosts file can be read
  // and maps the domain, and then its address.
  lemma HostsOfCheck(ask: (Server, string) -> Replies, file: Option<string>, domain: string)
    ensures var dc := FullCheck(ask, file, domain);
            && (dc.hostsHit <==> file.Some? && Hosts.Lookup(file.value, domain).Some?)
            && dc.hostsIP == if dc.hostsHit then Hosts.Lookup(file.value, domain).value else ""
  {
  }

  // The names of the pinned resolvers whose replies are picked.
  function PublicNames(pub: seq<Replies>, pick: Replies -> bool): seq<string>
    requires |pub| == 2
  {
    (if pick(pub[0]) then ["1.1.1.1"] else []) + if pick(pub[1]) then ["8.8.8.8"] else []
  }

  function AllNames(replies: seq<Replies>, pick: Replies -> bool): seq<string>
    requires |replies| == 3
  {
    (if pick(replies[0]) then ["system"] else []) + PublicNames(replies[1..], pick)
  }

  predicate HasServers(r: Replies) {
    HasAddress(r) && r.ns.Some? && r.ns.value != []
  }

  predicate RowsAre(rs: seq<Resolver>, replies: seq<Replies>) {
    && |rs| == |replies| == 3
    && rs[0] == Asked(SYSTEM, replies[0])
    && rs[1] == Asked("1.1.1.1", replies[1]) && rs[2] == Asked("8.8.8.8", replies[2])
    && rs[1].name != SYSTEM && rs[2].name != SYSTEM
  }

  lemma LiveNames(rs: seq<Resolver>, replies: seq<Replies>)
    requires RowsAre(rs, replies)
    ensures Collect(PublicLive, Answers(rs)) == PublicNames(replies[1..], HasAddress)
  {
    forall i | 0 <= i < 3 {
      AnswerIs(rs[i]);
    }
    CollectThree(PublicLive, rs);
  }

  lemma DeadNames(rs: seq<Resolver>, replies: seq<Replies>)
    requires RowsAre(rs, replies)
    ensures Collect(PublicNX, Answers(rs)) == PublicNames(replies[1..], SaysNone)
  {
    forall i | 0 <= i < 3 {
      AnswerIs(rs[i]);
    }
    CollectThree(PublicNX, rs);
  }

  lemma VoterIs(name: string, r: Replies)
    ensures Listed(NsVoter(Answer(Asked(name, r)))) == if HasServers(r) then [name] else []
  {
    AnswerIs(Asked(name, r));
    if r.ns.Some? {
      assert |NormalizeAll(r.ns.value)| == |r.ns.value|;
    }
  }

  lemma VoterNames(rs: seq<Resolver>, replies: seq<Replies>)
    requires RowsAre(rs, replies)
    ensures Collect(NsVoter, Answers(rs)) == AllNames(replies, HasServers)
  {
    VoterIs("system", replies[0]);
    VoterIs("1.1.1.1", replies[1]);
    VoterIs("8.8.8.8", replies[2]);
    CollectThree(NsVoter, rs);
    Associative(Listed(NsVoter(Answer(rs[0]))), Listed(NsVoter(Answer(rs[1]))), Listed(NsVoter(Answer(rs[2]))));
  }

  // The text for a split of a kind, with the names of the resolvers on its
  // sides, when the system resolver says that there is no such name or not.
  predicate TextIs(text: string, domain: string, kind: SplitKind, none: bool,
                   live: string, dead: string, voters: string) {
    match kind
    case SplitNone => text == ""
    case SplitHorizon =>
      text == "split-horizon pattern on " + domain + ": system resolves live while " + dead + " report NXDOMAIN"
    case SplitNS => text == "NS delegation split on " + domain + " across resolvers (" + voters + ")"
    case SplitSuppression =>
      if none then
        text == "suppression pattern on " + domain + ": system reports NXDOMAIN while " + live + " resolve live"
      else
        text == "existence split on " + domain + ": " + dead + " report NXDOMAIN while " + live
                + " resolve live (system inconclusive)"
  }

  lemma DetailIs(domain: string, outcomes: seq<Outcome>)
    ensures TextIs(DetailOf(domain, outcomes), domain, KindOf(outcomes), SystemKind(outcomes) == NXDomain,
                   Names(Collect(PublicLive, outcomes)), Names(Collect(PublicNX, outcomes)),
                   Names(Collect(NsVoter, outcomes)))
  {
    ExplainIs(domain, KindOf(outcomes), SystemKind(outcomes),
              Collect(PublicLive, outcomes), Collect(PublicNX, outcomes), Collect(NsVoter, outcomes));
  }

  lemma ExplainIs(domain: string, kind: SplitKind, sys: OutcomeKind,
                  live: seq<string>, nx: seq<string>, voters: seq<string>)
    ensures TextIs(Explain(domain, kind, sys, live, nx, voters), domain, kind, sys == NXDomain,
                   Names(live), Names(nx), Names(voters))
  {
  }

  lemma TextFields(ask: (Server, string) -> Replies, file: Option<string>, domain: string)
    ensures var dc, outcomes := FullCheck(ask, file, domain), Answers(Table(ask, domain));
            dc.kind == KindOf(outcomes) && dc.detail == DetailOf(domain, outcomes)
  {
  }

  // The text of a split names, in order, the resolvers on its sides.
  lemma DetailOfReplies(ask: (Server, string) -> Replies, file: Option<string>, domain: string)
    ensures var dc, pub := FullCheck(ask, file, domain), Public(ask, domain);
            TextIs(dc.detail, domain, dc.kind, SaysNone(ask(SystemServer, domain)),
                   Names(PublicNames(pub, HasAddress)), Names(PublicNames(pub, SaysNone)),
                   Names(AllNames(AllReplies(ask, domain), HasServers)))
  {
    var rs, all := Table(ask, domain), AllReplies(ask, domain);
    RowsOfTable(ask, domain);
    OneIsSystem(ask, domain);
    OutcomeIs(ask(SystemServer, domain).ip);
    assert all[1..] == Public(ask, domain);
    LiveNames(rs, all);
    DeadNames(rs, all);
    VoterNames(rs, all);
    TextFields(ask, file, domain);
    DetailIs(domain, Answers(rs));
  }

  function Listed<T>(v: Option<T>): seq<T> {
    match v case None => [] case Some(x) => [x]
  }

  lemma CollectListed<T>(f: Outcome -> Option<T>, init: seq<Outcome>, last: Outcome, longer: seq<Outcome>)
    requires longer == init + [last]
    ensures Collect(f, longer) == Collect(f, init) + Listed(f(last))
  {
    CollectSnoc(f, init, last);
  }

  lemma CollectOfThree<T>(f: Outcome -> Option<T>, a: Outcome, b: Outcome, c: Outcome)
    ensures Collect(f, [a, b, c]) == Listed(f(a)) + Listed(f(b)) + Listed(f(c))
  {
    CollectListed(f, [a, b], c, [a, b, c]);
    CollectListed(f, [a], b, [a, b]);
    CollectListed(f, [], a, [a]);
    NothingInFront(Listed(f(a)));
  }

  lemma NothingInFront<T>(s: seq<T>)
    ensures [] + s == s
  {
  }

  lemma CollectThree<T>(f: Outcome -> Option<T>, rs: seq<Resolver>)
    requires |rs| == 3
    ensures Collect(f, Answers(rs)) == Listed(f(Answer(rs[0]))) + Listed(f(Answer(rs[1]))) + Listed(f(Answer(rs[2])))
  {
    assert Answers(rs) == [Answer(rs[0]), Answer(rs[1]), Answer(rs[2])];
    CollectOfThree(f, Answer(rs[0]), Answer(rs[1]), Answer(rs[2]));
  }

  lemma FirstOfTwo(a: seq<seq<Addr>>, b: seq<seq<Addr>>)
    requires |a| <= 1 && |b| <= 1 && forall l :: l in a + b ==> l != []
    ensures FirstNonEmpty(a + b) == if a != [] then a[0] else if b != [] then b[0] else []
  {
    assert forall l :: l in a || l in b ==> l in a + b;
    if b != [] {
      FirstNonEmptySnoc(a, b[0]);
      assert a + b == a + [b[0]];
    } else {
      assert a + b == a;
    }
    if a != [] {
      assert a[..0] == [] && a[0] in a;
    }
    assert b != [] ==> b[0] in b;
  }

  lemma FirstNonEmptySnoc(lists: seq<seq<Addr>>, list: seq<Addr>)
    ensures FirstNonEmpty(lists + [list]) == if FirstNonEmpty(lists) == [] then list else FirstNonEmpty(lists)
  {
    assert (lists + [list])[..|lists|] == lists;
  }

  lemma {:induction false} FirstPublic(outcomes: seq<Outcome>, i: nat)
    requires i < |outcomes| && PublicAddrs(outcomes[i]).Some? && outcomes[i].addrs != []
    requires forall j :: 0 <= j < i ==> PublicAddrs(outcomes[j]) == None
    ensures FirstNonEmpty(Collect(PublicAddrs, outcomes)) == outcomes[i].addrs
    decreases |outcomes|
  {
    var last := |outcomes| - 1;
    var init := Collect(PublicAddrs, outcomes[..last]);
    if i < last {
      FirstPublic(outcomes[..last], i);
      FirstNonEmptySnoc(init, outcomes[last].addrs);
      assert init + [] == init;
    } else {
      NonePublic(outcomes[..last]);
      FirstNonEmptySnoc([], outcomes[last].addrs);
    }
  }

  lemma {:induction false} NonePublic(outcomes: seq<Outcome>)
    requires forall j :: 0 <= j < |outcomes| ==> PublicAddrs(outcomes[j]) == None
    ensures Collect(PublicAddrs, outcomes) == []
  {
    if outcomes != [] {
      NonePublic(outcomes[..|outcomes| - 1]);
    }
  }

  // The endpoint probed for the public side is that of the first live public
  // resolver.
  lemma FirstLivePublicWins(domain: string, rs: seq<Resolver>, i: nat)
    requires i < |rs| && rs[i].name != SYSTEM && ClassifyOutcome(rs[i].ip) == Live
    requires forall j :: 0 <= j < i ==> rs[j].name == SYSTEM || ClassifyOutcome(rs[j].ip) != Live
    ensures CheckOf(domain, Answers(rs)).publicAddrs == rs[i].ip.addrs
  {
    FirstPublic(Answers(rs), i);
  }

  lemma SystemLiveIsVote(outcomes: seq<Outcome>)
    requires OneSystem(outcomes)
    ensures Collect(SystemAddrs, outcomes) != [] <==> SystemKind(outcomes) == Live
  {
    if SystemKind(outcomes) == Live {
      var o := Voter(SystemVote, outcomes, |Collect(SystemVote, outcomes)| - 1);
      CollectMember(SystemAddrs, outcomes, o.addrs);
    }
    if Collect(SystemAddrs, outcomes) != [] {
      var o := Voter(SystemAddrs, outcomes, 0);
      SystemSpeaks(outcomes, o);
    }
  }

  // A run that passes the liveness gate is scored with no split, a horizon
  // or a name server split, so only the last can count as tampering.
  lemma PastTheGate(domain: string, outcomes: seq<Outcome>)
    requires OneSystem(outcomes) && CheckOf(domain, outcomes).systemLive
    ensures CheckOf(domain, outcomes).kind != SplitSuppression
    ensures CheckOf(domain, outcomes).tampered <==> CheckOf(domain, outcomes).kind == SplitNS
  {
    SystemLiveIsVote(outcomes);
  }

  // ----- the goroutines -----

  // Where a goroutine is: not started, before its first lookup, before its
  // second, about to write its slot, about to sign off, gone.
  datatype Pc = Unborn | Looking | Asking(out: Outcome) | Writing(out: Outcome) | Leaving | Gone

  // The goroutines, the slots they share, how many the main goroutine has
  // started, the wait group's counter, and the main goroutine's result.
  datatype State = State(pcs: seq<Pc>, slots: seq<Outcome>, started: nat, pending: int, result: Option<DomainCheck>)

  // The main goroutine starts the next worker or collects the result; worker
  // i takes its next step.
  datatype Step = Start | Work(i: nat) | Finish

  function Init(rs: seq<Resolver>): State {
    // A fresh slot is Go's zero value, which looks like a live answer.
    State(seq(|rs|, _ => Unborn), seq(|rs|, _ => Outcome("", Live, [], [])), 0, 0, None)
  }

  predicate Enabled(rs: seq<Resolver>, s: State, step: Step) {
    match step
    case Start => s.started < |rs| && s.started < |s.pcs|
    case Work(i) => i < |s.pcs| && i < |s.slots| && i < |rs| && s.pcs[i] != Unborn && s.pcs[i] != Gone
    case Finish => s.started == |rs| && s.pending == 0 && s.result == None
  }

  function Take(domain: string, rs: seq<Resolver>, s: State, step: Step): State
    requires Enabled(rs, s, step)
  {
    match step
    case Start =>
      s.(pcs := s.pcs[s.started := Looking], started := s.started + 1, pending := s.pending + 1)
    case Finish =>
      s.(result := Some(CheckOf(domain, s.slots)))
    case Work(i) =>
      match s.pcs[i]
      case Looking =>
        var out := FirstOutcome(rs[i]);
        s.(pcs := s.pcs[i := if out.kind == Live then Asking(out) else Writing(out)])
      case Asking(out) =>
        s.(pcs := s.pcs[i := Writing(if rs[i].ns.Some? then out.(ns := NormalizeAll(rs[i].ns.value)) else out)])
      case Writing(out) =>
        s.(pcs := s.pcs[i := Leaving], slots := s.slots[i := out])
      case Leaving =>
        s.(pcs := s.pcs[i := Gone], pending := s.pending - 1)
  }

  ghost predicate Run(domain: string, rs: seq<Resolver>, steps: seq<Step>, s: State) {
    if steps == [] then s == Init(rs)
    else
      var last := |steps| - 1;
      exists before :: Run(domain, rs, steps[..last], before) && Enabled(rs, before, steps[last])
                       && s == Take(domain, rs, before, steps[last])
  }

  predicate Active(pc: Pc) {
    pc != Unborn && pc != Gone
  }

  function Running(pcs: seq<Pc>): nat {
    if pcs == [] then 0 else Running(pcs[..|pcs| - 1]) + if Active(pcs[|pcs| - 1]) then 1 else 0
  }

  lemma {:induction false} RunningUpdate(pcs: seq<Pc>, i: nat, pc: Pc)
    requires i < |pcs|
    ensures Running(pcs[i := pc]) == Running(pcs) - (if Active(pcs[i]) then 1 else 0) + if Active(pc) then 1 else 0
  {
    var last := |pcs| - 1;
    if i < last {
      RunningUpdate(pcs[..last], i, pc);
      assert pcs[i := pc][..last] == pcs[..last][i := pc];
    } else {
      assert pcs[i := pc][..last] == pcs[..last];
    }
  }

  lemma {:induction false} NoneRunning(pcs: seq<Pc>, i: nat)
    requires i < |pcs| && Running(pcs) == 0
    ensures !Active(pcs[i])
  {
    if i < |pcs| - 1 {
      NoneRunning(pcs[..|pcs| - 1], i);
    }
  }

  ghost predicate GoodWorker(r: Resolver, pc: Pc, slot: Outcome) {
    match pc
    case Asking(out) => out == FirstOutcome(r) && out.kind == Live
    case Writing(out) => out == Answer(r)
    case Leaving => slot == Answer(r)
    case Gone => slot == Answer(r)
    case _ => true
  }

  ghost predicate Inv(domain: string, rs: seq<Resolver>, s: State) {
    && |s.pcs| == |s.slots| == |rs| && s.started <= |rs|
    && s.pending == Running(s.pcs)
    && (forall i :: 0 <= i < |rs| ==> (s.pcs[i] == Unborn <==> i >= s.started))
    && (forall i :: 0 <= i < |rs| ==> GoodWorker(rs[i], s.pcs[i], s.slots[i]))
    && (s.result.Some? ==> s.started == |rs| && s.pending == 0
                           && s.slots == Answers(rs) && s.result == Some(CheckOf(domain, Answers(rs))))
  }

  lemma {:induction false} InitRunning(n: nat)
    ensures Running(seq(n, _ => Unborn)) == 0
  {
    if n > 0 {
      InitRunning(n - 1);
      assert seq(n, _ => Unborn)[..n - 1] == seq(n - 1, _ => Unborn);
    }
  }

  lemma AllSlotsWritten(domain: string, rs: seq<Resolver>, s: State)
    requires Inv(domain, rs, s) && s.started == |rs| && s.pending == 0
    ensures s.slots == Answers(rs)
  {
    forall i | 0 <= i < |rs|
      ensures s.slots[i] == Answer(rs[i])
    {
      NoneRunning(s.pcs, i);
    }
  }

  lemma InvWork(domain: string, rs: seq<Resolver>, s: State, i: nat)
    requires Inv(domain, rs, s) && Enabled(rs, s, Work(i))
    ensures Inv(domain, rs, Take(domain, rs, s, Work(i)))
  {
    var s' := Take(domain, rs, s, Work(i));
    RunningUpdate(s.pcs, i, s'.pcs[i]);
    assert s.pending > 0 by {
      if s.pending == 0 {
        NoneRunning(s.pcs, i);
      }
    }
    assert GoodWorker(rs[i], s'.pcs[i], s'.slots[i]);
  }

  lemma InvStep(domain: string, rs: seq<Resolver>, s: State, step: Step)
    requires Inv(domain, rs, s) && Enabled(rs, s, step)
    ensures Inv(domain, rs, Take(domain, rs, s, step))
  {
    match step
    case Start => RunningUpdate(s.pcs, s.started, Looking);
    case Finish => AllSlotsWritten(domain, rs, s);
    case Work(i) => InvWork(domain, rs, s, i);
  }

  lemma {:induction false} InvAlways(domain: string, rs: seq<Resolver>, steps: seq<Step>, s: State)
    requires Run(domain, rs, steps, s)
    ensures Inv(domain, rs, s)
  {
    if steps == [] {
      InitRunning(|rs|);
    } else {
      var last := |steps| - 1;
      var before :| Run(domain, rs, steps[..last], before) && Enabled(rs, before, steps[last])
                    && s == Take(domain, rs, before, steps[last]);
      InvAlways(domain, rs, steps[..last], before);
      InvStep(domain, rs, before, steps[last]);
    }
  }

  // Whatever the interleaving, the slots and the result are those of asking
  // the resolvers one after the other.
  lemma InterleavingIrrelevant(domain: string, rs: seq<Resolver>, steps: seq<Step>, s: State)
    requires Run(domain, rs, steps, s) && s.result.Some?
    ensures s.slots == Answers(rs) && s.result.value == CheckOf(domain, Answers(rs))
  {
    InvAlways(domain, rs, steps, s);
  }

  // No deadlock: until there is a result, some step can be taken.
  lemma AlwaysAStep(domain: string, rs: seq<Resolver>, steps: seq<Step>, s: State) returns (step: Step)
    requires Run(domain, rs, steps, s) && s.result == None
    ensures Enabled(rs, s, step)
  {
    InvAlways(domain, rs, steps, s);
    if s.started < |rs| {
      return Start;
    } else if s.pending == 0 {
      return Finish;
    } else {
      var i := SomeRunning(s.pcs);
      return Work(i);
    }
  }

  lemma {:induction false} SomeRunning(pcs: seq<Pc>) returns (i: nat)
    requires Running(pcs) > 0
    ensures i < |pcs| && Active(pcs[i])
  {
    if Active(pcs[|pcs| - 1]) {
      return |pcs| - 1;
    } else {
      i := SomeRunning(pcs[..|pcs| - 1]);
    }
  }

  function Left(pc: Pc): nat {
    match pc
    case Unborn => 5
    case Looking => 4
    case Asking(_) => 3
    case Writing(_) => 2
    case Leaving => 1
    case Gone => 0
  }

  function TotalLeft(pcs: seq<Pc>): nat {
    if pcs == [] then 0 else TotalLeft(pcs[..|pcs| - 1]) + Left(pcs[|pcs| - 1])
  }

  lemma {:induction false} TotalLeftUpdate(pcs: seq<Pc>, i: nat, pc: Pc)
    requires i < |pcs|
    ensures TotalLeft(pcs[i := pc]) == TotalLeft(pcs) - Left(pcs[i]) + Left(pc)
  {
    var last := |pcs| - 1;
    if i < last {
      TotalLeftUpdate(pcs[..last], i, pc);
      assert pcs[i := pc][..last] == pcs[..last][i := pc];
    } else {
      assert pcs[i := pc][..last] == pcs[..last];
    }
  }

  lemma {:induction false} InitLeft(n: nat)
    ensures TotalLeft(seq(n, _ => Unborn)) == 5 * n
  {
    if n > 0 {
      InitLeft(n - 1);
      assert seq(n, _ => Unborn)[..n - 1] == seq(n - 1, _ => Unborn);
    }
  }

  // No more steps than this are still to come.
  function StepsLeft(s: State): nat {
    TotalLeft(s.pcs) + if s.result == None then 1 else 0
  }

  lemma StepUsesUp(domain: string, rs: seq<Resolver>, s: State, step: Step)
    requires Inv(domain, rs, s) && Enabled(rs, s, step)
    ensures StepsLeft(Take(domain, rs, s, step)) < StepsLeft(s)
  {
    match step
    case Start => TotalLeftUpdate(s.pcs, s.started, Looking);
    case Work(i) => TotalLeftUpdate(s.pcs, i, Take(domain, rs, s, step).pcs[i]);
    case Finish =>
  }

  // And every run ends: it has at most five steps a worker and one more.
  lemma {:induction false} RunsAreShort(domain: string, rs: seq<Resolver>, steps: seq<Step>, s: State)
    requires Run(domain, rs, steps, s)
    ensures |steps| + StepsLeft(s) <= 5 * |rs| + 1
  {
    if steps == [] {
      InitLeft(|rs|);
    } else {
      var last := |steps| - 1;
      var before :| Run(domain, rs, steps[..last], before) && Enabled(rs, before, steps[last])
                    && s == Take(domain, rs, before, steps[last]);
      RunsAreShort(domain, rs, steps[..last], before);
      InvAlways(domain, rs, steps[..last], before);
      StepUsesUp(domain, rs, before, steps[last]);
    }
  }
}
