// internal/dns/spf.go: does the target's SPF policy cover the suspect's
// address? What one evaluation means, with no budget in sight.
module Spf {
  import opened Text
  import opened SpfRecord

  // ----- addresses -----

  // An address is its family and its bits, a network its family and the bits
  // shared by its members.
  datatype Bits = Bits(v6: bool, bits: seq<bool>)

  type IP = a: Bits | |a.bits| == (if a.v6 then 128 else 32) witness Bits(false, seq(32, _ => false))

  type IPv4 = a: IP | !a.v6 witness Bits(false, seq(32, _ => false))

  datatype Net = Net(v6: bool, prefix: seq<bool>)

  predicate Within(n: Net, ip: IP) {
    n.v6 == ip.v6 && n.prefix <= ip.bits
  }

  // ----- the surroundings of one evaluation -----

  // The answers of the pinned resolver (None for a failed lookup), Go's
  // address and CIDR parsers, and the suspect's address.
  datatype Env = Env(
    txt: string -> Option<seq<string>>,
    ip: string -> Option<seq<IP>>,
    mx: string -> Option<seq<string>>,
    parseIP: string -> Option<IP>,
    parseCIDR: string -> Option<Net>,
    suspect: IP)

  datatype Query = TxtOf(name: string) | IpOf(name: string) | MxOf(name: string)

  datatype SPFResult = SPFResult(authorized: bool, cover: string)

  // parseCIDROrHost: a bare address stands for itself alone. The source's v6
  // flag only chooses between a 32- and a 128-bit mask of ones; either way
  // the network has one member.
  function ParseNet(env: Env, s: string): Option<Net> {
    if '/' in s then env.parseCIDR(s)
    else match env.parseIP(TrimSpace(s))
      case None => None
      case Some(ip) => Some(Net(ip.v6, ip.bits))
  }

  predicate InNet(env: Env, value: string) {
    var net := ParseNet(env, value);
    net.Some? && Within(net.value, env.suspect)
  }

  datatype DualCIDR = DualCIDR(host: string, cidr4: Option<Net>, cidr6: Option<Net>)

  function SplitDualCIDR(env: Env, s: string): DualCIDR {
    var parts := SplitN(s, '/', 3);
    DualCIDR(parts[0],
      if |parts| > 1 && parts[1] != "" then ParseNet(env, parts[1]) else None,
      if |parts| > 2 && parts[2] != "" then ParseNet(env, parts[2]) else None)
  }

  predicate AddrMatches(env: Env, a: IP, cidr: Option<Net>) {
    && a.v6 == env.suspect.v6
    && match cidr
       case None => a == env.suspect
       case Some(net) => Within(net, a) && Within(net, env.suspect)
  }

  predicate AddrCovered(env: Env, addrs: seq<IP>, cidr: Option<Net>) {
    exists a :: a in addrs && AddrMatches(env, a, cidr)
  }

  // The hosts of an MX answer, up to the first that covers the suspect; a
  // host that cannot be looked up is passed over.
  function MxScan(env: Env, hosts: seq<string>, cidr: Option<Net>): (bool, seq<Query>) {
    if hosts == [] then (false, [])
    else
      var addrs := env.ip(hosts[0]);
      if addrs.Some? && AddrCovered(env, addrs.value, cidr) then (true, [IpOf(hosts[0])])
      else
        var rest := MxScan(env, hosts[1..], cidr);
        (rest.0, [IpOf(hosts[0])] + rest.1)
  }

  // The scan finds a covering host exactly when there is one, and asks the
  // hosts in order up to and including the first such.
  lemma {:induction false} ScanFindsFirst(env: Env, hosts: seq<string>, cidr: Option<Net>)
    ensures var (hit, qs) := MxScan(env, hosts, cidr);
            && |qs| <= |hosts|
            && (forall i :: 0 <= i < |qs| ==> qs[i] == IpOf(hosts[i]))
            && (forall i :: 0 <= i < |qs| && HostCovers(env, hosts[i], cidr) ==> i == |qs| - 1)
            && (if hit then qs != [] && HostCovers(env, hosts[|qs| - 1], cidr)
                else |qs| == |hosts| && forall i :: 0 <= i < |hosts| ==> !HostCovers(env, hosts[i], cidr))
  {
    if hosts != [] && !HostCovers(env, hosts[0], cidr) {
      ScanFindsFirst(env, hosts[1..], cidr);
      var qs, rest := MxScan(env, hosts, cidr).1, MxScan(env, hosts[1..], cidr).1;
      assert forall i :: 0 < i < |qs| ==> qs[i] == rest[i - 1] && hosts[i] == hosts[1..][i - 1];
    }
  }

  predicate HostCovers(env: Env, host: string, cidr: Option<Net>) {
    var addrs := env.ip(host);
    addrs.Some? && AddrCovered(env, addrs.value, cidr)
  }

  // What a term that names no other record says of the suspect (None when a
  // lookup it needs fails), and the queries it makes.
  function Direct(env: Env, domain: string, m: Mechanism): (Option<bool>, seq<Query>) {
    match m.kind
    case All => (Some(true), [])
    case Ip4 => (Some(InNet(env, m.value)), [])
    case Ip6 => (Some(InNet(env, m.value)), [])
    case A =>
      var host := AddrHost(env, domain, m.value);
      (match env.ip(host)
       case None => None
       case Some(addrs) => Some(AddrCovered(env, addrs, AddrNet(env, m.value))), [IpOf(host)])
    case Mx =>
      var host := AddrHost(env, domain, m.value);
      (match env.mx(host)
       case None => (None, [MxOf(host)])
       case Some(hosts) =>
         var scan := MxScan(env, hosts, AddrNet(env, m.value));
         (Some(scan.0), [MxOf(host)] + scan.1))
    case _ => (Some(false), [])
  }

  function AddrHost(env: Env, domain: string, value: string): string {
    var host := SplitDualCIDR(env, value).host;
    if host == "" then domain else host
  }

  function AddrNet(env: Env, value: string): Option<Net> {
    var dual := SplitDualCIDR(env, value);
    if env.suspect.v6 then dual.cidr6 else dual.cidr4
  }

  // The cover text of a direct match; mechLabel for a and mx.
  function Cover(m: Mechanism): string {
    match m.kind
    case Ip4 => "ip4:" + m.value
    case Ip6 => "ip6:" + m.value
    case A => if m.value == "" then "a" else "a:" + m.value
    case Mx => if m.value == "" then "mx" else "mx:" + m.value
    case _ => ""
  }

  // An ip4 or ip6 term matches the suspects of the network it writes as a
  // CIDR, or the one suspect whose address it writes.
  lemma NetMatchIsExact(env: Env, domain: string, m: Mechanism)
    requires m.kind == Ip4 || m.kind == Ip6
    ensures Direct(env, domain, m).1 == []
    ensures Direct(env, domain, m).0 == Some(true)
            <==> if '/' in m.value then
                   var net := env.parseCIDR(m.value);
                   net.Some? && net.value.v6 == env.suspect.v6 && net.value.prefix <= env.suspect.bits
                 else
                   env.parseIP(TrimSpace(m.value)) == Some(env.suspect)
    ensures Direct(env, domain, m).0 != None
  {
    if '/' !in m.value {
      var ip := env.parseIP(TrimSpace(m.value));
      if ip.Some? && ip.value.v6 == env.suspect.v6 && ip.value.bits <= env.suspect.bits {
        assert ip.value == env.suspect;
      }
    }
  }

  // The cover text of a term that names an address or a host is what the
  // term reads, but for its qualifier.
  lemma CoverSpellsTerm(m: Mechanism)
    requires m.kind == Ip4 || m.kind == Ip6 || m.kind == A || m.kind == Mx
    requires (m.kind == A || m.kind == Mx) && m.value != "" ==> m.value[0] != '/'
    ensures BodySpells(Cover(m), m)
  {
    var sep := if (m.kind == A || m.kind == Mx) && m.value != "" then ":" else "";
    assert BodyBy(Cover(m), m, sep);
  }

  predicate IsSpfRecord(txt: string) {
    TAG <= ToLower(TrimSpace(txt))
  }

  // A TXT string counts as an SPF record if its first word begins with the
  // tag, in whatever case.
  lemma SpfRecordIs(txt: string)
    ensures IsSpfRecord(txt) <==> Fields(txt) != [] && "v=spf1" <= ToLower(Fields(txt)[0])
  {
    FirstWord(txt);
    var core := TrimSpace(txt);
    if Fields(txt) != [] {
      var w := Fields(txt)[0];
      assert core == w + core[|w|..];
      LowerConcat(w, core[|w|..]);
      if |w| < |core| {
        TagHasNoSpace(|w|);
        assert ToLower(core)[|w|] == core[|w|];
      }
    }
  }

  lemma TagHasNoSpace(i: nat)
    ensures i < |TAG| ==> !IsSpace(TAG[i])
  {
  }

  function SpfRecords(txts: seq<string>): seq<string> {
    if txts == [] then []
    else
      var last := |txts| - 1;
      SpfRecords(txts[..last]) + if IsSpfRecord(txts[last]) then [txts[last]] else []
  }

  // The terms of a domain's one and only SPF record.
  function RecordOf(env: Env, domain: string): Option<seq<Mechanism>> {
    var txts := env.txt(domain);
    if txts.None? then None
    else
      var records := SpfRecords(txts.value);
      if |records| == 1 then ParseRecord(records[0]) else None
  }

  lemma {:induction false} NoSpfRecords(txts: seq<string>)
    ensures SpfRecords(txts) == [] <==> forall i :: 0 <= i < |txts| ==> !IsSpfRecord(txts[i])
  {
    if txts != [] {
      NoSpfRecords(txts[..|txts| - 1]);
    }
  }

  ghost predicate OnlySpfRecord(txts: seq<string>, i: int) {
    0 <= i < |txts| && forall j :: 0 <= j < |txts| ==> (IsSpfRecord(txts[j]) <==> j == i)
  }

  lemma {:induction false} OnlyOneSelected(txts: seq<string>, i: int)
    requires OnlySpfRecord(txts, i)
    ensures SpfRecords(txts) == [txts[i]]
  {
    var last := |txts| - 1;
    if i == last {
      NoSpfRecords(txts[..last]);
    } else {
      assert !IsSpfRecord(txts[last]);
      OnlyOneSelected(txts[..last], i);
    }
  }

  lemma {:induction false} OneSelectedIsOnly(txts: seq<string>) returns (i: int)
    requires |SpfRecords(txts)| == 1
    ensures OnlySpfRecord(txts, i)
  {
    var last := |txts| - 1;
    if IsSpfRecord(txts[last]) {
      NoSpfRecords(txts[..last]);
      i := last;
      assert forall j :: 0 <= j < last ==> txts[..last][j] == txts[j];
    } else {
      i := OneSelectedIsOnly(txts[..last]);
      assert forall j :: 0 <= j < last ==> txts[..last][j] == txts[j];
    }
  }

  // Two SPF records are as bad as none.
  lemma RecordIsTheOnlyOne(env: Env, domain: string, ms: seq<Mechanism>)
    ensures RecordOf(env, domain) == Some(ms) <==>
            env.txt(domain).Some?
            && exists i :: OnlySpfRecord(env.txt(domain).value, i) && ParseRecord(env.txt(domain).value[i]) == Some(ms)
  {
    if env.txt(domain).Some? {
      var txts := env.txt(domain).value;
      if |SpfRecords(txts)| == 1 {
        var i := OneSelectedIsOnly(txts);
        OnlyOneSelected(txts, i);
      }
      if i :| OnlySpfRecord(txts, i) {
        OnlyOneSelected(txts, i);
      }
    }
  }

  // A record that is published is the record that is evaluated.
  lemma PublishedIsEvaluated(env: Env, domain: string, ms: seq<Mechanism>)
    requires forall m :: m in ms ==> Printable(m) && Evaluated(m)
    requires env.txt(domain) == Some([PrintRecord(ms)])
    ensures RecordOf(env, domain) == Some(ms)
  {
    var txts := [PrintRecord(ms)];
    PrintedIsTagged(ms);
    assert IsSpfRecord(txts[0]) && SpfRecords(txts[..0]) == [];
    assert SpfRecords(txts) == [] + [txts[0]];
    RecordRoundTrip(ms);
  }

  // ----- the meaning of a record -----

  // Evaluating domain's record ends in out (None when inconclusive) after
  // exactly the queries t. There is no budget: a record graph with a cycle
  // may have no such t at all.
  ghost predicate Yields(env: Env, domain: string, out: Option<SPFResult>, t: seq<Query>)
    decreases |t|, 0
  {
    && |t| >= 1 && t[0] == TxtOf(domain)
    && match RecordOf(env, domain)
       case None => out == None && |t| == 1
       case Some(ms) => TermsYield(env, domain, ms, [], out, t[1..])
  }

  // Term m of domain's record lets the evaluation go on, after the queries
  // t: it does not match, or it includes a record that denies the suspect.
  ghost predicate Passes(env: Env, domain: string, m: Mechanism, t: seq<Query>)
    decreases |t|, 1
  {
    if m.kind == Include then exists r :: Yields(env, m.value, Some(r), t) && !r.authorized
    else Direct(env, domain, m) == (Some(false), t)
  }

  // Term m ends the evaluation in out. An include never looks at its own
  // qualifier.
  ghost predicate Stops(env: Env, domain: string, m: Mechanism, out: Option<SPFResult>, t: seq<Query>)
    decreases |t|, 1
  {
    if m.kind == Include then
      if out.None? then Yields(env, m.value, None, t)
      else out.value == SPFResult(true, "include:" + m.value)
           && exists r :: Yields(env, m.value, Some(r), t) && r.authorized
    else
      var (hit, qs) := Direct(env, domain, m);
      hit != Some(false) && t == qs
      && out == if hit.None? then None else Some(SPFResult(m.qualifier == '+', Cover(m)))
  }

  function RedirectOf(m: Mechanism): seq<string> {
    if m.kind == Redirect then [m.value] else []
  }

  // The same as Yields for the terms still to come, with the redirects met
  // so far.
  ghost predicate TermsYield(env: Env, domain: string, ms: seq<Mechanism>, redirects: seq<string>,
                             out: Option<SPFResult>, t: seq<Query>)
    decreases |t|, 2 + |ms|
  {
    if ms == [] then
      if |redirects| == 1 then Yields(env, redirects[0], out, t)
      else t == [] && out == if redirects == [] then Some(SPFResult(false, "")) else None
    else
      || Stops(env, domain, ms[0], out, t)
      || exists k | 0 <= k <= |t| ::
           Passes(env, domain, ms[0], t[..k])
           && TermsYield(env, domain, ms[1..], redirects + RedirectOf(ms[0]), out, t[k..])
  }

  // The oracle fixes both the answer and the queries.
  lemma {:induction false} YieldsOnce(env: Env, domain: string,
                                      o1: Option<SPFResult>, t1: seq<Query>, o2: Option<SPFResult>, t2: seq<Query>)
    requires Yields(env, domain, o1, t1) && Yields(env, domain, o2, t2)
    ensures o1 == o2 && t1 == t2
    decreases |t1|, 0
  {
    if RecordOf(env, domain).Some? {
      TermsYieldOnce(env, domain, RecordOf(env, domain).value, [], o1, t1[1..], o2, t2[1..]);
    }
    assert t1 == [t1[0]] + t1[1..] && t2 == [t2[0]] + t2[1..];
  }

  lemma {:induction false} PassesOnce(env: Env, domain: string, m: Mechanism, t1: seq<Query>, t2: seq<Query>)
    requires Passes(env, domain, m, t1)
    ensures Passes(env, domain, m, t2) ==> t1 == t2
    ensures forall out :: !Stops(env, domain, m, out, t2)
    decreases |t1|, 1
  {
    if m.kind == Include {
      var r1 :| Yields(env, m.value, Some(r1), t1) && !r1.authorized;
      forall o | Yields(env, m.value, o, t2)
        ensures o == Some(r1) && t1 == t2
      {
        YieldsOnce(env, m.value, Some(r1), t1, o, t2);
      }
      if Passes(env, domain, m, t2) {
        var r2 :| Yields(env, m.value, Some(r2), t2) && !r2.authorized;
      }
    }
  }

  lemma {:induction false} StopsOnce(env: Env, domain: string, m: Mechanism,
                                     o1: Option<SPFResult>, t1: seq<Query>, o2: Option<SPFResult>, t2: seq<Query>)
    requires Stops(env, domain, m, o1, t1)
    ensures Stops(env, domain, m, o2, t2) ==> o1 == o2 && t1 == t2
    ensures !Passes(env, domain, m, t2)
    decreases |t1|, 1
  {
    if m.kind == Include {
      var s1 := IncludedAnswer(env, domain, m, o1, t1);
      forall o | Yields(env, m.value, o, t2)
        ensures o == s1 && t1 == t2
      {
        YieldsOnce(env, m.value, s1, t1, o, t2);
      }
      if Stops(env, domain, m, o2, t2) {
        var s2 := IncludedAnswer(env, domain, m, o2, t2);
      }
    }
  }

  lemma IncludedAnswer(env: Env, domain: string, m: Mechanism, out: Option<SPFResult>, t: seq<Query>)
    returns (sub: Option<SPFResult>)
    requires m.kind == Include && Stops(env, domain, m, out, t)
    ensures Yields(env, m.value, sub, t)
    ensures if sub.None? then out == None
            else sub.value.authorized && out == Some(SPFResult(true, "include:" + m.value))
  {
    if out.None? {
      sub := None;
    } else {
      var r :| Yields(env, m.value, Some(r), t) && r.authorized;
      sub := Some(r);
    }
  }

  lemma {:induction false} TermsYieldOnce(env: Env, domain: string, ms: seq<Mechanism>, redirects: seq<string>,
                                          o1: Option<SPFResult>, t1: seq<Query>, o2: Option<SPFResult>, t2: seq<Query>)
    requires TermsYield(env, domain, ms, redirects, o1, t1) && TermsYield(env, domain, ms, redirects, o2, t2)
    ensures o1 == o2 && t1 == t2
    decreases |t1|, 2 + |ms|
  {
    if ms == [] {
      if |redirects| == 1 {
        YieldsOnce(env, redirects[0], o1, t1, o2, t2);
      }
    } else if Stops(env, domain, ms[0], o1, t1) {
      forall k | 0 <= k <= |t2|
        ensures !Passes(env, domain, ms[0], t2[..k])
      {
        StopsOnce(env, domain, ms[0], o1, t1, o1, t2[..k]);
      }
      StopsOnce(env, domain, ms[0], o1, t1, o2, t2);
    } else {
      var k1 := EndOfPass(env, domain, ms, redirects, o1, t1);
      PassesOnce(env, domain, ms[0], t1[..k1], t2);
      var k2 := EndOfPass(env, domain, ms, redirects, o2, t2);
      PassesOnce(env, domain, ms[0], t1[..k1], t2[..k2]);
      assert k1 == k2 by { assert |t1[..k1]| == |t2[..k2]|; }
      TermsYieldOnce(env, domain, ms[1..], redirects + RedirectOf(ms[0]), o1, t1[k1..], o2, t2[k2..]);
      assert t1 == t1[..k1] + t1[k1..] && t2 == t2[..k2] + t2[k2..];
    }
  }

  // Where the queries of a first term that lets the evaluation go on end.
  lemma EndOfPass(env: Env, domain: string, ms: seq<Mechanism>, redirects: seq<string>,
                  out: Option<SPFResult>, t: seq<Query>) returns (k: nat)
    requires ms != [] && TermsYield(env, domain, ms, redirects, out, t)
    requires !Stops(env, domain, ms[0], out, t)
    ensures k <= |t| && Passes(env, domain, ms[0], t[..k])
    ensures TermsYield(env, domain, ms[1..], redirects + RedirectOf(ms[0]), out, t[k..])
  {
    k :| 0 <= k <= |t| && Passes(env, domain, ms[0], t[..k])
         && TermsYield(env, domain, ms[1..], redirects + RedirectOf(ms[0]), out, t[k..]);
  }

  // Once its first term has let the evaluation go on, a record means what
  // its other terms mean.
  lemma AfterPass(env: Env, domain: string, ms: seq<Mechanism>, redirects: seq<string>, qs: seq<Query>,
                  out: Option<SPFResult>, t: seq<Query>)
    requires ms != [] && Passes(env, domain, ms[0], qs)
    ensures TermsYield(env, domain, ms, redirects, out, t)
            <==> qs <= t && TermsYield(env, domain, ms[1..], redirects + RedirectOf(ms[0]), out, t[|qs|..])
  {
    if TermsYield(env, domain, ms, redirects, out, t) {
      PassesOnce(env, domain, ms[0], qs, t);
      var k := EndOfPass(env, domain, ms, redirects, out, t);
      PassesOnce(env, domain, ms[0], qs, t[..k]);
    }
    if qs <= t {
      assert t[..|qs|] == qs;
    }
  }

  // ----- the beginnings of an evaluation -----

  // Evaluating domain's record asks the queries t and then has another to
  // ask. A cycle of records has such t of every length.
  ghost predicate Begins(env: Env, domain: string, t: seq<Query>)
    decreases |t|, 0
  {
    && |t| >= 1 && t[0] == TxtOf(domain)
    && RecordOf(env, domain).Some? && TermsBegin(env, domain, RecordOf(env, domain).value, [], t[1..])
  }

  // The same of a single term...
  ghost predicate TermBegins(env: Env, domain: string, m: Mechanism, t: seq<Query>)
    decreases |t|, 1
  {
    if m.kind == Include then t == [] || Begins(env, m.value, t)
    else t < Direct(env, domain, m).1
  }

  // ...and of the terms still to come, with the redirects met so far.
  ghost predicate TermsBegin(env: Env, domain: string, ms: seq<Mechanism>, redirects: seq<string>, t: seq<Query>)
    decreases |t|, 2 + |ms|
  {
    if ms == [] then
      |redirects| == 1 && (t == [] || Begins(env, redirects[0], t))
    else
      || TermBegins(env, domain, ms[0], t)
      || exists k | 0 <= k <= |t| ::
           Passes(env, domain, ms[0], t[..k])
           && TermsBegin(env, domain, ms[1..], redirects + RedirectOf(ms[0]), t[k..])
  }

  lemma PrefixInTwo<T>(k: nat, a: seq<T>, b: seq<T>)
    requires k <= |a| && a[..k] <= b
    ensures a[k..] <= b[k..] ==> a <= b
  {
    assert a == a[..k] + a[k..] && b == a[..k] + b[k..];
  }

  // Every beginning is a proper beginning of the complete evaluation...
  lemma {:induction false} BeginsBeforeEnd(env: Env, domain: string, cut: seq<Query>, out: Option<SPFResult>, t: seq<Query>)
    requires Begins(env, domain, cut) && Yields(env, domain, out, t)
    ensures cut < t
    decreases |cut|, 0
  {
    TermsBeginBeforeEnd(env, domain, RecordOf(env, domain).value, [], cut[1..], out, t[1..]);
    PrefixInTwo(1, cut, t);
  }

  lemma {:induction false} TermBeginsBeforeEnd(env: Env, domain: string, m: Mechanism, cut: seq<Query>, t: seq<Query>)
    requires TermBegins(env, domain, m, cut)
    ensures Passes(env, domain, m, t) ==> cut < t
    ensures forall out :: Stops(env, domain, m, out, t) ==> cut < t
    decreases |cut|, 1
  {
    if m.kind == Include {
      forall sub | Yields(env, m.value, sub, t)
        ensures cut < t
      {
        if cut != [] {
          BeginsBeforeEnd(env, m.value, cut, sub, t);
        }
      }
      forall out | Stops(env, domain, m, out, t)
        ensures cut < t
      {
        var sub := IncludedAnswer(env, domain, m, out, t);
      }
      if Passes(env, domain, m, t) {
        var r :| Yields(env, m.value, Some(r), t) && !r.authorized;
      }
    }
  }

  lemma {:induction false} TermsBeginBeforeEnd(env: Env, domain: string, ms: seq<Mechanism>, redirects: seq<string>,
                                               cut: seq<Query>, out: Option<SPFResult>, t: seq<Query>)
    requires TermsBegin(env, domain, ms, redirects, cut) && TermsYield(env, domain, ms, redirects, out, t)
    ensures cut < t
    decreases |cut|, 2 + |ms|
  {
    if ms == [] {
      if cut != [] {
        BeginsBeforeEnd(env, redirects[0], cut, out, t);
      }
    } else if TermBegins(env, domain, ms[0], cut) {
      TermBeginsBeforeEnd(env, domain, ms[0], cut, t);
      if !Stops(env, domain, ms[0], out, t) {
        var k := EndOfPass(env, domain, ms, redirects, out, t);
        TermBeginsBeforeEnd(env, domain, ms[0], cut, t[..k]);
      }
    } else {
      var k := EndOfBeginning(env, domain, ms, redirects, cut);
      AfterPass(env, domain, ms, redirects, cut[..k], out, t);
      TermsBeginBeforeEnd(env, domain, ms[1..], redirects + RedirectOf(ms[0]), cut[k..], out, t[k..]);
      PrefixInTwo(k, cut, t);
    }
  }

  lemma EndOfBeginning(env: Env, domain: string, ms: seq<Mechanism>, redirects: seq<string>, cut: seq<Query>)
    returns (k: nat)
    requires ms != [] && TermsBegin(env, domain, ms, redirects, cut)
    requires !TermBegins(env, domain, ms[0], cut)
    ensures k <= |cut| && Passes(env, domain, ms[0], cut[..k])
    ensures TermsBegin(env, domain, ms[1..], redirects + RedirectOf(ms[0]), cut[k..])
  {
    k :| 0 <= k <= |cut| && Passes(env, domain, ms[0], cut[..k])
         && TermsBegin(env, domain, ms[1..], redirects + RedirectOf(ms[0]), cut[k..]);
  }

  // ...and of every longer beginning.
  lemma {:induction false} BeginsOnce(env: Env, domain: string, cut: seq<Query>, longer: seq<Query>)
    requires Begins(env, domain, cut) && Begins(env, domain, longer) && |cut| <= |longer|
    ensures cut <= longer
    decreases |cut|, 0
  {
    TermsBeginOnce(env, domain, RecordOf(env, domain).value, [], cut[1..], longer[1..]);
    PrefixInTwo(1, cut, longer);
  }

  lemma {:induction false} TermBeginsOnce(env: Env, domain: string, m: Mechanism, cut: seq<Query>, longer: seq<Query>)
    requires TermBegins(env, domain, m, cut) && TermBegins(env, domain, m, longer) && |cut| <= |longer|
    ensures cut <= longer
    decreases |cut|, 1
  {
    if m.kind == Include && cut != [] {
      BeginsOnce(env, m.value, cut, longer);
    }
  }

  lemma {:induction false} TermsBeginOnce(env: Env, domain: string, ms: seq<Mechanism>, redirects: seq<string>,
                                          cut: seq<Query>, longer: seq<Query>)
    requires TermsBegin(env, domain, ms, redirects, cut) && TermsBegin(env, domain, ms, redirects, longer)
    requires |cut| <= |longer|
    ensures cut <= longer
    decreases |cut|, 2 + |ms|
  {
    if ms == [] {
      if cut != [] {
        BeginsOnce(env, redirects[0], cut, longer);
      }
    } else if TermBegins(env, domain, ms[0], cut) {
      if TermBegins(env, domain, ms[0], longer) {
        TermBeginsOnce(env, domain, ms[0], cut, longer);
      } else {
        var k := EndOfBeginning(env, domain, ms, redirects, longer);
        TermBeginsBeforeEnd(env, domain, ms[0], cut, longer[..k]);
      }
    } else {
      var k := EndOfBeginning(env, domain, ms, redirects, cut);
      LongerPasses(env, domain, ms, redirects, cut[..k], longer);
      TermsBeginOnce(env, domain, ms[1..], redirects + RedirectOf(ms[0]), cut[k..], longer[k..]);
      PrefixInTwo(k, cut, longer);
    }
  }

  lemma LongerPasses(env: Env, domain: string, ms: seq<Mechanism>, redirects: seq<string>,
                     qs: seq<Query>, longer: seq<Query>)
    requires ms != [] && Passes(env, domain, ms[0], qs)
    requires TermsBegin(env, domain, ms, redirects, longer) && |qs| <= |longer|
    ensures qs <= longer && TermsBegin(env, domain, ms[1..], redirects + RedirectOf(ms[0]), longer[|qs|..])
  {
    if TermBegins(env, domain, ms[0], longer) {
      TermBeginsBeforeEnd(env, domain, ms[0], longer, qs);
      assert false;
    }
    var k := EndOfBeginning(env, domain, ms, redirects, longer);
    PassesOnce(env, domain, ms[0], qs, longer[..k]);
  }
}
