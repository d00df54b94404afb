// What the vote over resolver outcomes guarantees.
module Voting {
  import opened Text
  import opened Sorting
  import opened Resolvers

  // CheckDomain names one resolver "system".
  predicate OneSystem(outcomes: seq<Outcome>) {
    |Collect(SystemVote, outcomes)| <= 1
  }

  lemma {:induction false} CollectConcat<T>(f: Outcome -> Option<T>, a: seq<Outcome>, b: seq<Outcome>)
    ensures Collect(f, a + b) == Collect(f, a) + Collect(f, b)
  {
    if b == [] {
      assert a + b == a;
    } else {
      var init := b[..|b| - 1];
      CollectConcat(f, a, init);
      assert (a + b)[..|a + b| - 1] == a + init;
    }
  }

  lemma {:induction false} CollectMember<T>(f: Outcome -> Option<T>, outcomes: seq<Outcome>, v: T)
    ensures v in Collect(f, outcomes) <==> exists o :: o in outcomes && f(o) == Some(v)
  {
    if outcomes != [] {
      var init, last := outcomes[..|outcomes| - 1], outcomes[|outcomes| - 1];
      CollectMember(f, init, v);
      assert outcomes == init + [last];
    }
  }

  lemma TakeOut<T>(s: seq<T>, x: T) returns (before: seq<T>, after: seq<T>)
    requires x in s
    ensures s == before + [x] + after
    ensures multiset(before + after) == multiset(s) - multiset{x}
  {
    var i :| 0 <= i < |s| && s[i] == x;
    before, after := s[..i], s[i + 1..];
  }

  lemma {:induction false} CollectPermuted<T>(f: Outcome -> Option<T>, a: seq<Outcome>, b: seq<Outcome>)
    requires multiset(a) == multiset(b)
    ensures multiset(Collect(f, a)) == multiset(Collect(f, b))
  {
    SameLength(a, b);
    if a != [] {
      var init, x := a[..|a| - 1], a[|a| - 1];
      assert a == init + [x];
      assert x in multiset(b);
      var before, after := TakeOut(b, x);
      assert multiset(init) == multiset(a) - multiset{x};
      CollectPermuted(f, init, before + after);
      CollectConcat(f, init, [x]);
      CollectConcat(f, before, after);
      CollectConcat(f, before + [x], after);
      CollectConcat(f, before, [x]);
    }
  }

  ghost predicate SomePairDiffers<T(!new)>(votes: multiset<seq<T>>) {
    exists u, v :: u in votes && v in votes && multiset(u) != multiset(v)
  }

  // Comparing with the first vote alone is enough.
  lemma VotesDifferAnyPair<T(!new)>(votes: seq<seq<T>>)
    ensures VotesDiffer(votes) <==> SomePairDiffers(multiset(votes))
  {
    if VotesDiffer(votes) {
      var i :| 0 < i < |votes| && multiset(votes[0]) != multiset(votes[i]);
      assert votes[0] in multiset(votes) && votes[i] in multiset(votes);
    } else {
      forall u | u in multiset(votes)
        ensures multiset(u) == multiset(votes[0])
      {
        var i :| 0 <= i < |votes| && votes[i] == u;
      }
    }
  }

  lemma ShortPermuted<T>(u: seq<T>, v: seq<T>)
    requires multiset(u) == multiset(v) && |u| <= 1
    ensures u == v
  {
    SameLength(u, v);
    if u != [] {
      assert u == [u[0]] && v == [v[0]];
      assert multiset(u)[u[0]] == 1 && u[0] in multiset(v);
    }
  }

  lemma SystemPermuted(a: seq<Outcome>, b: seq<Outcome>)
    requires multiset(a) == multiset(b) && OneSystem(a)
    ensures SystemKind(a) == SystemKind(b)
  {
    CollectPermuted(SystemVote, a, b);
    ShortPermuted(Collect(SystemVote, a), Collect(SystemVote, b));
  }

  lemma EmptinessPermuted<T>(f: Outcome -> Option<T>, a: seq<Outcome>, b: seq<Outcome>)
    requires multiset(a) == multiset(b)
    ensures Collect(f, a) == [] <==> Collect(f, b) == []
  {
    CollectPermuted(f, a, b);
    SameLength(Collect(f, a), Collect(f, b));
  }

  lemma DifferPermuted(a: seq<Outcome>, b: seq<Outcome>)
    requires multiset(a) == multiset(b)
    ensures VotesDiffer(Collect(NsVote, a)) <==> VotesDiffer(Collect(NsVote, b))
  {
    CollectPermuted(NsVote, a, b);
    VotesDifferAnyPair(Collect(NsVote, a));
    VotesDifferAnyPair(Collect(NsVote, b));
  }

  lemma KindPermuted(a: seq<Outcome>, b: seq<Outcome>)
    requires multiset(a) == multiset(b) && OneSystem(a)
    ensures SystemKind(a) == SystemKind(b) && KindOf(a) == KindOf(b)
  {
    SystemPermuted(a, b);
    EmptinessPermuted(PublicLive, a, b);
    EmptinessPermuted(PublicNX, a, b);
    DifferPermuted(a, b);
  }

  lemma NamesCollected(f: Outcome -> Option<string>, a: seq<Outcome>, b: seq<Outcome>)
    requires multiset(a) == multiset(b)
    ensures Names(Collect(f, a)) == Names(Collect(f, b))
  {
    CollectPermuted(f, a, b);
    SortIsCanonical(Collect(f, a), Collect(f, b));
  }

  lemma ExplainByNames(domain: string, kind: SplitKind, sys: OutcomeKind,
                       live: seq<string>, nx: seq<string>, voters: seq<string>,
                       live': seq<string>, nx': seq<string>, voters': seq<string>)
    requires Names(live) == Names(live') && Names(nx) == Names(nx') && Names(voters) == Names(voters')
    ensures Explain(domain, kind, sys, live, nx, voters) == Explain(domain, kind, sys, live', nx', voters')
  {
  }

  // Kind and text do not depend on the order of the resolvers.
  lemma SplitPermuted(domain: string, a: seq<Outcome>, b: seq<Outcome>)
    requires multiset(a) == multiset(b) && OneSystem(a)
    ensures KindOf(a) == KindOf(b) && DetailOf(domain, a) == DetailOf(domain, b)
  {
    KindPermuted(a, b);
    NamesCollected(PublicLive, a, b);
    NamesCollected(PublicNX, a, b);
    NamesCollected(NsVoter, a, b);
    ExplainByNames(domain, KindOf(a), SystemKind(a),
      Collect(PublicLive, a), Collect(PublicNX, a), Collect(NsVoter, a),
      Collect(PublicLive, b), Collect(PublicNX, b), Collect(NsVoter, b));
  }

  // ----- abstention -----

  function Conclusive(outcomes: seq<Outcome>): seq<Outcome> {
    if outcomes == [] then []
    else
      var last := |outcomes| - 1;
      Conclusive(outcomes[..last]) + if outcomes[last].kind == Inconclusive then [] else [outcomes[last]]
  }

  lemma CollectSnoc<T>(f: Outcome -> Option<T>, init: seq<Outcome>, last: Outcome)
    ensures Collect(f, init + [last]) == match f(last) case None => Collect(f, init) case Some(v) => Collect(f, init) + [v]
  {
    assert (init + [last])[..|init|] == init;
  }

  lemma ConclusiveSnoc(init: seq<Outcome>, last: Outcome)
    ensures Conclusive(init + [last]) == if last.kind == Inconclusive then Conclusive(init) else Conclusive(init) + [last]
  {
    assert (init + [last])[..|init|] == init;
  }

  lemma {:induction false} CollectConclusive<T>(f: Outcome -> Option<T>, outcomes: seq<Outcome>)
    requires forall o: Outcome :: o.kind == Inconclusive ==> f(o) == None
    ensures Collect(f, Conclusive(outcomes)) == Collect(f, outcomes)
  {
    if outcomes != [] {
      var init, last := outcomes[..|outcomes| - 1], outcomes[|outcomes| - 1];
      assert outcomes == init + [last];
      CollectConclusive(f, init);
      ConclusiveSnoc(init, last);
      CollectSnoc(f, init, last);
      CollectSnoc(f, Conclusive(init), last);
    }
  }

  lemma {:induction false} SystemConclusive(outcomes: seq<Outcome>)
    requires OneSystem(outcomes)
    ensures var votes := Collect(SystemVote, outcomes);
            Collect(SystemVote, Conclusive(outcomes)) == if votes == [Inconclusive] then [] else votes
  {
    if outcomes != [] {
      var init, last := outcomes[..|outcomes| - 1], outcomes[|outcomes| - 1];
      assert outcomes == init + [last];
      ConclusiveSnoc(init, last);
      CollectSnoc(SystemVote, init, last);
      CollectSnoc(SystemVote, Conclusive(init), last);
      SystemConclusive(init);
    }
  }

  lemma SystemKindConclusive(outcomes: seq<Outcome>)
    requires OneSystem(outcomes)
    ensures SystemKind(Conclusive(outcomes)) == SystemKind(outcomes)
  {
    SystemConclusive(outcomes);
  }

  // Inconclusive outcomes abstain.
  lemma SplitIgnoresInconclusive(domain: string, outcomes: seq<Outcome>)
    requires OneSystem(outcomes)
    ensures KindOf(Conclusive(outcomes)) == KindOf(outcomes)
    ensures DetailOf(domain, Conclusive(outcomes)) == DetailOf(domain, outcomes)
  {
    SystemKindConclusive(outcomes);
    CollectConclusive(PublicLive, outcomes);
    CollectConclusive(PublicNX, outcomes);
    CollectConclusive(NsVote, outcomes);
    CollectConclusive(NsVoter, outcomes);
  }

  // ----- a split is a conflict of two conclusive votes -----

  // One resolver finds the domain and the other learns that it does not
  // exist, or both find it under different name servers.
  ghost predicate Conflict(a: Outcome, b: Outcome) {
    || (a.kind == NXDomain && b.kind == Live)
    || (a.kind == Live && b.kind == Live && a.ns != [] && b.ns != [] && multiset(a.ns) != multiset(b.ns))
  }

  ghost predicate InConflict(outcomes: seq<Outcome>) {
    exists a, b :: a in outcomes && b in outcomes && Conflict(a, b)
  }

  lemma SystemSpeaks(outcomes: seq<Outcome>, o: Outcome)
    requires OneSystem(outcomes) && o in outcomes && o.name == SYSTEM
    ensures SystemKind(outcomes) == o.kind
  {
    CollectMember(SystemVote, outcomes, o.kind);
  }

  lemma Voter<T>(f: Outcome -> Option<T>, outcomes: seq<Outcome>, i: nat) returns (o: Outcome)
    requires i < |Collect(f, outcomes)|
    ensures o in outcomes && f(o) == Some(Collect(f, outcomes)[i])
  {
    CollectMember(f, outcomes, Collect(f, outcomes)[i]);
    o :| o in outcomes && f(o) == Some(Collect(f, outcomes)[i]);
  }

  lemma SplitNeedsConflict(outcomes: seq<Outcome>) returns (a: Outcome, b: Outcome)
    requires KindOf(outcomes) != SplitNone
    ensures a in outcomes && b in outcomes && Conflict(a, b)
  {
    var sys := SystemKind(outcomes);
    var live, nx, votes := Collect(PublicLive, outcomes), Collect(PublicNX, outcomes), Collect(NsVote, outcomes);
    if sys == NXDomain && live != [] {
      a := Voter(SystemVote, outcomes, |Collect(SystemVote, outcomes)| - 1);
      b := Voter(PublicLive, outcomes, 0);
    } else if sys == Live && nx != [] {
      a := Voter(PublicNX, outcomes, 0);
      b := Voter(SystemVote, outcomes, |Collect(SystemVote, outcomes)| - 1);
    } else if sys == Inconclusive && live != [] && nx != [] {
      a := Voter(PublicNX, outcomes, 0);
      b := Voter(PublicLive, outcomes, 0);
    } else {
      var i :| 0 < i < |votes| && multiset(votes[0]) != multiset(votes[i]);
      a := Voter(NsVote, outcomes, 0);
      b := Voter(NsVote, outcomes, i);
    }
  }

  lemma ConflictMakesSplit(outcomes: seq<Outcome>, a: Outcome, b: Outcome)
    requires OneSystem(outcomes) && a in outcomes && b in outcomes && Conflict(a, b)
    ensures KindOf(outcomes) != SplitNone
  {
    if a.kind == Live {
      CollectMember(NsVote, outcomes, a.ns);
      CollectMember(NsVote, outcomes, b.ns);
      VotesDifferAnyPair(Collect(NsVote, outcomes));
      assert a.ns in multiset(Collect(NsVote, outcomes)) && b.ns in multiset(Collect(NsVote, outcomes));
    } else {
      if a.name == SYSTEM {
        SystemSpeaks(outcomes, a);
      } else {
        CollectMember(PublicNX, outcomes, a.name);
      }
      if b.name == SYSTEM {
        SystemSpeaks(outcomes, b);
      } else {
        CollectMember(PublicLive, outcomes, b.name);
      }
    }
  }

  // A split is reported exactly when two conclusive votes conflict.
  lemma SplitIsConflict(outcomes: seq<Outcome>)
    requires OneSystem(outcomes)
    ensures KindOf(outcomes) != SplitNone <==> InConflict(outcomes)
  {
    if KindOf(outcomes) != SplitNone {
      var a, b := SplitNeedsConflict(outcomes);
    }
    if a, b :| a in outcomes && b in outcomes && Conflict(a, b) {
      ConflictMakesSplit(outcomes, a, b);
    }
  }

  // ----- which way a split points -----

  ghost predicate SystemIs(outcomes: seq<Outcome>, kind: OutcomeKind) {
    exists o :: o in outcomes && o.name == SYSTEM && o.kind == kind
  }

  ghost predicate PublicIs(outcomes: seq<Outcome>, kind: OutcomeKind) {
    exists o :: o in outcomes && o.name != SYSTEM && o.kind == kind
  }

  lemma SomePublic(outcomes: seq<Outcome>)
    ensures Collect(PublicLive, outcomes) != [] <==> PublicIs(outcomes, Live)
    ensures Collect(PublicNX, outcomes) != [] <==> PublicIs(outcomes, NXDomain)
  {
    if Collect(PublicLive, outcomes) != [] {
      var o := Voter(PublicLive, outcomes, 0);
    }
    if o :| o in outcomes && o.name != SYSTEM && o.kind == Live {
      CollectMember(PublicLive, outcomes, o.name);
    }
    if Collect(PublicNX, outcomes) != [] {
      var o := Voter(PublicNX, outcomes, 0);
    }
    if o :| o in outcomes && o.name != SYSTEM && o.kind == NXDomain {
      CollectMember(PublicNX, outcomes, o.name);
    }
  }

  lemma SystemKindIs(outcomes: seq<Outcome>, kind: OutcomeKind)
    requires OneSystem(outcomes) && kind != Inconclusive
    ensures SystemKind(outcomes) == kind <==> SystemIs(outcomes, kind)
  {
    if SystemKind(outcomes) == kind {
      var o := Voter(SystemVote, outcomes, |Collect(SystemVote, outcomes)| - 1);
    }
    if o :| o in outcomes && o.name == SYSTEM && o.kind == kind {
      SystemSpeaks(outcomes, o);
    }
  }

  // Suppression: dark here and live outside, or divided outside while the
  // system resolver abstains. Horizon: live here and dark outside.
  lemma SplitDirection(outcomes: seq<Outcome>)
    requires OneSystem(outcomes)
    ensures KindOf(outcomes) == SplitHorizon <==> SystemIs(outcomes, Live) && PublicIs(outcomes, NXDomain)
    ensures KindOf(outcomes) == SplitSuppression <==>
            PublicIs(outcomes, Live)
            && (SystemIs(outcomes, NXDomain) || (!SystemIs(outcomes, Live) && PublicIs(outcomes, NXDomain)))
  {
    SomePublic(outcomes);
    SystemKindIs(outcomes, Live);
    SystemKindIs(outcomes, NXDomain);
  }
}
