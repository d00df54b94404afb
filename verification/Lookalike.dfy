// internal/score/score.go: when two root labels look alike.
module Lookalike {
  import opened Text
  import opened EditDistance
  import opened Confusables

  function RootLabel(domain: string): string {
    Before(ToLower(TrimSpace(domain)), '.')
  }

  predicate LabelsSimilar(a: string, b: string) {
    && a != "" && b != ""
    && var na, nb := Normalize(a), Normalize(b);
       var shorter := if |nb| < |na| then |nb| else |na|;
       na == nb
       || (shorter >= 4
           && (Distance(na, nb) <= 2 || (shorter >= 5 && (Contains(na, nb) || Contains(nb, na)))))
  }

  lemma SimilarSymmetric(a: string, b: string)
    ensures LabelsSimilar(a, b) <==> LabelsSimilar(b, a)
  {
    Symmetric(Normalize(a), Normalize(b));
  }

  // However many homoglyphs separate two labels, they are similar; their
  // edit distance is of no account.
  lemma DisguisedIsSimilar(a: string, b: string, path: seq<string>)
    requires Disguises(path) && ToLower(a) == path[0] && ToLower(b) == path[|path| - 1]
    requires a != "" && b != ""
    ensures LabelsSimilar(a, b)
  {
    DisguisesInvisible(path);
  }

  lemma {:induction false} RootLabelIsLower(domain: string)
    ensures ToLower(RootLabel(domain)) == RootLabel(domain)
  {
    var d := ToLower(TrimSpace(domain));
    BeforeIsPrefix(d, '.');
    LowerIdempotent(TrimSpace(domain));
  }

  // When two labels are similar, in terms of their normal forms: these are
  // the same; or both have four characters or more and two edits separate
  // them; or both have five or more and one stands inside the other.
  lemma SimilarIs(a: string, b: string)
    ensures var na, nb := Normalize(a), Normalize(b);
            LabelsSimilar(a, b) <==>
            a != "" && b != ""
            && (na == nb
                || (|na| >= 4 && |nb| >= 4 && WithinEdits(na, nb, 2))
                || (|na| >= 5 && |nb| >= 5 && (Inside(na, nb) || Inside(nb, na))))
  {
    var na, nb := Normalize(a), Normalize(b);
    WithinEditsIs(na, nb, 2);
    ContainsIs(na, nb);
    ContainsIs(nb, na);
  }

  // The root label is what stands before the first dot, in lower case and
  // without white space around.
  lemma RootLabelIs(domain: string)
    ensures RootLabel(domain) == Split(ToLower(TrimSpace(domain)), '.')[0]
  {
    var d := ToLower(TrimSpace(domain));
    var l := Before(d, '.');
    BeforeIsPrefix(d, '.');
    SplitWhole(l, '.');
    if l != d {
      assert d == l + (['.'] + d[|l| + 1..]);
      SplitAt(l, '.', d[|l| + 1..]);
    }
  }
}
