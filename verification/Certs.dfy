// internal/cert/cert.go: comparing the TLS identities of two endpoints, and
// the SAN list as it is shown and read back.
module Certs {
  import opened Text
  import opened Sorting

  datatype Details = Details(issuer: string, class_: string, sans: seq<string>, fingerprint: string, hasCert: bool)

  // One line of the mismatch description.
  datatype Diff = IssuerDiff | ClassDiff | SansDiff | FingerprintDiff

  function Normal(san: string): string {
    ToLower(TrimSpace(san))
  }

  function NormalAll(sans: seq<string>): (r: seq<string>)
    ensures |r| == |sans|
    ensures forall i :: 0 <= i < |sans| ==> r[i] == Normal(sans[i])
  {
    seq(|sans|, i requires 0 <= i < |sans| => Normal(sans[i]))
  }

  // The same names, up to order, case and surrounding space.
  ghost predicate SameSans(a: seq<string>, b: seq<string>) {
    multiset(NormalAll(a)) == multiset(NormalAll(b))
  }

  method NormalizeAndSort(sans: seq<string>) returns (out: seq<string>)
    ensures out == Sort(NormalAll(sans))
  {
    out := [];
    for i := 0 to |sans|
      invariant |out| == i
      invariant forall k :: 0 <= k < i ==> out[k] == Normal(sans[k])
    {
      out := out + [Normal(sans[i])];
    }
    SameElements(out, NormalAll(sans));
    out := Sort(out);
  }

  lemma SameElements<T>(a: seq<T>, b: seq<T>)
    requires |a| == |b| && forall k :: 0 <= k < |a| ==> a[k] == b[k]
    ensures a == b
  {
  }

  lemma SameSansSorted(a: seq<string>, b: seq<string>)
    ensures SameSans(a, b) <==> Sort(NormalAll(a)) == Sort(NormalAll(b))
    ensures SameSans(a, b) ==> |a| == |b|
  {
    SortIsCanonical(NormalAll(a), NormalAll(b));
    if SameSans(a, b) {
      SameLength(NormalAll(a), NormalAll(b));
    }
  }

  method SansEqual(a: seq<string>, b: seq<string>) returns (equal: bool)
    ensures equal <==> SameSans(a, b)
  {
    SameSansSorted(a, b);
    if |a| != |b| {
      return false;
    }
    var na := NormalizeAndSort(a);
    var nb := NormalizeAndSort(b);
    equal := SameStrings(na, nb);
  }

  method SameStrings(na: seq<string>, nb: seq<string>) returns (same: bool)
    requires |na| == |nb|
    ensures same <==> na == nb
  {
    for i := 0 to |na|
      invariant forall k :: 0 <= k < i ==> na[k] == nb[k]
    {
      if na[i] != nb[i] {
        return false;
      }
    }
    SameElements(na, nb);
    return true;
  }

  ghost predicate Interrogated(d: Option<Details>) {
    d.Some? && d.value.hasCert
  }

  ghost predicate Differ(sys: Details, pub: Details, diff: Diff) {
    match diff
    case IssuerDiff => sys.issuer != pub.issuer
    case ClassDiff => sys.class_ != pub.class_
    case SansDiff => !SameSans(sys.sans, pub.sans)
    case FingerprintDiff => sys.fingerprint != "" && pub.fingerprint != "" && sys.fingerprint != pub.fingerprint
  }

  ghost predicate Complete(sys: Option<Details>, pub: Option<Details>) {
    Interrogated(sys) && Interrogated(pub)
  }

  ghost predicate Match(sys: Option<Details>, pub: Option<Details>) {
    Complete(sys, pub) && forall diff :: !Differ(sys.value, pub.value, diff)
  }

  // Without both certificates there is no comparison, so nothing differs.
  method ComparePaths(sys: Option<Details>, pub: Option<Details>) returns (match_: bool, complete: bool, diffs: seq<Diff>)
    ensures complete <==> Complete(sys, pub)
    ensures match_ <==> Match(sys, pub)
    ensures forall diff :: diff in diffs <==> Complete(sys, pub) && Differ(sys.value, pub.value, diff)
  {
    diffs := [];
    if sys.None? || pub.None? || !sys.value.hasCert || !pub.value.hasCert {
      return false, false, [];
    }
    var s, p := sys.value, pub.value;
    if s.issuer != p.issuer {
      diffs := diffs + [IssuerDiff];
    }
    if s.class_ != p.class_ {
      diffs := diffs + [ClassDiff];
    }
    var same := SansEqual(s.sans, p.sans);
    if !same {
      diffs := diffs + [SansDiff];
    }
    if s.fingerprint != "" && p.fingerprint != "" && s.fingerprint != p.fingerprint {
      diffs := diffs + [FingerprintDiff];
    }
    forall diff
      ensures diff in diffs <==> Differ(s, p, diff)
    {
      match diff
      case IssuerDiff =>
      case ClassDiff =>
      case SansDiff =>
      case FingerprintDiff =>
    }
    if |diffs| == 0 {
      return true, true, [];
    }
    assert Differ(s, p, diffs[0]);
    match_, complete := false, true;
  }

  lemma ComparisonSymmetric(a: Option<Details>, b: Option<Details>)
    ensures Complete(a, b) <==> Complete(b, a)
    ensures Match(a, b) <==> Match(b, a)
  {
    if Complete(a, b) {
      forall diff ensures Differ(a.value, b.value, diff) <==> Differ(b.value, a.value, diff) {}
    }
  }

  // One endpoint never diverges from itself.
  // Two paths match when both were interrogated and serve the same identity:
  // issuer, class, names up to order, case and space, and the fingerprint
  // where both have one.
  lemma MatchIs(sys: Option<Details>, pub: Option<Details>)
    ensures Match(sys, pub) <==>
            sys.Some? && pub.Some? && sys.value.hasCert && pub.value.hasCert
            && sys.value.issuer == pub.value.issuer && sys.value.class_ == pub.value.class_
            && multiset(Names(sys.value.sans)) == multiset(Names(pub.value.sans))
            && (sys.value.fingerprint == pub.value.fingerprint
                || sys.value.fingerprint == "" || pub.value.fingerprint == "")
    ensures Complete(sys, pub) <==> sys.Some? && pub.Some? && sys.value.hasCert && pub.value.hasCert
  {
    if Complete(sys, pub) {
      SameElements(Names(sys.value.sans), NormalAll(sys.value.sans));
      SameElements(Names(pub.value.sans), NormalAll(pub.value.sans));
      FourDifferences(sys.value, pub.value);
    }
  }

  lemma FourDifferences(s: Details, p: Details)
    ensures (forall diff :: !Differ(s, p, diff)) <==>
            !Differ(s, p, IssuerDiff) && !Differ(s, p, ClassDiff) && !Differ(s, p, SansDiff)
            && !Differ(s, p, FingerprintDiff)
  {
    forall diff | Differ(s, p, diff)
      ensures Differ(s, p, IssuerDiff) || Differ(s, p, ClassDiff) || Differ(s, p, SansDiff)
              || Differ(s, p, FingerprintDiff)
    {
      match diff
      case IssuerDiff =>
      case ClassDiff =>
      case SansDiff =>
      case FingerprintDiff =>
    }
  }

  function Names(sans: seq<string>): (names: seq<string>)
    ensures |names| == |sans| && forall i :: 0 <= i < |sans| ==> names[i] == ToLower(TrimSpace(sans[i]))
  {
    seq(|sans|, i requires 0 <= i < |sans| => ToLower(TrimSpace(sans[i])))
  }

  lemma ComparisonReflexive(d: Option<Details>)
    ensures Complete(d, d) ==> Match(d, d)
  {
  }

  // ----- the SAN list as text -----

  // SANsString, for a certificate that may be missing.
  function SansString(d: Option<Details>): string {
    if d.None? || d.value.sans == [] then "Unknown" else Join(d.value.sans, ", ")
  }

  // One SAN covers a domain by equality or as a wildcard of a parent.
  predicate Covers(san: string, domain: string) {
    var s := Normal(san);
    && s != "" && s != "unknown"
    && (s == domain
        || ("*." <= s && s[2..] != "" && (domain == s[2..] || HasSuffix(domain, "." + s[2..]))))
  }

  // sanCovers, on the text of the whole list.
  method SanCovers(field: string, name: string) returns (covered: bool)
    ensures covered <==> FieldCovers(field, name)
  {
    var domain := Normal(name);
    if domain == "" {
      return false;
    }
    var parts := Split(field, ',');
    for i := 0 to |parts|
      invariant forall j :: 0 <= j < i ==> !Covers(parts[j], domain)
    {
      var san := Normal(parts[i]);
      assert parts[i] in parts;
      if san == "" || san == "unknown" {
        continue;
      }
      if san == domain {
        return true;
      }
      if "*." <= san && san[2..] != "" {
        if domain == san[2..] || HasSuffix(domain, "." + san[2..]) {
          return true;
        }
      }
    }
    return false;
  }

  predicate FieldCovers(field: string, name: string) {
    ListCovers(Split(field, ','), name)
  }

  predicate ListCovers(sans: seq<string>, name: string) {
    Normal(name) != "" && exists san :: san in sans && Covers(san, Normal(name))
  }

  // ----- what a SAN covers -----

  // The labels of p are the last labels of d.
  predicate EndsInLabels(d: string, p: string) {
    var ds, ps := Split(d, '.'), Split(p, '.');
    |ps| <= |ds| && ds[|ds| - |ps|..] == ps
  }

  lemma LabelsBehindDot(x: string, p: string)
    ensures EndsInLabels(x + (['.'] + p), p)
  {
    SplitAt(x, '.', p);
  }

  // A name ends in the labels of p if it is p, or ends in a dot and p.
  lemma EndsInLabelsIs(d: string, p: string)
    ensures EndsInLabels(d, p) <==> d == p || HasSuffix(d, "." + p)
  {
    if d != p && HasSuffix(d, "." + p) {
      var x := d[..|d| - |p| - 1];
      assert d == x + ("." + p);
      LabelsBehindDot(x, p);
    }
    if EndsInLabels(d, p) {
      var ds, ps := Split(d, '.'), Split(p, '.');
      var front := ds[..|ds| - |ps|];
      assert ds == front + ps;
      JoinOfSplit(d, '.');
      JoinOfSplit(p, '.');
      if front == [] {
        assert ds == ps;
      } else {
        JoinConcat(front, ps, ['.']);
        assert d == Join(front, ['.']) + ("." + p);
      }
    }
  }

  // An entry covers a name if it is the name, or a wildcard whose parent's
  // labels end it.
  predicate LabelCovers(entry: string, domain: string) {
    var s := ToLower(TrimSpace(entry));
    && s != "" && s != "unknown"
    && (domain == s || (|s| > 2 && s[0] == '*' && s[1] == '.' && EndsInLabels(domain, s[2..])))
  }

  lemma CoversIsLabelCovers(entry: string, domain: string)
    ensures Covers(entry, domain) <==> LabelCovers(entry, domain)
  {
    var s := ToLower(TrimSpace(entry));
    StarDot(s);
    if |s| > 2 {
      EndsInLabelsIs(domain, s[2..]);
    }
  }

  lemma StarDot(s: string)
    ensures "*." <= s && s[2..] != "" <==> |s| > 2 && s[0] == '*' && s[1] == '.'
  {
  }

  // What a SAN covers, by labels. A wildcard covers its parent, everything
  // below it, and itself; any other entry covers itself alone, and an empty
  // or unknown one nothing.
  lemma CoversByLabels(san: string, domain: string)
    requires domain != ""
    ensures var s := ToLower(TrimSpace(san));
            && (s == "" || s == "unknown" ==> !Covers(san, domain))
            && (forall p :: p != "" && s == "*." + p ==>
                  (Covers(san, domain) <==> domain == s || EndsInLabels(domain, p)))
            && (s != "" && s != "unknown" && (forall p :: p != "" ==> s != "*." + p) ==>
                  (Covers(san, domain) <==> domain == s))
  {
    var s := ToLower(TrimSpace(san));
    CoversIsLabelCovers(san, domain);
    StarDot(s);
    forall p | p != "" && s == "*." + p
      ensures s[2..] == p && |s| > 2 && s[0] == '*' && s[1] == '.'
    {
    }
    if |s| > 2 && s[0] == '*' && s[1] == '.' {
      assert s == "*." + s[2..];
    }
  }

  // A list as text covers a name if one of its entries does.
  lemma FieldCoversByLabels(field: string, name: string)
    ensures var domain := ToLower(TrimSpace(name));
            FieldCovers(field, name) <==>
            domain != "" && exists entry :: entry in Split(field, ',') && LabelCovers(entry, domain)
  {
    var domain := ToLower(TrimSpace(name));
    forall entry
      ensures Covers(entry, domain) <==> LabelCovers(entry, domain)
    {
      CoversIsLabelCovers(entry, domain);
    }
  }

  // The dot counts: a longer label that ends alike is not covered.
  lemma LongerLabelNotCovered(san: string, x: string, l: string, rest: string)
    requires x != "" && l != "" && '.' !in x && '.' !in l && '*' !in x
    requires ToLower(TrimSpace(san)) == "*." + (l + (['.'] + rest))
    ensures !Covers(san, (x + l) + (['.'] + rest))
  {
    var p, d := l + (['.'] + rest), (x + l) + (['.'] + rest);
    CoversByLabels(san, d);
    SplitAt(l, '.', rest);
    SplitWhole(l, '.');
    SplitAt(x + l, '.', rest);
    SplitWhole(x + l, '.');
    assert d[0] == x[0] && x[0] in x;
    assert Split(d, '.')[0] == x + l && Split(p, '.')[0] == l && |x + l| > |l|;
  }

  lemma SpaceInFront(s: string, domain: string)
    ensures Covers([' '] + s, domain) == Covers(s, domain)
  {
    TrimLeftSpaces([' '], s);
  }

  ghost predicate SomeCovers(sans: seq<string>, domain: string) {
    exists san :: san in sans && Covers(san, domain)
  }

  lemma SomeCoversCons(first: string, rest: seq<string>, domain: string)
    ensures SomeCovers([first] + rest, domain) <==> Covers(first, domain) || SomeCovers(rest, domain)
  {
    assert forall san :: san in [first] + rest <==> san == first || san in rest;
    assert first in [first] + rest;
  }

  lemma SplitOfPair(first: string, rest: string)
    requires ',' !in first
    ensures Split(first + ", " + rest, ',') == [first] + Extend(' ', Split(rest, ','))
  {
    assert first + ", " + rest == first + ([','] + ([' '] + rest));
    SplitAt(first, ',', [' '] + rest);
    SplitWhole(first, ',');
    SplitCons(' ', rest, ',');
  }

  lemma {:induction false} SplitOfJoin(sans: seq<string>, domain: string)
    requires sans != [] && forall san :: san in sans ==> ',' !in san
    ensures SomeCovers(Split(Join(sans, ", "), ','), domain) <==> SomeCovers(sans, domain)
  {
    if |sans| == 1 {
      SplitWhole(sans[0], ',');
      assert sans == [sans[0]];
    } else {
      var first, rest := sans[0], Join(sans[1..], ", ");
      SplitOfJoin(sans[1..], domain);
      SplitOfPair(first, rest);
      var parts := Split(rest, ',');
      SpaceInFront(parts[0], domain);
      SomeCoversCons(first, sans[1..], domain);
      SomeCoversCons(first, Extend(' ', parts), domain);
      SomeCoversCons([' '] + parts[0], parts[1..], domain);
      SomeCoversCons(parts[0], parts[1..], domain);
      assert parts == [parts[0]] + parts[1..] && sans == [first] + sans[1..];
    }
  }

  // Coverage read off the displayed list is coverage by the list itself; the
  // word shown for an empty list covers nothing.
  lemma DisplayedCoverage(d: Option<Details>, name: string)
    requires d.Some? ==> forall san :: san in d.value.sans ==> ',' !in san
    ensures FieldCovers(SansString(d), name) <==> d.Some? && ListCovers(d.value.sans, name)
  {
    if d.Some? && d.value.sans != [] {
      var domain := Normal(name);
      SplitOfJoin(d.value.sans, domain);
      assert SomeCovers(d.value.sans, domain) <==> exists san :: san in d.value.sans && Covers(san, domain);
    } else {
      UnknownCoversNothing(name);
    }
  }

  lemma UnknownCoversNothing(name: string)
    ensures !FieldCovers("Unknown", name)
  {
    SplitWhole("Unknown", ',');
    var t := "Unknown";
    assert !IsSpace(t[0]) && TrimLeft(t) == t && TrimRight(t) == t;
    assert ToLower(t) == "unknown";
  }
}
