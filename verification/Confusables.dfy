// internal/score/score.go: folding of homoglyphs, in whatever order Go visits
// the table of replacements.
module Confusables {
  import opened Text

  datatype Rule = Rn | Vv | Zero | One | Five | Two

  const RULES := {Rn, Vv, Zero, One, Five, Two}

  function Pattern(r: Rule): (p: string)
    ensures 1 <= |p| <= 2
  {
    match r
    case Rn => "rn"
    case Vv => "vv"
    case Zero => "0"
    case One => "1"
    case Five => "5"
    case Two => "2"
  }

  function Glyph(r: Rule): char {
    match r
    case Rn => 'm'
    case Vv => 'w'
    case Zero => 'o'
    case One => 'l'
    case Five => 's'
    case Two => 'z'
  }

  function Apply(r: Rule, s: string): string {
    ReplaceAll(s, Pattern(r), [Glyph(r)])
  }

  // The rule whose pattern s begins with; no two patterns begin alike.
  function RuleAt(s: string): Option<Rule> {
    if s == "" then None
    else if s[0] == '0' then Some(Zero)
    else if s[0] == '1' then Some(One)
    else if s[0] == '5' then Some(Five)
    else if s[0] == '2' then Some(Two)
    else if |s| > 1 && s[0] == 'r' && s[1] == 'n' then Some(Rn)
    else if |s| > 1 && s[0] == 'v' && s[1] == 'v' then Some(Vv)
    else None
  }

  function Width(r: Rule): nat {
    if r == Rn || r == Vv then 2 else 1
  }

  lemma PatternAt(r: Rule, s: string)
    ensures |Pattern(r)| == Width(r)
    ensures Pattern(r) <= s <==> RuleAt(s) == Some(r)
  {
  }

  // What a pass with a set of rules writes for the beginning of s, and how
  // much of s it reads for that.
  function Written(rules: set<Rule>, s: string): char
    requires s != ""
  {
    var r := RuleAt(s);
    if r.Some? && r.value in rules then Glyph(r.value) else s[0]
  }

  function Reads(rules: set<Rule>, s: string): (n: nat)
    requires s != ""
    ensures 1 <= n <= |s|
  {
    var r := RuleAt(s);
    if r.Some? && r.value in rules then Width(r.value) else 1
  }

  // One pass from left to right.
  function Fold(rules: set<Rule>, s: string): string {
    if s == "" then "" else [Written(rules, s)] + Fold(rules, s[Reads(rules, s)..])
  }

  function Normalize(s: string): string {
    Fold(RULES, ToLower(s))
  }

  // ----- the order of the rules does not matter -----

  lemma FoldStep(rules: set<Rule>, s: string, rest: string)
    requires s != "" && rest == s[Reads(rules, s)..]
    ensures Fold(rules, s) == [Written(rules, s)] + Fold(rules, rest)
    ensures Fold(rules, s)[0] == Written(rules, s) && Fold(rules, s)[1..] == Fold(rules, rest)
  {
  }

  lemma ApplyStep(q: Rule, u: string)
    requires u != ""
    ensures Apply(q, u) == if RuleAt(u) == Some(q) then [Glyph(q)] + Apply(q, u[Width(q)..])
                           else [u[0]] + Apply(q, u[1..])
  {
    PatternAt(q, u);
  }

  // Glyphs begin no pattern, and n and v are no glyphs.
  lemma GlyphBeginsNothing(r: Rule, y: string)
    ensures RuleAt([Glyph(r)] + y) == None
    ensures Glyph(r) != 'n' && Glyph(r) != 'v'
  {
  }

  lemma FirstUnfolded(rules: set<Rule>, s: string)
    requires Fold(rules, s) != ""
    ensures s != "" && (Fold(rules, s)[0] == 'n' || Fold(rules, s)[0] == 'v' ==> Fold(rules, s)[0] == s[0])
  {
    if s != "" && Written(rules, s) != s[0] {
      GlyphBeginsNothing(RuleAt(s).value, "");
    }
  }

  // Three ways a string can begin: with a pattern the pass replaces...
  lemma ApplyAfterReplaced(q: Rule, rules: set<Rule>, s: string, rest: string)
    requires s != "" && RuleAt(s).Some? && RuleAt(s).value in rules
    requires rest == s[Width(RuleAt(s).value)..]
    requires Apply(q, Fold(rules, rest)) == Fold(rules + {q}, rest)
    ensures Apply(q, Fold(rules, s)) == Fold(rules + {q}, s)
  {
    FoldStep(rules, s, rest);
    FoldStep(rules + {q}, s, rest);
    GlyphBeginsNothing(RuleAt(s).value, Fold(rules, rest));
    ApplyStep(q, Fold(rules, s));
  }

  // ...with the pattern of the new rule, which the pass leaves alone...
  lemma SecondSurvives(q: Rule, rules: set<Rule>, s: string)
    requires s != "" && RuleAt(s) == Some(q) && q !in rules && Width(q) == 2
    ensures Written(rules, s[1..]) == s[1] && Reads(rules, s[1..]) == 1
  {
  }

  lemma PatternSurvives(q: Rule, rules: set<Rule>, s: string, rest: string)
    requires s != "" && RuleAt(s) == Some(q) && q !in rules
    requires rest == s[Width(q)..]
    ensures Fold(rules, s) == s[..Width(q)] + Fold(rules, rest)
  {
    FoldStep(rules, s, s[1..]);
    if Width(q) == 2 {
      SecondSurvives(q, rules, s);
      assert s[1..][1..] == rest;
      FoldStep(rules, s[1..], rest);
      assert s[..2] == [s[0]] + [s[1]];
      Associative([s[0]], [s[1]], Fold(rules, rest));
    } else {
      assert s[..1] == [s[0]];
    }
  }

  lemma PatternFirst(q: Rule, s: string, y: string)
    requires RuleAt(s) == Some(q)
    ensures RuleAt(s[..Width(q)] + y) == Some(q)
  {
  }

  lemma ApplyAfterSurvived(q: Rule, rules: set<Rule>, s: string, rest: string)
    requires s != "" && RuleAt(s) == Some(q) && q !in rules
    requires rest == s[Width(q)..]
    requires Apply(q, Fold(rules, rest)) == Fold(rules + {q}, rest)
    ensures Apply(q, Fold(rules, s)) == Fold(rules + {q}, s)
  {
    PatternSurvives(q, rules, s, rest);
    PatternFirst(q, s, Fold(rules, rest));
    FoldStep(rules + {q}, s, rest);
    ApplyStep(q, Fold(rules, s));
    assert Fold(rules, s)[Width(q)..] == Fold(rules, rest);
  }

  // ...or with anything else, from which no new pattern can arise.
  lemma NothingArises(q: Rule, c: char, x: string, y: string)
    requires RuleAt([c] + x) != Some(q)
    requires y != "" && (y[0] == 'n' || y[0] == 'v') ==> x != "" && y[0] == x[0]
    ensures RuleAt([c] + y) != Some(q)
  {
  }

  lemma ApplyAfterCopied(q: Rule, rules: set<Rule>, s: string, rest: string)
    requires s != "" && rest == s[1..] && RuleAt(s) != Some(q)
    requires RuleAt(s).Some? ==> RuleAt(s).value !in rules
    requires Apply(q, Fold(rules, rest)) == Fold(rules + {q}, rest)
    ensures Apply(q, Fold(rules, s)) == Fold(rules + {q}, s)
  {
    FoldStep(rules, s, rest);
    FoldStep(rules + {q}, s, rest);
    if Fold(rules, rest) != "" {
      FirstUnfolded(rules, rest);
    }
    assert s == [s[0]] + rest;
    NothingArises(q, s[0], rest, Fold(rules, rest));
    ApplyStep(q, Fold(rules, s));
  }

  // Applying one more rule to the result of a pass is a pass with that rule.
  lemma {:induction false} ApplyAfterFold(q: Rule, rules: set<Rule>, s: string)
    ensures Apply(q, Fold(rules, s)) == Fold(rules + {q}, s)
    decreases |s|
  {
    if s != "" {
      var r := RuleAt(s);
      var rest := s[Reads(rules + {q}, s)..];
      ApplyAfterFold(q, rules, rest);
      if r.Some? && r.value in rules {
        ApplyAfterReplaced(q, rules, s, rest);
      } else if r == Some(q) {
        ApplyAfterSurvived(q, rules, s, rest);
      } else {
        ApplyAfterCopied(q, rules, s, rest);
      }
    }
  }

  lemma {:induction false} FoldNothing(s: string)
    ensures Fold({}, s) == s
  {
    if s != "" {
      FoldNothing(s[1..]);
    }
  }

  function ApplyInOrder(order: seq<Rule>, s: string): string {
    if order == [] then s
    else Apply(order[|order| - 1], ApplyInOrder(order[..|order| - 1], s))
  }

  // Any order, with or without repetitions, amounts to one pass with the
  // rules it names.
  lemma {:induction false} OrderIrrelevant(order: seq<Rule>, s: string)
    ensures ApplyInOrder(order, s) == Fold((set r | r in order), s)
  {
    if order == [] {
      FoldNothing(s);
      assert (set r | r in order) == {};
    } else {
      var init, q := order[..|order| - 1], order[|order| - 1];
      OrderIrrelevant(init, s);
      ApplyAfterFold(q, (set r | r in init), s);
      assert (set r | r in order) == (set r | r in init) + {q};
    }
  }

  // Go visits a map in an arbitrary order; the result is one and the same.
  method NormalizeConfusables(text: string) returns (s: string)
    ensures s == Normalize(text)
  {
    s := ToLower(text);
    var remaining := RULES;
    FoldNothing(s);
    assert RULES - remaining == {};
    while remaining != {}
      invariant remaining <= RULES
      invariant s == Fold(RULES - remaining, ToLower(text))
    {
      var r :| r in remaining;
      ApplyAfterFold(r, RULES - remaining, ToLower(text));
      assert RULES - remaining + {r} == RULES - (remaining - {r});
      s := Apply(r, s);
      remaining := remaining - {r};
    }
    assert RULES - remaining == RULES;
  }

  // ----- the result is a normal form -----

  lemma AllRules(r: Rule)
    ensures r in RULES
  {
  }

  lemma {:induction false} NoPatternLeft(s: string, i: nat)
    requires i <= |Fold(RULES, s)|
    ensures RuleAt(Fold(RULES, s)[i..]) == None
    decreases |s|
  {
    if s != "" {
      var u, rest := Fold(RULES, s), s[Reads(RULES, s)..];
      FoldStep(RULES, s, rest);
      if i > 0 {
        NoPatternLeft(rest, i - 1);
        assert u[i..] == u[1..][i - 1..];
      } else {
        assert u[0..] == u;
        NoPatternFirst(s, rest);
      }
    }
  }

  lemma NoPatternFirst(s: string, rest: string)
    requires s != "" && rest == s[Reads(RULES, s)..]
    ensures RuleAt([Written(RULES, s)] + Fold(RULES, rest)) == None
  {
    if RuleAt(s).Some? {
      AllRules(RuleAt(s).value);
      GlyphBeginsNothing(RuleAt(s).value, Fold(RULES, rest));
    } else {
      if Fold(RULES, rest) != "" {
        FirstUnfolded(RULES, rest);
      }
      assert s == [s[0]] + rest;
      forall q {
        NothingArises(q, s[0], rest, Fold(RULES, rest));
      }
    }
  }

  lemma NoPatternRemains(s: string, r: Rule)
    ensures !Contains(Normalize(s), Pattern(r))
  {
    var u := Normalize(s);
    forall i | 0 <= i <= |u|
      ensures !(Pattern(r) <= u[i..])
    {
      NoPatternLeft(ToLower(s), i);
      PatternAt(r, u[i..]);
    }
  }

  lemma {:induction false} FoldFixes(s: string)
    requires forall i :: 0 <= i <= |s| ==> RuleAt(s[i..]) == None
    ensures Fold(RULES, s) == s
  {
    if s != "" {
      assert s[0..] == s;
      forall i | 0 <= i <= |s[1..]|
        ensures RuleAt(s[1..][i..]) == None
      {
        assert s[1..][i..] == s[i + 1..];
      }
      FoldFixes(s[1..]);
    }
  }

  lemma {:induction false} FoldKeepsLower(s: string)
    requires ToLower(s) == s
    ensures ToLower(Fold(RULES, s)) == Fold(RULES, s)
    decreases |s|
  {
    if s != "" {
      var rest := s[Reads(RULES, s)..];
      assert ToLower(rest) == rest;
      FoldKeepsLower(rest);
      FoldStep(RULES, s, rest);
      assert LowerChar(s[0]) == s[0];
      assert LowerChar(Written(RULES, s)) == Written(RULES, s);
      LowerConcat([Written(RULES, s)], Fold(RULES, rest));
    }
  }

  lemma NormalizeIdempotent(s: string)
    ensures Normalize(Normalize(s)) == Normalize(s)
  {
    var u := Normalize(s);
    LowerIdempotent(s);
    FoldKeepsLower(ToLower(s));
    forall i | 0 <= i <= |u|
      ensures RuleAt(u[i..]) == None
    {
      NoPatternLeft(ToLower(s), i);
    }
    FoldFixes(u);
  }

  // ----- disguises -----

  // The length of the run of v that ends s.
  function TrailingV(s: string): nat {
    if s != "" && s[|s| - 1] == 'v' then 1 + TrailingV(s[..|s| - 1]) else 0
  }

  lemma {:induction false} TrailingVFromFront(s: string)
    requires s != ""
    ensures TrailingV(s[1..]) <= |s| - 1
    ensures TrailingV(s) == TrailingV(s[1..]) + if s[0] == 'v' && TrailingV(s[1..]) == |s| - 1 then 1 else 0
  {
    if |s| > 1 {
      TrailingVFromFront(s[..|s| - 1]);
      assert s[1..][..|s| - 2] == s[..|s| - 1][1..];
    }
  }

  lemma ParityAfterStep(p: string)
    requires p != "" && p != "v"
    ensures TrailingV(p) % 2 == TrailingV(p[Reads(RULES, p)..]) % 2
  {
    TrailingVFromFront(p);
    if |p| > 1 {
      TrailingVFromFront(p[1..]);
      assert p[1..][1..] == p[2..];
    }
  }

  lemma SameStep(p: string, x: string)
    requires p != "" && x != "" && x[0] != 'n'
    requires p == "v" ==> x[0] != 'v'
    ensures Written(RULES, p + x) == Written(RULES, p) && Reads(RULES, p + x) == Reads(RULES, p)
    ensures (p + x)[Reads(RULES, p)..] == p[Reads(RULES, p)..] + x
  {
    assert (p + x)[0] == p[0];
    assert |p| > 1 ==> (p + x)[1] == p[1];
    assert |p| == 1 ==> (p + x)[1] == x[0];
    assert |p| == 1 ==> p == [p[0]];
  }

  // A pass over p + x is a pass over each, when no pattern can straddle them.
  lemma {:induction false} FoldSplits(p: string, x: string)
    requires x != "" && x[0] != 'n'
    requires x[0] == 'v' ==> TrailingV(p) % 2 == 0
    ensures Fold(RULES, p + x) == Fold(RULES, p) + Fold(RULES, x)
    decreases |p|
  {
    if p == "" {
      assert p + x == x;
    } else {
      var rest := p[Reads(RULES, p)..];
      if p != "v" {
        ParityAfterStep(p);
      }
      FoldSplits(rest, x);
      SameStep(p, x);
      FoldStep(RULES, p + x, rest + x);
      FoldStep(RULES, p, rest);
      Associative([Written(RULES, p)], Fold(RULES, rest), Fold(RULES, x));
    }
  }

  // s with one glyph, somewhere, written as the pattern that imitates it.
  function Plain(p: string, r: Rule, q: string): string {
    p + ([Glyph(r)] + q)
  }

  function Disguised(p: string, r: Rule, q: string): string {
    p + (Pattern(r) + q)
  }

  // rn for m, 0 for o, 1 for l, 5 for s and 2 for z never show in the normal
  // form; vv for w does not show exactly when an even run of v precedes it.
  lemma DisguiseInvisible(p: string, r: Rule, q: string)
    ensures Fold(RULES, Plain(p, r, q)) == Fold(RULES, Disguised(p, r, q)) <==> r != Vv || TrailingV(p) % 2 == 0
  {
    if r != Vv || TrailingV(p) % 2 == 0 {
      FoldSplits(p, [Glyph(r)] + q);
      FoldSplits(p, Pattern(r) + q);
      GlyphAndPattern(r, q);
    } else {
      OddRunShows(p, q);
    }
  }

  lemma GlyphAndPattern(r: Rule, q: string)
    ensures Fold(RULES, [Glyph(r)] + q) == [Glyph(r)] + Fold(RULES, q)
    ensures Fold(RULES, Pattern(r) + q) == [Glyph(r)] + Fold(RULES, q)
  {
    AllRules(r);
    GlyphBeginsNothing(r, q);
    FoldStep(RULES, [Glyph(r)] + q, q);
    PatternAt(r, Pattern(r) + q);
    assert (Pattern(r) + q)[|Pattern(r)|..] == q;
    FoldStep(RULES, Pattern(r) + q, q);
  }

  lemma OddRunShows(p: string, q: string)
    requires TrailingV(p) % 2 == 1
    ensures Fold(RULES, Plain(p, Vv, q)) != Fold(RULES, Disguised(p, Vv, q))
  {
    var p0, x, y := p[..|p| - 1], ['v'] + (['w'] + q), ['v'] + ("vv" + q);
    assert Plain(p, Vv, q) == p0 + x && Disguised(p, Vv, q) == p0 + y;
    FoldSplits(p0, x);
    FoldSplits(p0, y);
    VersusW(q);
    var k := |Fold(RULES, p0)|;
    assert (Fold(RULES, p0) + Fold(RULES, x))[k] == 'v';
    assert (Fold(RULES, p0) + Fold(RULES, y))[k] == 'w';
  }

  lemma VersusW(q: string)
    ensures var x, y := Fold(RULES, ['v'] + (['w'] + q)), Fold(RULES, ['v'] + ("vv" + q));
            x != "" && y != "" && x[0] == 'v' && y[0] == 'w'
  {
    AllRules(Vv);
    assert RuleAt(['v'] + (['w'] + q)) == None;
    assert RuleAt(['v'] + ("vv" + q)) == Some(Vv);
  }

  ghost predicate DisguiseStep(s: string, t: string) {
    exists p, r, q :: (r != Vv || TrailingV(p) % 2 == 0) && s == Plain(p, r, q) && t == Disguised(p, r, q)
  }

  // Any number of such substitutions, made or undone.
  ghost predicate Disguises(path: seq<string>) {
    path != [] && forall i :: 0 < i < |path| ==> DisguiseStep(path[i - 1], path[i]) || DisguiseStep(path[i], path[i - 1])
  }

  lemma {:induction false} DisguisesInvisible(path: seq<string>)
    requires Disguises(path)
    ensures Fold(RULES, path[0]) == Fold(RULES, path[|path| - 1])
  {
    if |path| > 1 {
      var last := |path| - 1;
      DisguisesInvisible(path[..last]);
      var s, t := path[last - 1], path[last];
      if DisguiseStep(s, t) {
        var p, r, q :| (r != Vv || TrailingV(p) % 2 == 0) && s == Plain(p, r, q) && t == Disguised(p, r, q);
        DisguiseInvisible(p, r, q);
      } else {
        assert DisguiseStep(t, s);
        var p, r, q :| (r != Vv || TrailingV(p) % 2 == 0) && t == Plain(p, r, q) && s == Disguised(p, r, q);
        DisguiseInvisible(p, r, q);
      }
    }
  }

  // ----- the table, written out -----

  // These are the substitutions, whatever stands around them.
  lemma Homoglyphs(p: string, q: string)
    ensures Fold(RULES, p + ("rn" + q)) == Fold(RULES, p + ("m" + q))
    ensures Fold(RULES, p + ("0" + q)) == Fold(RULES, p + ("o" + q))
    ensures Fold(RULES, p + ("1" + q)) == Fold(RULES, p + ("l" + q))
    ensures Fold(RULES, p + ("5" + q)) == Fold(RULES, p + ("s" + q))
    ensures Fold(RULES, p + ("2" + q)) == Fold(RULES, p + ("z" + q))
    ensures Fold(RULES, p + ("vv" + q)) == Fold(RULES, p + ("w" + q)) <==> TrailingV(p) % 2 == 0
  {
    DisguiseInvisible(p, Rn, q);
    DisguiseInvisible(p, Zero, q);
    DisguiseInvisible(p, One, q);
    DisguiseInvisible(p, Five, q);
    DisguiseInvisible(p, Two, q);
    DisguiseInvisible(p, Vv, q);
  }

  // A string in which nothing is written for anything else.
  ghost predicate Genuine(s: string) {
    '0' !in s && '1' !in s && '2' !in s && '5' !in s && !Inside(s, "rn") && !Inside(s, "vv")
  }

  lemma PatternInside(s: string, r: Rule)
    ensures Contains(s, Pattern(r)) <==>
            match r
            case Rn => Inside(s, "rn")
            case Vv => Inside(s, "vv")
            case Zero => '0' in s
            case One => '1' in s
            case Five => '5' in s
            case Two => '2' in s
  {
    ContainsIs(s, Pattern(r));
    if |Pattern(r)| == 1 {
      CharInside(s, Pattern(r)[0]);
    }
  }

  // Exactly the genuine strings are left as they are, but for the case.
  lemma UnchangedIsGenuine(s: string)
    ensures Normalize(s) == ToLower(s) <==> Genuine(ToLower(s))
  {
    var d := ToLower(s);
    forall r
      ensures Genuine(d) ==> !Contains(d, Pattern(r))
      ensures Normalize(s) == d ==> !Contains(d, Pattern(r))
    {
      PatternInside(d, r);
      NoPatternRemains(s, r);
    }
    if Genuine(d) {
      forall i | 0 <= i <= |d|
        ensures RuleAt(d[i..]) == None
      {
        if RuleAt(d[i..]).Some? {
          PatternAt(RuleAt(d[i..]).value, d[i..]);
        }
      }
      FoldFixes(d);
    } else {
      NotGenuine(d);
    }
  }

  lemma NotGenuine(d: string)
    requires !Genuine(d)
    ensures exists r :: Contains(d, Pattern(r))
  {
    PatternInside(d, Rn);
    PatternInside(d, Vv);
    PatternInside(d, Zero);
    PatternInside(d, One);
    PatternInside(d, Five);
    PatternInside(d, Two);
  }
}
