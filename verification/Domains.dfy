// internal/dns/dns.go: the pattern of a domain name and the normal form of
// what a user types.
module Domains {
  import opened Text

  // ----- regular expressions -----

  datatype Regex =
    | Class(has: char -> bool)
    | Cat(first: Regex, second: Regex)
    | Opt(body: Regex)
    | Star(body: Regex)
    | UpTo(body: Regex, max: nat)

  // The strings an expression matches, in full.
  ghost predicate Matches(r: Regex, s: string)
    decreases r, |s|, 0
  {
    match r
    case Class(has) => |s| == 1 && has(s[0])
    case Cat(a, b) => exists i :: 0 <= i <= |s| && Matches(a, s[..i]) && Matches(b, s[i..])
    case Opt(a) => s == "" || Matches(a, s)
    case Star(a) => s == "" || exists i :: 0 < i <= |s| && Matches(a, s[..i]) && Matches(r, s[i..])
    case UpTo(a, max) => MatchesUpTo(a, max, s)
  }

  ghost predicate MatchesUpTo(a: Regex, max: nat, s: string)
    decreases a, |s|, 1 + max
  {
    s == "" || (max > 0 && exists i :: 0 < i <= |s| && Matches(a, s[..i]) && MatchesUpTo(a, max - 1, s[i..]))
  }

  predicate IsAlnum(c: char) {
    'a' <= c <= 'z' || '0' <= c <= '9'
  }

  predicate IsInner(c: char) {
    IsAlnum(c) || c == '-'
  }

  const ALNUM := Class(IsAlnum)
  const INNER := Class(IsInner)
  const DOT := Class(c => c == '.')

  // [a-z0-9]([a-z0-9-]{0,61}[a-z0-9])?
  const LABEL := Cat(ALNUM, Opt(Cat(UpTo(INNER, 61), ALNUM)))

  const DOT_LABEL := Cat(DOT, LABEL)

  // The whole pattern, anchored at both ends: LABEL(\.LABEL)+
  const DOMAIN := Cat(LABEL, Cat(DOT_LABEL, Star(DOT_LABEL)))

  ghost predicate ValidSyntax(d: string) {
    Matches(DOMAIN, d)
  }

  // ----- what the pattern admits -----

  // 1 to 63 letters, digits or hyphens, with no hyphen at either end.
  predicate IsLabel(s: string) {
    && 1 <= |s| <= 63
    && (forall c :: c in s ==> IsInner(c))
    && s[0] != '-' && s[|s| - 1] != '-'
  }

  // Two or more labels between dots.
  predicate IsDomain(s: string) {
    |Split(s, '.')| >= 2 && forall l :: l in Split(s, '.') ==> IsLabel(l)
  }

  lemma {:induction false} UpToInner(max: nat, s: string)
    ensures MatchesUpTo(INNER, max, s) <==> |s| <= max && forall c :: c in s ==> IsInner(c)
    decreases max
  {
    if s != "" && max > 0 {
      UpToInner(max - 1, s[1..]);
      assert s == [s[0]] + s[1..];
      assert Matches(INNER, s[..1]) <==> IsInner(s[0]);
      if MatchesUpTo(INNER, max, s) {
        var i :| 0 < i <= |s| && Matches(INNER, s[..i]) && MatchesUpTo(INNER, max - 1, s[i..]);
        assert i == 1;
      }
    }
  }

  lemma LabelPattern(s: string)
    ensures Matches(LABEL, s) <==> IsLabel(s)
  {
    if Matches(LABEL, s) {
      var i :| 0 <= i <= |s| && Matches(ALNUM, s[..i]) && Matches(Opt(Cat(UpTo(INNER, 61), ALNUM)), s[i..]);
      assert i == 1 && IsAlnum(s[0]);
      var t := s[1..];
      assert s == [s[0]] + t;
      if t != "" {
        MiddlePattern(t);
      }
    }
    if IsLabel(s) {
      var t := s[1..];
      assert s[0] in s && Matches(ALNUM, s[..1]);
      if t != "" {
        assert forall c :: c in t ==> c in s;
        MiddlePattern(t);
      }
    }
  }

  lemma MiddlePattern(t: string)
    ensures Matches(Cat(UpTo(INNER, 61), ALNUM), t)
            <==> 1 <= |t| <= 62 && (forall c :: c in t ==> IsInner(c)) && t[|t| - 1] != '-'
  {
    if Matches(Cat(UpTo(INNER, 61), ALNUM), t) {
      var i :| 0 <= i <= |t| && Matches(UpTo(INNER, 61), t[..i]) && Matches(ALNUM, t[i..]);
      assert i == |t| - 1 && t[i..] == [t[i]];
      UpToInner(61, t[..i]);
      assert t == t[..i] + [t[i]];
    }
    if 1 <= |t| <= 62 && (forall c :: c in t ==> IsInner(c)) && t[|t| - 1] != '-' {
      var i := |t| - 1;
      assert forall c :: c in t[..i] ==> c in t;
      UpToInner(61, t[..i]);
      assert t[i] in t && Matches(ALNUM, t[i..]);
    }
  }

  const DIGITS := "0123456789"

  lemma Digits(i: nat)
    requires i < 10
    ensures DIGITS[i] == '0' + (i as char)
  {
  }

  lemma AlnumIs(c: char)
    ensures IsAlnum(c) <==> c in LOWER || c in DIGITS
  {
    forall i | 0 <= i < 26
      ensures LOWER[i] == 'a' + (i as char)
    {
      Letters(i);
    }
    forall i | 0 <= i < 10
      ensures DIGITS[i] == '0' + (i as char)
    {
      Digits(i);
    }
    if 'a' <= c <= 'z' {
      assert LOWER[(c - 'a') as int] == c;
    }
    if '0' <= c <= '9' {
      assert DIGITS[(c - '0') as int] == c;
    }
  }

  // A label is 1 to 63 letters, digits and hyphens, without one at an end.
  lemma LabelIs(s: string)
    ensures IsLabel(s) <==>
            1 <= |s| <= 63 && s[0] != '-' && s[|s| - 1] != '-'
            && forall c :: c in s ==> c in LOWER || c in DIGITS || c == '-'
  {
    forall c
      ensures IsAlnum(c) <==> c in LOWER || c in DIGITS
    {
      AlnumIs(c);
    }
  }

  predicate AllLabels(s: string) {
    forall l :: l in Split(s, '.') ==> IsLabel(l)
  }

  // A tail of a domain: nothing, or a dot and labels between dots.
  predicate Dotted(t: string) {
    t == "" || (t[0] == '.' && AllLabels(t[1..]))
  }

  lemma NoDotInLabel(l: string)
    requires IsLabel(l)
    ensures '.' !in l
  {
  }

  lemma LabelAndTail(l: string, t: string)
    requires '.' !in l && (t != "" ==> t[0] == '.')
    ensures AllLabels(l + t) <==> IsLabel(l) && Dotted(t)
  {
    SplitWhole(l, '.');
    if t == "" {
      assert l + t == l;
    } else {
      SplitAt(l, '.', t[1..]);
      assert l + t == l + (['.'] + t[1..]);
      assert forall x :: x in [l] + Split(t[1..], '.') <==> x == l || x in Split(t[1..], '.');
    }
  }

  lemma DotLabelPattern(s: string)
    ensures Matches(DOT_LABEL, s) <==> s != "" && s[0] == '.' && IsLabel(s[1..])
  {
    if Matches(DOT_LABEL, s) {
      var i :| 0 <= i <= |s| && Matches(DOT, s[..i]) && Matches(LABEL, s[i..]);
      assert i == 1;
      LabelPattern(s[1..]);
    }
    if s != "" && s[0] == '.' && IsLabel(s[1..]) {
      LabelPattern(s[1..]);
      assert Matches(DOT, s[..1]);
    }
  }

  // Where the first label after the dot that begins s ends.
  function Cut(s: string): (i: nat)
    requires s != ""
    ensures 0 < i <= |s|
  {
    BeforeIsPrefix(s[1..], '.');
    1 + |Before(s[1..], '.')|
  }

  lemma CutSplits(s: string)
    requires s != "" && s[0] == '.'
    ensures Dotted(s) <==> IsLabel(s[..Cut(s)][1..]) && Dotted(s[Cut(s)..])
  {
    var i := Cut(s);
    BeforeIsPrefix(s[1..], '.');
    var l := Before(s[1..], '.');
    assert s[..i][1..] == l;
    assert s[1..] == l + s[i..];
    LabelAndTail(l, s[i..]);
  }

  lemma DottedStep(s: string, i: nat)
    requires 0 < i <= |s| && Matches(DOT_LABEL, s[..i]) && Dotted(s[i..])
    ensures Dotted(s)
  {
    DotLabelPattern(s[..i]);
    var l := s[..i][1..];
    NoDotInLabel(l);
    LabelAndTail(l, s[i..]);
    assert s[1..] == l + s[i..];
  }

  lemma {:induction false} StarPattern(s: string)
    ensures Matches(Star(DOT_LABEL), s) <==> Dotted(s)
    decreases |s|
  {
    if s != "" {
      if Matches(Star(DOT_LABEL), s) {
        var i :| 0 < i <= |s| && Matches(DOT_LABEL, s[..i]) && Matches(Star(DOT_LABEL), s[i..]);
        StarPattern(s[i..]);
        DottedStep(s, i);
      }
      if Dotted(s) {
        var i := Cut(s);
        CutSplits(s);
        DotLabelPattern(s[..i]);
        StarPattern(s[i..]);
      }
    }
  }

  lemma PlusPattern(s: string)
    ensures Matches(Cat(DOT_LABEL, Star(DOT_LABEL)), s) <==> s != "" && Dotted(s)
  {
    if Matches(Cat(DOT_LABEL, Star(DOT_LABEL)), s) {
      var i :| 0 <= i <= |s| && Matches(DOT_LABEL, s[..i]) && Matches(Star(DOT_LABEL), s[i..]);
      DotLabelPattern(s[..i]);
      StarPattern(s[i..]);
      DottedStep(s, i);
    }
    if s != "" && Dotted(s) {
      var i := Cut(s);
      CutSplits(s);
      DotLabelPattern(s[..i]);
      StarPattern(s[i..]);
    }
  }

  // The pattern accepts exactly the dotted sequences of two or more labels:
  // section 2.3.4 of RFC 1035 and section 2.1 of RFC 1123.
  lemma PatternIsDomain(s: string)
    ensures ValidSyntax(s) <==> IsDomain(s)
  {
    if ValidSyntax(s) {
      var i :| 0 <= i <= |s| && Matches(LABEL, s[..i]) && Matches(Cat(DOT_LABEL, Star(DOT_LABEL)), s[i..]);
      LabelPattern(s[..i]);
      PlusPattern(s[i..]);
      NoDotInLabel(s[..i]);
      LabelAndTail(s[..i], s[i..]);
      assert s == s[..i] + s[i..];
      TwoParts(s[..i], s[i..]);
    }
    if IsDomain(s) {
      var l := Before(s, '.');
      BeforeIsPrefix(s, '.');
      var t := s[|l|..];
      assert s == l + t;
      if t == "" {
        SplitWhole(s, '.');
      }
      LabelAndTail(l, t);
      LabelPattern(l);
      PlusPattern(t);
      assert s[..|l|] == l;
    }
  }

  lemma TwoParts(l: string, t: string)
    requires '.' !in l && t != "" && t[0] == '.'
    ensures |Split(l + t, '.')| >= 2
  {
    assert t == ['.'] + t[1..];
    SplitAt(l, '.', t[1..]);
  }

  // ----- what a user types -----

  function Normalize(typed: string): string {
    var d := ToLower(TrimSpace(typed));
    var bare := TrimPrefix(TrimPrefix(d, "http://"), "https://");
    TrimSuffix(Before(Before(bare, '/'), ':'), ".")
  }

  method NormalizeDomain(typed: string) returns (d: string)
    ensures d == Normalize(typed)
    ensures Decorated(typed, d)
    ensures forall h :: IsDomain(h) ==> (d == h <==> Decorated(typed, h))
  {
    d := TrimSpace(typed);
    d := ToLower(d);
    d := TrimPrefix(d, "http://");
    d := TrimPrefix(d, "https://");
    d := Before(d, '/');
    d := Before(d, ':');
    d := TrimSuffix(d, ".");
    NormalFormIsCore(typed);
    forall h | IsDomain(h)
      ensures Normalize(typed) == h <==> Decorated(typed, h)
    {
      NormalFormExact(typed, h);
    }
  }

  lemma {:induction false} SplitKeepsChars(s: string, c: char, x: char)
    requires x in s && x != c
    ensures exists l :: l in Split(s, c) && x in l
  {
    var rest := Split(s[1..], c);
    assert s == [s[0]] + s[1..];
    SplitCons(s[0], s[1..], c);
    if s[0] == x {
      assert x in ([x] + rest[0]);
      assert Extend(x, rest)[0] == [x] + rest[0];
    } else {
      SplitKeepsChars(s[1..], c, x);
      var l :| l in rest && x in l;
      if s[0] == c {
        assert l in [""] + rest;
      } else {
        KeptByExtend(s[0], rest, l, x);
      }
    }
  }

  lemma KeptByExtend(c: char, parts: seq<string>, l: string, x: char)
    requires |parts| >= 1 && l in parts && x in l
    ensures exists m :: m in Extend(c, parts) && x in m
  {
    var longer := Extend(c, parts);
    if l == parts[0] {
      assert longer[0] == [c] + l && longer[0] in longer && x in longer[0];
    } else {
      var i :| 0 <= i < |parts| && parts[i] == l;
      assert longer[i] == l && longer[i] in longer;
    }
  }

  lemma NoEmptyLastLabel(init: string)
    ensures !IsDomain(init + (['.'] + ""))
  {
    SplitAt(init, '.', "");
    assert "" in Split(init, '.') + Split("", '.');
  }

  lemma HostChars(h: string)
    requires IsDomain(h)
    ensures '.' in h && h[|h| - 1] != '.'
    ensures forall c :: c in h ==> c == '.' || IsInner(c)
    ensures ToLower(h) == h
  {
    if '.' !in h {
      SplitWhole(h, '.');
    }
    if h[|h| - 1] == '.' {
      var init := h[..|h| - 1];
      assert h == init + (['.'] + "");
      NoEmptyLastLabel(init);
    }
    forall c | c in h && c != '.'
      ensures IsInner(c)
    {
      SplitKeepsChars(h, '.', c);
      var l :| l in Split(h, '.') && c in l;
    }
    forall i | 0 <= i < |h|
      ensures LowerChar(h[i]) == h[i]
    {
      assert h[i] in h;
    }
  }

  // One scheme of each kind goes, in this order.
  const BOTH := "http://" + "https://"

  // What may precede and follow a host in what a user types.
  predicate IsScheme(s: string) {
    var t := ToLower(s);
    t == "" || t == "http://" || t == "https://" || t == BOTH
  }

  predicate IsPortOrPath(t: string) {
    t == "" || t[0] == '/' || t[0] == ':'
  }

  lemma NoScheme(h: string, t: string)
    requires '.' in h && ':' !in h
    ensures !("http://" <= h + t) && !("https://" <= h + t)
  {
    var i :| 0 <= i < |h| && h[i] == '.';
    assert (h + t)[i] == '.';
    assert |h| > 4 ==> (h + t)[4] == h[4];
    assert |h| > 5 ==> (h + t)[5] == h[5];
  }

  lemma BothStripped(bare: string)
    ensures TrimPrefix(TrimPrefix(BOTH + bare, "http://"), "https://") == bare
  {
    var rest := "https://" + bare;
    assert BOTH + bare == "http://" + rest;
    assert ("http://" + rest)[7..] == rest && rest[8..] == bare;
  }

  lemma SchemeStripped(scheme: string, h: string, t: string)
    requires '.' in h && ':' !in h
    requires scheme == "" || scheme == "http://" || scheme == "https://" || scheme == BOTH
    ensures TrimPrefix(TrimPrefix(scheme + (h + t), "http://"), "https://") == h + t
  {
    NoScheme(h, t);
    var s := scheme + (h + t);
    assert s[|scheme|..] == h + t;
    if scheme == BOTH {
      BothStripped(h + t);
    } else if scheme == "https://" {
      assert s[4] == 's' && scheme <= s;
    } else if scheme == "http://" {
      assert scheme <= s;
    }
  }

  lemma {:induction false} BeforeSkips(a: string, c: char, t: string)
    requires c !in a
    ensures Before(a + t, c) == a + Before(t, c)
  {
    if a == "" {
      assert a + t == t;
    } else {
      BeforeSkips(a[1..], c, t);
      assert (a + t)[1..] == a[1..] + t;
      assert a + Before(t, c) == [a[0]] + (a[1..] + Before(t, c));
    }
  }

  lemma TailCut(a: string, t: string)
    requires '/' !in a && ':' !in a && IsPortOrPath(t)
    ensures Before(Before(a + t, '/'), ':') == a
  {
    BeforeSkips(a, '/', t);
    BeforeSkips(a, ':', Before(t, '/'));
    assert a + "" == a;
  }

  // Trimming leaves the core and some tail of the same kind.
  lemma TrimDecorated(lead: string, core: string, tail: string, trail: string) returns (tail': string)
    requires core != "" && !IsSpace(core[0]) && !IsSpace(core[|core| - 1])
    requires IsPortOrPath(tail) && forall c :: c in lead + trail ==> IsSpace(c)
    ensures IsPortOrPath(tail') && TrimSpace(lead + (core + (tail + trail))) == core + tail'
  {
    assert forall c :: c in lead ==> c in lead + trail;
    assert forall c :: c in trail ==> c in lead + trail;
    TrimLeftSpaces(lead, core + (tail + trail));
    assert (core + (tail + trail))[0] == core[0];
    TrimRightKeeps(core, tail + trail);
    tail' := TrimRight(tail + trail);
    if tail == "" {
      assert tail + trail == trail;
      TrimAllSpace(trail);
    } else if tail' != "" {
      assert tail'[0] == (tail + trail)[0] == tail[0];
    }
  }

  lemma LoweredCore(h: string, scheme: string, host: string, dot: string, tail: string)
    requires ToLower(host) == h && (dot == "" || dot == ".")
    ensures ToLower((scheme + (host + dot)) + tail) == ToLower(scheme) + ((h + dot) + ToLower(tail))
  {
    LowerConcat(scheme + (host + dot), tail);
    LowerConcat(scheme, host + dot);
    LowerConcat(host, dot);
    assert ToLower(dot) == dot;
    Associative(ToLower(scheme), h + dot, ToLower(tail));
  }

  lemma HostRecovered(h: string, scheme: string, dot: string, t: string)
    requires '.' in h && ':' !in h && '/' !in h && h[|h| - 1] != '.'
    requires scheme == "" || scheme == "http://" || scheme == "https://" || scheme == BOTH
    requires (dot == "" || dot == ".") && IsPortOrPath(t)
    ensures var bare := TrimPrefix(TrimPrefix(scheme + ((h + dot) + t), "http://"), "https://");
            TrimSuffix(Before(Before(bare, '/'), ':'), ".") == h
  {
    SchemeStripped(scheme, h + dot, t);
    TailCut(h + dot, t);
    if dot == "." {
      assert HasSuffix(h + dot, ".");
    } else {
      assert h + dot == h;
    }
  }

  // A host is recovered from every decoration of it: letter case, white
  // space around, an http or https scheme or both, one trailing dot, and a
  // port, a path or both.
  lemma DecorationsRemoved(h: string, lead: string, scheme: string, host: string, dot: string, tail: string, trail: string)
    requires IsDomain(h) && ToLower(host) == h
    requires IsScheme(scheme) && (dot == "" || dot == ".") && IsPortOrPath(tail)
    requires forall c :: c in lead + trail ==> IsSpace(c)
    ensures Normalize(lead + ((scheme + (host + dot)) + (tail + trail))) == h
  {
    HostChars(h);
    CoreEnds(h, scheme, host, dot);
    var tail' := TrimDecorated(lead, scheme + (host + dot), tail, trail);
    LoweredCore(h, scheme, host, dot, tail');
    HostRecovered(h, ToLower(scheme), dot, ToLower(tail'));
  }

  lemma CoreEnds(h: string, scheme: string, host: string, dot: string)
    requires h != "" && ToLower(host) == h && (forall c :: c in h ==> c == '.' || IsInner(c))
    requires IsScheme(scheme) && (dot == "" || dot == ".")
    ensures var core := scheme + (host + dot);
            core != "" && !IsSpace(core[0]) && !IsSpace(core[|core| - 1])
  {
    var core := scheme + (host + dot);
    assert h[0] in h && h[|h| - 1] in h;
    assert h[0] == LowerChar(host[0]) && h[|h| - 1] == LowerChar(host[|host| - 1]);
    if scheme != "" {
      assert core[0] == scheme[0] && ToLower(scheme)[0] == LowerChar(scheme[0]) == 'h';
    } else {
      assert core[0] == host[0];
    }
    assert core[|core| - 1] == if dot == "" then host[|host| - 1] else '.';
  }

  predicate Decoration(typed: string, h: string, lead: string, scheme: string, host: string, dot: string,
                       tail: string, trail: string) {
    && typed == lead + ((scheme + (host + dot)) + (tail + trail))
    && ToLower(host) == h && IsScheme(scheme) && (dot == "" || dot == ".") && IsPortOrPath(tail)
    && forall c :: c in lead + trail ==> IsSpace(c)
  }

  ghost predicate Decorated(typed: string, h: string) {
    exists lead, scheme, host, dot, tail, trail :: Decoration(typed, h, lead, scheme, host, dot, tail, trail)
  }

  lemma SchemeOf(d: string) returns (scheme: string)
    ensures d == scheme + TrimPrefix(TrimPrefix(d, "http://"), "https://")
    ensures scheme == "" || scheme == "http://" || scheme == "https://" || scheme == BOTH
  {
    var rest := TrimPrefix(d, "http://");
    var bare := TrimPrefix(rest, "https://");
    scheme := (if rest == d then "" else "http://") + (if bare == rest then "" else "https://");
  }

  lemma CutOff(s: string, c: char) returns (tail: string)
    ensures s == Before(s, c) + tail && (tail == "" || tail[0] == c)
  {
    BeforeIsPrefix(s, c);
    tail := s[|Before(s, c)|..];
  }

  lemma TailOf(bare: string) returns (tail: string)
    ensures bare == Before(Before(bare, '/'), ':') + tail && IsPortOrPath(tail)
  {
    var path := CutOff(bare, '/');
    var port := CutOff(Before(bare, '/'), ':');
    tail := port + path;
    Associative(Before(Before(bare, '/'), ':'), port, path);
    if port == "" {
      assert tail == path;
    } else {
      assert tail[0] == port[0];
    }
  }

  // The parts of a core, read off its lower case.
  lemma PartsOf(core: string, s: string, h: string, d: string, t: string)
    returns (scheme: string, host: string, dot: string, tail: string)
    requires ToLower(core) == s + ((h + d) + t)
    ensures core == (scheme + (host + dot)) + tail
    ensures ToLower(scheme) == s && ToLower(host) == h && ToLower(dot) == d && ToLower(tail) == t
  {
    var rest, named;
    scheme, rest := LowerParts(core, s, (h + d) + t);
    named, tail := LowerParts(rest, h + d, t);
    host, dot := LowerParts(named, h, d);
    Associative(scheme, named, tail);
  }

  lemma LowerIsLiteral(dot: string, tail: string)
    ensures ToLower(dot) == "" || ToLower(dot) == "." ==> dot == "" || dot == "."
    ensures IsPortOrPath(ToLower(tail)) ==> IsPortOrPath(tail)
  {
    if ToLower(dot) == "." {
      assert LowerChar(dot[0]) == '.';
    }
    if tail != "" {
      assert ToLower(tail)[0] == LowerChar(tail[0]);
    }
  }

  lemma CoreOf(core: string, h: string) returns (scheme: string, host: string, dot: string, tail: string)
    requires var bare := TrimPrefix(TrimPrefix(ToLower(core), "http://"), "https://");
             TrimSuffix(Before(Before(bare, '/'), ':'), ".") == h
    ensures core == (scheme + (host + dot)) + tail
    ensures ToLower(host) == h && IsScheme(scheme) && (dot == "" || dot == ".") && IsPortOrPath(tail)
  {
    var s := SchemeOf(ToLower(core));
    var bare := TrimPrefix(TrimPrefix(ToLower(core), "http://"), "https://");
    var t := TailOf(bare);
    var d := DotOf(Before(Before(bare, '/'), ':'));
    scheme, host, dot, tail := PartsOf(core, s, h, d, t);
    LowerIsLiteral(dot, tail);
  }

  lemma NormalFormIsCore(typed: string)
    ensures Decorated(typed, Normalize(typed))
  {
    var lead := LeadingSpace(typed);
    var trail := TrailingSpace(TrimLeft(typed));
    var scheme, host, dot, tail := CoreOf(TrimSpace(typed), Normalize(typed));
    Associative(scheme + (host + dot), tail, trail);
    assert Decoration(typed, Normalize(typed), lead, scheme, host, dot, tail, trail);
  }

  // A host is the normal form of what is typed exactly when it is decorated
  // there.
  lemma NormalFormExact(typed: string, h: string)
    requires IsDomain(h)
    ensures Normalize(typed) == h <==> Decorated(typed, h)
  {
    NormalFormIsCore(typed);
    if Decorated(typed, h) {
      var lead, scheme, host, dot, tail, trail :| Decoration(typed, h, lead, scheme, host, dot, tail, trail);
      DecorationsRemoved(h, lead, scheme, host, dot, tail, trail);
    }
  }

  // In particular an accepted host is left as it is.
  lemma HostsAreFixed(h: string)
    requires IsDomain(h)
    ensures Normalize(h) == h
  {
    HostChars(h);
    DecorationsRemoved(h, "", "", h, "", "", "");
    assert "" + (("" + (h + "")) + ("" + "")) == h;
  }
}
