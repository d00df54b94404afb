// The few operations of Go's strings package that the program relies on,
// over ASCII text: a string is a sequence of characters, only 'A'..'Z' has a
// lower case, and white space is the six ASCII space characters.
module Text {

  datatype Option<+T> = None | Some(value: T)

  // Space, and the run from tab to carriage return.
  predicate IsSpace(c: char) {
    c == ' ' || '\t' <= c <= '\r'
  }

  predicate NoSpace(s: string) {
    forall c :: c in s ==> !IsSpace(c)
  }

  function LowerChar(c: char): char {
    if 'A' <= c <= 'Z' then c - 'A' + 'a' else c
  }

  function ToLower(s: string): (r: string)
    ensures |r| == |s|
    ensures forall i :: 0 <= i < |s| ==> r[i] == LowerChar(s[i])
  {
    seq(|s|, i requires 0 <= i < |s| => LowerChar(s[i]))
  }

  predicate EqualFold(a: string, b: string) {
    ToLower(a) == ToLower(b)
  }

  function TrimLeft(s: string): string {
    if s != "" && IsSpace(s[0]) then TrimLeft(s[1..]) else s
  }

  function TrimRight(s: string): string {
    if s != "" && IsSpace(s[|s| - 1]) then TrimRight(s[..|s| - 1]) else s
  }

  function TrimSpace(s: string): string {
    TrimRight(TrimLeft(s))
  }

  function TrimPrefix(s: string, p: string): string {
    if p <= s then s[|p|..] else s
  }

  predicate HasSuffix(s: string, p: string) {
    |p| <= |s| && s[|s| - |p|..] == p
  }

  function TrimSuffix(s: string, p: string): string {
    if HasSuffix(s, p) then s[..|s| - |p|] else s
  }

  predicate Contains(s: string, sub: string) {
    exists i | 0 <= i <= |s| :: sub <= s[i..]
  }

  // The part of s before the first c, or all of s when c is absent.
  function Before(s: string, c: char): string {
    if s == "" || s[0] == c then "" else [s[0]] + Before(s[1..], c)
  }

  // The parts with the first one extended by one character.
  function Extend(c: char, parts: seq<string>): seq<string>
    requires |parts| >= 1
  {
    [[c] + parts[0]] + parts[1..]
  }

  function Split(s: string, c: char): (parts: seq<string>)
    ensures |parts| >= 1
  {
    if s == "" then [""]
    else if s[0] == c then [""] + Split(s[1..], c)
    else Extend(s[0], Split(s[1..], c))
  }

  // At most n parts; the last one keeps any further separators.
  function SplitN(s: string, c: char, n: nat): (parts: seq<string>)
    requires n >= 1
    ensures 1 <= |parts| <= n
    decreases n
  {
    var head := Before(s, c);
    if n == 1 || |head| >= |s| then [s] else [head] + SplitN(s[|head| + 1..], c, n - 1)
  }

  function Join(parts: seq<string>, sep: string): string {
    if parts == [] then ""
    else if |parts| == 1 then parts[0]
    else parts[0] + sep + Join(parts[1..], sep)
  }

  // The length of the longest prefix of s without white space.
  function WordLength(s: string): (n: nat)
    ensures n <= |s|
    ensures NoSpace(s[..n])
    ensures n < |s| ==> IsSpace(s[n])
  {
    if s == "" || IsSpace(s[0]) then 0
    else
      var n := 1 + WordLength(s[1..]);
      assert s[..n] == [s[0]] + s[1..][..n - 1];
      n
  }

  // A field of a line: not empty and without white space.
  type Field = w: string | w != "" && NoSpace(w) witness "w"

  // The maximal runs of characters that are not white space.
  function Fields(s: string): seq<Field>
  {
    if s == "" then []
    else if IsSpace(s[0]) then Fields(s[1..])
    else var n := WordLength(s); [s[..n]] + Fields(s[n..])
  }

  function Spaced(words: seq<string>): string {
    if words == [] then "" else [' '] + (words[0] + Spaced(words[1..]))
  }

  // Left-to-right replacement of non-overlapping occurrences.
  function ReplaceAll(s: string, from: string, to: string): string
    requires from != ""
  {
    if s == "" then ""
    else if from <= s then to + ReplaceAll(s[|from|..], from, to)
    else [s[0]] + ReplaceAll(s[1..], from, to)
  }

  // ----- laws -----

  lemma LowerIdempotent(s: string)
    ensures ToLower(ToLower(s)) == ToLower(s)
  {
  }

  lemma LowerConcat(a: string, b: string)
    ensures ToLower(a + b) == ToLower(a) + ToLower(b)
  {
  }

  lemma {:induction false} BeforeIsPrefix(s: string, c: char)
    ensures Before(s, c) <= s && c !in Before(s, c)
    ensures Before(s, c) == s <==> c !in s
    ensures |Before(s, c)| < |s| ==> s[|Before(s, c)|] == c
  {
    if s != "" && s[0] != c {
      BeforeIsPrefix(s[1..], c);
      assert s == [s[0]] + s[1..];
    }
  }

  lemma {:induction false} BeforeCuts(a: string, c: char, b: string)
    requires c !in a
    ensures Before(a + [c] + b, c) == a
  {
    if a == "" {
      assert (a + [c] + b)[0] == c;
    } else {
      BeforeCuts(a[1..], c, b);
      assert (a + [c] + b)[1..] == a[1..] + [c] + b;
    }
  }

  lemma SplitCons(x: char, s: string, c: char)
    ensures Split([x] + s, c) == if x == c then [""] + Split(s, c) else Extend(x, Split(s, c))
  {
    assert ([x] + s)[1..] == s;
  }

  lemma Associative<T>(a: seq<T>, b: seq<T>, c: seq<T>)
    ensures a + (b + c) == (a + b) + c
  {
  }

  lemma ExtendAppend(x: char, parts: seq<string>, more: seq<string>)
    requires |parts| >= 1
    ensures Extend(x, parts + more) == Extend(x, parts) + more
  {
    assert (parts + more)[1..] == parts[1..] + more;
    Associative([[x] + parts[0]], parts[1..], more);
  }

  lemma SplitConsAppend(x: char, s: string, c: char, t: string, more: seq<string>)
    requires Split(t, c) == Split(s, c) + more
    ensures Split([x] + t, c) == Split([x] + s, c) + more
  {
    SplitCons(x, s, c);
    SplitCons(x, t, c);
    Associative([""], Split(s, c), more);
    ExtendAppend(x, Split(s, c), more);
  }

  lemma {:induction false} SplitAt(a: string, c: char, b: string)
    ensures Split(a + ([c] + b), c) == Split(a, c) + Split(b, c)
  {
    if a == "" {
      assert a + ([c] + b) == [c] + b;
      SplitCons(c, b, c);
    } else {
      var x, rest := a[0], a[1..];
      SplitAt(rest, c, b);
      SplitConsAppend(x, rest, c, rest + ([c] + b), Split(b, c));
      assert a == [x] + rest;
      assert a + ([c] + b) == [x] + (rest + ([c] + b));
    }
  }

  lemma {:induction false} SplitWhole(a: string, c: char)
    requires c !in a
    ensures Split(a, c) == [a]
  {
    if a != "" {
      SplitWhole(a[1..], c);
      assert a == [a[0]] + a[1..];
    }
  }

  lemma {:induction false} TrimLeftSpaces(lead: string, s: string)
    requires forall c :: c in lead ==> IsSpace(c)
    ensures TrimLeft(lead + s) == TrimLeft(s)
  {
    if lead == "" {
      assert lead + s == s;
    } else {
      TrimLeftSpaces(lead[1..], s);
      assert (lead + s)[1..] == lead[1..] + s;
    }
  }

  // Trimming on the right stops no later than a character that is not white space.
  lemma {:induction false} TrimRightKeeps(core: string, tail: string)
    requires core != "" && !IsSpace(core[|core| - 1])
    ensures TrimRight(core + tail) == core + TrimRight(tail)
    ensures TrimRight(tail) <= tail
  {
    if tail == "" {
      assert core + tail == core;
    } else if IsSpace(tail[|tail| - 1]) {
      TrimRightKeeps(core, tail[..|tail| - 1]);
      assert (core + tail)[..|core + tail| - 1] == core + tail[..|tail| - 1];
    }
  }

  lemma TrimSpaceKeeps(core: string, tail: string)
    requires core != "" && !IsSpace(core[0]) && !IsSpace(core[|core| - 1])
    ensures ToLower(core) <= ToLower(TrimSpace(core + tail))
  {
    TrimRightKeeps(core, tail);
    assert TrimLeft(core + tail) == core + tail;
    LowerConcat(core, TrimRight(tail));
  }

  lemma {:induction false} WordLengthIs(w: string, rest: string)
    requires NoSpace(w)
    requires rest == "" || IsSpace(rest[0])
    ensures WordLength(w + rest) == |w|
  {
    if w == "" {
      assert w + rest == rest;
    } else {
      WordLengthIs(w[1..], rest);
      assert (w + rest)[1..] == w[1..] + rest;
    }
  }

  // A word followed by nothing or by white space is the first field.
  lemma FirstField(w: Field, rest: string)
    requires rest == "" || IsSpace(rest[0])
    ensures Fields(w + rest) == [w] + Fields(rest)
  {
    WordLengthIs(w, rest);
    assert (w + rest)[..|w|] == w && (w + rest)[|w|..] == rest;
  }

  lemma FieldsSkipSpace(s: string)
    ensures Fields([' '] + s) == Fields(s)
  {
    assert ([' '] + s)[1..] == s;
  }

  lemma {:induction false} FieldsOfSpaced(words: seq<Field>)
    ensures Fields(Spaced(words)) == words
  {
    if words != [] {
      var w, rest := words[0], Spaced(words[1..]);
      FieldsOfSpaced(words[1..]);
      assert rest == "" || rest[0] == ' ';
      FirstField(w, rest);
      FieldsSkipSpace(w + rest);
    }
  }

  // ----- words laid out with white space of any kind -----

  type Blanks = g: string | forall c :: c in g ==> IsSpace(c)

  datatype Laid = Laid(gap: Blanks, word: Field)

  function Lay(words: seq<Laid>): string {
    if words == [] then "" else words[0].gap + (words[0].word + Lay(words[1..]))
  }

  function WordsOf(words: seq<Laid>): seq<Field> {
    seq(|words|, i requires 0 <= i < |words| => words[i].word)
  }

  predicate Apart(words: seq<Laid>) {
    forall w :: w in words ==> w.gap != ""
  }

  lemma {:induction false} FieldsSkipBlanks(lead: Blanks, s: string)
    ensures Fields(lead + s) == Fields(s)
  {
    if lead == "" {
      assert lead + s == s;
    } else {
      assert lead[0] in lead && forall c :: c in lead[1..] ==> c in lead;
      FieldsSkipBlanks(lead[1..], s);
      assert (lead + s)[1..] == lead[1..] + s;
    }
  }

  // The fields of a line are its words, however far apart.
  lemma {:induction false} FieldsOfLaid(words: seq<Laid>, trail: Blanks)
    requires Apart(words)
    ensures Fields(Lay(words) + trail) == WordsOf(words)
  {
    if words == [] {
      FieldsSkipBlanks(trail, "");
      assert trail + "" == trail && "" + trail == trail;
    } else {
      var gap, w, rest := words[0].gap, words[0].word, Lay(words[1..]) + trail;
      FieldsOfLaid(words[1..], trail);
      Associative(gap, w + Lay(words[1..]), trail);
      Associative(w, Lay(words[1..]), trail);
      FieldsSkipBlanks(gap, w + rest);
      GapInFront(words[1..], trail);
      FirstField(w, rest);
      assert WordsOf(words) == [w] + WordsOf(words[1..]);
    }
  }

  lemma GapInFront(words: seq<Laid>, trail: Blanks)
    requires Apart(words)
    ensures var rest := Lay(words) + trail; rest == "" || IsSpace(rest[0])
  {
    if words == [] {
      assert "" + trail == trail;
      assert trail == "" || trail[0] in trail;
    } else {
      assert words[0] in words && words[0].gap[0] in words[0].gap;
      assert Lay(words)[0] == words[0].gap[0];
    }
  }

  predicate IsTail(v: string, s: string) {
    |v| <= |s| && v == s[|s| - |v|..]
  }

  lemma TailOfTail(v: string, w: string, s: string)
    requires IsTail(v, w) && IsTail(w, s)
    ensures IsTail(v, s)
  {
  }

  lemma TailIsClean(v: string, s: string, sub: string)
    requires IsTail(v, s) && NoSpace(s) && !Contains(s, sub)
    ensures NoSpace(v) && !Contains(v, sub)
  {
    ContainsSuffix(s, |s| - |v|, sub);
  }

  lemma ContainsSuffix(s: string, k: nat, sub: string)
    requires k <= |s|
    ensures Contains(s[k..], sub) ==> Contains(s, sub)
  {
    if i :| 0 <= i <= |s[k..]| && sub <= s[k..][i..] {
      assert s[k..][i..] == s[k + i..];
    }
  }

  // ----- what the operations mean -----

  // White space is the six ASCII characters and no other.
  lemma WhiteSpace(c: char)
    ensures IsSpace(c) <==> c == ' ' || c == '\t' || c == '\n' || c == '\U{000B}' || c == '\U{000C}' || c == '\r'
  {
  }

  // The letters of either case, in order.
  const UPPER := "ABCDEFGHIJKLMNOPQRSTUVWXYZ"
  const LOWER := "abcdefghijklmnopqrstuvwxyz"

  lemma Letters(i: nat)
    requires i < 26
    ensures UPPER[i] == 'A' + (i as char) && LOWER[i] == 'a' + (i as char)
  {
  }

  // Lower-casing takes each capital to its letter and leaves the rest.
  lemma LowerOfLetter(c: char)
    ensures forall i :: 0 <= i < 26 && UPPER[i] == c ==> LowerChar(c) == LOWER[i]
    ensures c !in UPPER ==> LowerChar(c) == c
  {
    forall i | 0 <= i < 26 && UPPER[i] == c
      ensures LowerChar(c) == LOWER[i]
    {
      Letters(i);
    }
    if 'A' <= c <= 'Z' {
      var i := (c - 'A') as int;
      Letters(i);
      assert UPPER[i] == c;
    }
  }

  // What contains a string has it somewhere inside.
  lemma ContainsIs(s: string, sub: string)
    ensures Contains(s, sub) <==> Inside(s, sub)
  {
    if Contains(s, sub) {
      var i :| 0 <= i <= |s| && sub <= s[i..];
      var x, y := s[..i], s[i..][|sub|..];
      assert s[i..] == sub + y;
      assert s == x + (sub + y);
      Associative(x, sub, y);
      assert s == x + sub + y;
    }
    if Inside(s, sub) {
      var x, y :| s == x + sub + y;
      Associative(x, sub, y);
      TailBehind(x, sub + y);
      assert sub <= s[|x|..];
    }
  }

  lemma TailBehind<T>(x: seq<T>, y: seq<T>)
    ensures (x + y)[|x|..] == y
  {
  }

  ghost predicate Inside(s: string, sub: string) {
    exists x, y :: s == x + sub + y
  }

  lemma CharInside(s: string, c: char)
    ensures Inside(s, [c]) <==> c in s
  {
    if c in s {
      var i :| 0 <= i < |s| && s[i] == c;
      assert s == s[..i] + [c] + s[i + 1..];
    }
    if Inside(s, [c]) {
      var x, y :| s == x + [c] + y;
      assert s[|x|] == c;
    }
  }

  lemma {:induction false} LeadingSpace(s: string) returns (lead: string)
    ensures s == lead + TrimLeft(s) && forall c :: c in lead ==> IsSpace(c)
  {
    if s != "" && IsSpace(s[0]) {
      lead := LeadingSpace(s[1..]);
      lead := [s[0]] + lead;
    } else {
      lead := "";
    }
  }

  lemma {:induction false} TrailingSpace(s: string) returns (trail: string)
    ensures s == TrimRight(s) + trail && forall c :: c in trail ==> IsSpace(c)
  {
    if s != "" && IsSpace(s[|s| - 1]) {
      trail := TrailingSpace(s[..|s| - 1]);
      trail := trail + [s[|s| - 1]];
    } else {
      trail := "";
    }
  }

  lemma {:induction false} TrimAllSpace(s: string)
    requires forall c :: c in s ==> IsSpace(c)
    ensures TrimRight(s) == ""
  {
    if s != "" {
      assert s[|s| - 1] in s;
      TrimAllSpace(s[..|s| - 1]);
    }
  }

  predicate Edgeless(s: string) {
    s != "" ==> !IsSpace(s[0]) && !IsSpace(s[|s| - 1])
  }

  ghost predicate Padded(s: string, core: string) {
    exists lead, trail :: PaddedBy(s, core, lead, trail)
  }

  predicate PaddedBy(s: string, core: string, lead: string, trail: string) {
    s == lead + (core + trail) && (forall c :: c in lead ==> IsSpace(c)) && forall c :: c in trail ==> IsSpace(c)
  }

  lemma {:induction false} TrimLeftStops(s: string)
    ensures TrimLeft(s) != "" ==> !IsSpace(TrimLeft(s)[0])
  {
    if s != "" && IsSpace(s[0]) {
      TrimLeftStops(s[1..]);
    }
  }

  lemma {:induction false} TrimRightStops(s: string)
    ensures TrimRight(s) <= s
    ensures TrimRight(s) != "" ==> !IsSpace(TrimRight(s)[|TrimRight(s)| - 1])
  {
    if s != "" && IsSpace(s[|s| - 1]) {
      TrimRightStops(s[..|s| - 1]);
    }
  }

  lemma PaddingTrimmed(core: string, lead: string, trail: string)
    requires Edgeless(core) && PaddedBy(lead + (core + trail), core, lead, trail)
    ensures TrimSpace(lead + (core + trail)) == core
  {
    TrimLeftSpaces(lead, core + trail);
    if core == "" {
      assert core + trail == trail;
      TrimLeftSpaces(trail, "");
      assert trail + "" == trail;
    } else {
      assert (core + trail)[0] == core[0];
      TrimRightKeeps(core, trail);
      TrimAllSpace(trail);
      assert core + "" == core;
    }
  }

  lemma TrimmedIsPadded(s: string)
    ensures Edgeless(TrimSpace(s)) && Padded(s, TrimSpace(s))
  {
    TrimLeftStops(s);
    TrimRightStops(TrimLeft(s));
    var lead := LeadingSpace(s);
    var trail := TrailingSpace(TrimLeft(s));
    assert PaddedBy(s, TrimSpace(s), lead, trail);
  }

  // Trimming finds the one core without white space at its ends.
  lemma TrimSpaceExact(s: string, core: string)
    ensures TrimSpace(s) == core <==> Edgeless(core) && Padded(s, core)
  {
    TrimmedIsPadded(s);
    if Edgeless(core) && Padded(s, core) {
      var lead, trail :| PaddedBy(s, core, lead, trail);
      PaddingTrimmed(core, lead, trail);
    }
  }

  lemma DotOf(s: string) returns (dot: string)
    ensures s == TrimSuffix(s, ".") + dot && (dot == "" || dot == ".")
  {
    dot := if HasSuffix(s, ".") then "." else "";
    if dot == "" {
      assert s + "" == s;
    }
  }

  // What is lower-cased to a + b is in two parts itself.
  lemma LowerParts(s: string, a: string, b: string) returns (p: string, q: string)
    requires ToLower(s) == a + b
    ensures s == p + q && ToLower(p) == a && ToLower(q) == b
  {
    p, q := s[..|a|], s[|a|..];
    LowerConcat(p, q);
    assert ToLower(p) + ToLower(q) == a + b;
    assert (a + b)[..|a|] == a && (a + b)[|a|..] == b;
  }

  // s up to letter case, white space around it and one dot at its end.
  ghost predicate Dressed(s: string, name: string) {
    exists lead, bare, dot, trail :: DressedBy(s, name, lead, bare, dot, trail)
  }

  predicate DressedBy(s: string, name: string, lead: string, bare: string, dot: string, trail: string) {
    PaddedBy(s, bare + dot, lead, trail) && ToLower(bare) == name && (dot == "" || dot == ".")
  }

  lemma DotIsDot(dot: string)
    ensures ToLower(dot) == "." ==> dot == "."
    ensures ToLower(dot) == "" ==> dot == ""
  {
    if ToLower(dot) == "." {
      assert LowerChar(dot[0]) == '.';
    }
  }

  // Lower-casing, trimming and dropping a final dot undresses a name...
  lemma UndressedIsDressed(s: string)
    ensures Dressed(s, TrimSuffix(ToLower(TrimSpace(s)), "."))
  {
    var core := TrimSpace(s);
    var name := TrimSuffix(ToLower(core), ".");
    TrimSpaceExact(s, core);
    var lead, trail :| PaddedBy(s, core, lead, trail);
    var d := DotOf(ToLower(core));
    var bare, dot := LowerParts(core, name, d);
    DotIsDot(dot);
    assert DressedBy(s, name, lead, bare, dot, trail);
  }

  lemma DressedEdges(name: string, bare: string, dot: string)
    requires ToLower(bare) == name && name != "" && Edgeless(name) && (dot == "" || dot == ".")
    ensures Edgeless(bare + dot)
  {
    assert name[0] == LowerChar(bare[0]) && name[|name| - 1] == LowerChar(bare[|bare| - 1]);
    assert (bare + dot)[0] == bare[0];
    assert (bare + dot)[|bare + dot| - 1] == if dot == "" then bare[|bare| - 1] else '.';
  }

  lemma DotDropped(name: string, bare: string, dot: string)
    requires ToLower(bare) == name && name != "" && name[|name| - 1] != '.' && (dot == "" || dot == ".")
    ensures TrimSuffix(ToLower(bare + dot), ".") == name
  {
    LowerConcat(bare, dot);
    assert ToLower(dot) == dot;
    if dot == "." {
      assert HasSuffix(name + dot, ".");
    } else {
      assert name + dot == name;
    }
  }

  // ...and finds every name that ends neither in a dot nor in white space.
  lemma UndressedIs(s: string, name: string)
    requires name != "" && Edgeless(name) && name[|name| - 1] != '.'
    ensures TrimSuffix(ToLower(TrimSpace(s)), ".") == name <==> Dressed(s, name)
  {
    UndressedIsDressed(s);
    if Dressed(s, name) {
      var lead, bare, dot, trail :| DressedBy(s, name, lead, bare, dot, trail);
      DressedEdges(name, bare, dot);
      PaddingTrimmed(bare + dot, lead, trail);
      DotDropped(name, bare, dot);
    }
  }

  // Joining undoes splitting.
  lemma {:induction false} JoinOfSplit(s: string, c: char)
    ensures Join(Split(s, c), [c]) == s
  {
    if s != "" {
      var rest := Split(s[1..], c);
      JoinOfSplit(s[1..], c);
      if s[0] == c {
        assert ([""] + rest)[1..] == rest;
      } else {
        JoinExtend(s[0], rest, [c]);
      }
    }
  }

  lemma JoinExtend(x: char, parts: seq<string>, sep: string)
    requires parts != []
    ensures Join(Extend(x, parts), sep) == [x] + Join(parts, sep)
  {
    if |parts| > 1 {
      assert Extend(x, parts)[1..] == parts[1..];
      Associative([x], parts[0], sep);
      Associative([x], parts[0] + sep, Join(parts[1..], sep));
    }
  }

  lemma {:induction false} JoinConcat(a: seq<string>, b: seq<string>, sep: string)
    requires a != [] && b != []
    ensures Join(a + b, sep) == Join(a, sep) + sep + Join(b, sep)
  {
    assert (a + b)[1..] == a[1..] + b;
    if |a| > 1 {
      JoinConcat(a[1..], b, sep);
      Associative(a[0] + sep, Join(a[1..], sep), sep + Join(b, sep));
      Associative(Join(a[1..], sep), sep, Join(b, sep));
      Associative(a[0] + sep, Join(a[1..], sep), sep);
      Associative((a[0] + sep) + Join(a[1..], sep), sep, Join(b, sep));
    } else {
      assert a + b == [a[0]] + b;
    }
  }

  // The first field is what stands before the next white space.
  lemma FirstWord(s: string)
    ensures TrimSpace(s) == "" <==> Fields(s) == []
    ensures Fields(s) != [] ==> Fields(s)[0] <= TrimSpace(s)
    ensures Fields(s) != [] && |Fields(s)[0]| < |TrimSpace(s)| ==> IsSpace(TrimSpace(s)[|Fields(s)[0]|])
  {
    var lead := LeadingSpace(s);
    var t := TrimLeft(s);
    TrimLeftStops(s);
    FieldsSkipBlanks(lead, t);
    if t != "" {
      var n := WordLength(t);
      var w, rest := t[..n], t[n..];
      assert t == w + rest;
      TrimRightKeeps(w, rest);
    }
  }
}
