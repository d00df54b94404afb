// internal/dns/hosts.go: looking a domain up in the text of a hosts file.
module Hosts {
  import opened Text

  function Canonical(name: string): string {
    TrimSuffix(ToLower(TrimSpace(name)), ".")
  }

  predicate Names(name: string, domain: string) {
    EqualFold(TrimSuffix(name, "."), domain)
  }

  function LineFields(line: string): seq<Field> {
    Fields(Before(line, '#'))
  }

  predicate NamedIn(fields: seq<Field>, domain: string) {
    exists i :: 1 <= i < |fields| && Names(fields[i], domain)
  }

  // The address a line gives to domain.
  function LineHit(line: string, domain: string): Option<string> {
    var fields := LineFields(line);
    if |fields| >= 2 && NamedIn(fields, domain) then Some(fields[0]) else None
  }

  function FirstHit(lines: seq<string>, domain: string): Option<string> {
    if lines == [] then None
    else if LineHit(lines[0], domain).Some? then LineHit(lines[0], domain)
    else FirstHit(lines[1..], domain)
  }

  function Lookup(content: string, domain: string): Option<string> {
    if Canonical(domain) == "" then None else FirstHit(Split(content, '\n'), Canonical(domain))
  }

  // The body of the loop over the lines.
  method ScanLine(text: string, domain: string) returns (ip: string, ok: bool)
    ensures (if ok then Some(ip) else None) == LineHit(text, domain)
  {
    var line := Before(text, '#');
    var fields := Fields(line);
    if |fields| < 2 {
      return "", false;
    }
    for i := 1 to |fields|
      invariant forall j :: 1 <= j < i ==> !Names(fields[j], domain)
    {
      if Names(fields[i], domain) {
        return fields[0], true;
      }
    }
    return "", false;
  }

  method ParseHostsFile(content: string, domain: string) returns (ip: string, ok: bool)
    ensures (if ok then Some(ip) else None) == Lookup(content, domain)
  {
    var wanted := ToLower(TrimSpace(domain));
    wanted := TrimSuffix(wanted, ".");
    if wanted == "" {
      return "", false;
    }
    var lines := Split(content, '\n');
    ghost var rest := lines;
    for i := 0 to |lines|
      invariant rest == lines[i..] && FirstHit(lines, wanted) == FirstHit(rest, wanted)
    {
      assert rest[0] == lines[i] && rest[1..] == lines[i + 1..];
      ip, ok := ScanLine(lines[i], wanted);
      if ok {
        return;
      }
      rest := rest[1..];
    }
    return "", false;
  }

  // The mapping of domain in a file that may not be readable.
  function Override(file: Option<string>, domain: string): Option<string> {
    match file case None => None case Some(content) => Lookup(content, domain)
  }

  method CheckHostsOverride(file: Option<string>, domain: string) returns (ip: string, ok: bool)
    ensures (if ok then Some(ip) else None) == Override(file, domain)
  {
    if file.None? {
      return "", false;
    }
    ip, ok := ParseHostsFile(file.value, domain);
  }

  // ----- pieces of a file -----

  lemma {:induction false} FirstHitConcat(a: seq<string>, b: seq<string>, domain: string)
    ensures FirstHit(a + b, domain) == if FirstHit(a, domain).Some? then FirstHit(a, domain) else FirstHit(b, domain)
  {
    if a == [] {
      assert a + b == b;
    } else {
      FirstHitConcat(a[1..], b, domain);
      assert (a + b)[1..] == a[1..] + b;
    }
  }

  lemma FirstHitOne(line: string, domain: string)
    ensures FirstHit([line], domain) == LineHit(line, domain)
  {
    assert [line][1..] == [];
  }

  // The first piece of a file has precedence.
  lemma LookupInPieces(a: string, b: string, domain: string)
    ensures Lookup(a + (['\n'] + b), domain) ==
            if Lookup(a, domain).Some? then Lookup(a, domain) else Lookup(b, domain)
  {
    SplitAt(a, '\n', b);
    FirstHitConcat(Split(a, '\n'), Split(b, '\n'), Canonical(domain));
  }

  // ----- a file written from its entries -----

  // The address and each name stand behind white space of any kind, the
  // names behind at least one character of it; only a newline ends the line.
  datatype Line =
    | Mapping(lead: Blanks, ip: Field, names: seq<Laid>, trail: Blanks, comment: Option<string>)
    | Remark(lead: Blanks, text: string)
    | Blank(space: Blanks)

  predicate Clean(s: string) {
    '#' !in s && '\n' !in s
  }

  predicate CleanNames(names: seq<Laid>) {
    forall n :: n in names ==> n.gap != "" && Clean(n.gap) && Clean(n.word)
  }

  predicate Writable(l: Line) {
    match l
    case Mapping(lead, ip, names, trail, comment) =>
      && Clean(lead) && Clean(ip) && names != [] && CleanNames(names) && Clean(trail)
      && (comment.Some? ==> '\n' !in comment.value)
    case Remark(lead, text) => Clean(lead) && '\n' !in text
    case Blank(space) => Clean(space)
  }

  function Entry(l: Line): string
    requires l.Mapping?
  {
    l.lead + (l.ip + (Lay(l.names) + l.trail))
  }

  function Comment(comment: Option<string>): string {
    match comment case None => "" case Some(c) => ['#'] + c
  }

  function WriteLine(l: Line): string {
    match l
    case Mapping(_, _, _, _, comment) => Entry(l) + Comment(comment)
    case Remark(lead, text) => lead + Comment(Some(text))
    case Blank(space) => space + Comment(None)
  }

  function WriteFile(lines: seq<Line>): string {
    if lines == [] then ""
    else WriteLine(lines[0]) + (['\n'] + WriteFile(lines[1..]))
  }

  // The name of an entry is the domain, up to case and one trailing dot.
  predicate Means(l: Line, domain: string) {
    l.Mapping? && exists n :: n in l.names && Canonical(n.word) == Canonical(domain)
  }

  function FirstMeaning(lines: seq<Line>, domain: string): Option<string> {
    if lines == [] then None
    else if Means(lines[0], domain) then Some(lines[0].ip)
    else FirstMeaning(lines[1..], domain)
  }

  lemma TrimNothing(w: string)
    requires NoSpace(w)
    ensures TrimSpace(w) == w
  {
  }

  lemma LowerTrimSuffix(s: string)
    ensures ToLower(TrimSuffix(s, ".")) == TrimSuffix(ToLower(s), ".")
  {
    if s != "" {
      assert HasSuffix(s, ".") <==> s[|s| - 1] == '.';
      assert HasSuffix(ToLower(s), ".") <==> ToLower(s)[|s| - 1] == '.';
      assert s[|s| - 1] == '.' <==> LowerChar(s[|s| - 1]) == '.';
    }
  }

  lemma NamesIsCanonical(name: string, domain: string)
    requires NoSpace(name)
    ensures Names(name, Canonical(domain)) <==> Canonical(name) == Canonical(domain)
  {
    TrimNothing(name);
    LowerTrimSuffix(name);
    LowerTrimSuffix(TrimSpace(domain));
    LowerIdempotent(TrimSuffix(TrimSpace(domain), "."));
  }

  lemma {:induction false} CleanLay(names: seq<Laid>)
    requires CleanNames(names)
    ensures Clean(Lay(names))
  {
    if names != [] {
      assert names[0] in names && forall n :: n in names[1..] ==> n in names;
      CleanLay(names[1..]);
    }
  }

  lemma CommentCut(core: string, comment: Option<string>)
    requires Clean(core)
    ensures Before(core + Comment(comment), '#') == core
  {
    BeforeIsPrefix(core, '#');
    match comment
    case None => assert core + "" == core;
    case Some(c) =>
      BeforeCuts(core, '#', c);
      assert core + (['#'] + c) == core + ['#'] + c;
  }

  lemma CleanEntry(l: Line)
    requires Writable(l) && l.Mapping?
    ensures Clean(Entry(l))
  {
    CleanLay(l.names);
  }

  lemma MappingFields(l: Line)
    requires Writable(l) && l.Mapping?
    ensures LineFields(WriteLine(l)) == [l.ip] + WordsOf(l.names)
  {
    CleanEntry(l);
    CommentCut(Entry(l), l.comment);
    FieldsSkipBlanks(l.lead, l.ip + (Lay(l.names) + l.trail));
    FieldsOfLaid(l.names, l.trail);
    GapInFront(l.names, l.trail);
    FirstField(l.ip, Lay(l.names) + l.trail);
  }

  lemma NamedInMeans(l: Line, domain: string)
    requires l.Mapping?
    ensures NamedIn([l.ip] + WordsOf(l.names), Canonical(domain)) <==> Means(l, domain)
  {
    var fields := [l.ip] + WordsOf(l.names);
    forall i | 1 <= i < |fields|
      ensures Names(fields[i], Canonical(domain)) <==> Canonical(l.names[i - 1].word) == Canonical(domain)
    {
      assert fields[i] == l.names[i - 1].word;
      NamesIsCanonical(fields[i], domain);
    }
    if Means(l, domain) {
      var n :| n in l.names && Canonical(n.word) == Canonical(domain);
      var i :| 0 <= i < |l.names| && l.names[i] == n;
      assert Names(fields[i + 1], Canonical(domain));
    }
  }

  lemma MappingHit(l: Line, domain: string)
    requires Writable(l) && l.Mapping?
    ensures LineHit(WriteLine(l), Canonical(domain)) == if Means(l, domain) then Some(l.ip) else None
  {
    MappingFields(l);
    NamedInMeans(l, domain);
    assert |[l.ip] + WordsOf(l.names)| >= 2;
  }

  lemma WrittenLineHit(l: Line, domain: string)
    requires Writable(l)
    ensures LineHit(WriteLine(l), Canonical(domain)) == if Means(l, domain) then Some(l.ip) else None
  {
    match l
    case Mapping(_, _, _, _, _) => MappingHit(l, domain);
    case Remark(lead, text) =>
      CommentCut(lead, Some(text));
      FieldsSkipBlanks(lead, "");
      assert lead + "" == lead;
    case Blank(space) =>
      CommentCut(space, None);
      FieldsSkipBlanks(space, "");
      assert space + "" == space;
  }

  lemma LineHasNoNewline(l: Line)
    requires Writable(l)
    ensures '\n' !in WriteLine(l)
  {
    if l.Mapping? {
      CleanEntry(l);
    }
  }

  // Names are told apart up to letter case, white space around and one dot
  // at the end.
  lemma CanonicalIs(s: string, name: string)
    requires name != "" && Edgeless(name) && name[|name| - 1] != '.'
    ensures Canonical(s) == name <==> Dressed(s, name)
  {
    UndressedIs(s, name);
  }

  // Reading back a file written from any lines finds the address of the
  // first entry for the domain, and only that.
  lemma {:induction false} ReadsWhatIsWritten(lines: seq<Line>, domain: string)
    requires forall l :: l in lines ==> Writable(l)
    ensures Lookup(WriteFile(lines), domain) == if Canonical(domain) == "" then None else FirstMeaning(lines, domain)
  {
    if lines == [] {
      SplitWhole("", '\n');
      FirstHitOne("", Canonical(domain));
      WrittenLineHit(Blank(""), domain);
    } else {
      var first, rest := WriteLine(lines[0]), WriteFile(lines[1..]);
      LookupInPieces(first, rest, domain);
      LineHasNoNewline(lines[0]);
      SplitWhole(first, '\n');
      WrittenLineHit(lines[0], domain);
      FirstHitOne(first, Canonical(domain));
      ReadsWhatIsWritten(lines[1..], domain);
    }
  }
}
