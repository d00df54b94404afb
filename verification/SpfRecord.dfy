// internal/dns/spf.go: the grammar of a v=spf1 record, its parser and a
// printer that the parser undoes.
module SpfRecord {
  import opened Text

  datatype Kind = All | Ip4 | Ip6 | A | Mx | Include | Redirect | Exists | Unknown

  datatype Mechanism = Mechanism(qualifier: char, kind: Kind, value: string)

  // What one word of a record turns into: the whole record is refused, the
  // word is an irrelevant modifier, or it is a term.
  datatype Word = Refused | Ignored | Term(mechanism: Mechanism)

  const TAG := "v=spf1"

  predicate IsQualifier(c: char) {
    c == '+' || c == '-' || c == '~' || c == '?'
  }

  // How a body begins: a keyword of the given length that names a kind, with
  // a value behind it or an address value, or a modifier of no interest.
  datatype Head = Named(kind: Kind, length: nat) | Addressed(kind: Kind, length: nat) | Bare(kind: Kind) | Modifier

  function HeadOf(f: string): (h: Head)
    ensures h.Named? || h.Addressed? ==> h.length <= |f|
    ensures h.Bare? ==> h.kind != Include && h.kind != Redirect
    ensures h.Named? || h.Addressed? ==> h.kind != All
    ensures h.Addressed? ==> h.kind == A || h.kind == Mx
  {
    if f == "all" then Bare(All)
    else if "ip4:" <= f then Named(Ip4, 4)
    else if "ip6:" <= f then Named(Ip6, 4)
    else if f == "a" || "a:" <= f || "a/" <= f then Addressed(A, 1)
    else if f == "mx" || "mx:" <= f || "mx/" <= f then Addressed(Mx, 2)
    else if "include:" <= f then Named(Include, 8)
    else if "redirect=" <= f then Named(Redirect, 9)
    else if Contains(f, "=") then Modifier
    else if "exists:" <= f then Bare(Exists)
    else Bare(Unknown)
  }

  function AddressValue(body: string): string {
    TrimPrefix(TrimPrefix(body, ":"), "/")
  }

  // An include or redirect without a domain refuses the record.
  function Build(h: Head, q: char, f: string): Word
    requires h.Named? || h.Addressed? ==> h.length <= |f|
  {
    match h
    case Named(kind, n) =>
      if (kind == Include || kind == Redirect) && f[n..] == "" then Refused
      else Term(Mechanism(q, kind, f[n..]))
    case Addressed(kind, n) => Term(Mechanism(q, kind, AddressValue(f[n..])))
    case Bare(kind) => Term(Mechanism(q, kind, ""))
    case Modifier => Ignored
  }

  function ParseBody(q: char, f: string): Word {
    if f == "" then Refused else Build(HeadOf(f), q, f)
  }

  function ParseWord(f: Field): Word {
    if Contains(f, "%{") then Refused
    else if IsQualifier(f[0]) then ParseBody(f[0], f[1..])
    else ParseBody('+', f)
  }

  // The terms among the words in order, unless one word is refused.
  function Terms(words: seq<Word>): Option<seq<Mechanism>> {
    if words == [] then Some([])
    else
      var last := |words| - 1;
      match (Terms(words[..last]), words[last])
      case (Some(ms), Term(m)) => Some(ms + [m])
      case (Some(ms), Ignored) => Some(ms)
      case _ => None
  }

  function ParseWords(fields: seq<Field>): (words: seq<Word>)
    ensures |words| == |fields|
    ensures forall i :: 0 <= i < |fields| ==> words[i] == ParseWord(fields[i])
  {
    seq(|fields|, i requires 0 <= i < |fields| => ParseWord(fields[i]))
  }

  function ParseRecord(txt: string): Option<seq<Mechanism>> {
    var fields := Fields(txt);
    if fields == [] || !EqualFold(fields[0], TAG) then None else Terms(ParseWords(fields[1..]))
  }

  // parseSPFRecord itself: the loop stops at the first refused word.
  method ParseSPFRecord(txt: string) returns (mechs: seq<Mechanism>, ok: bool)
    ensures (if ok then Some(mechs) else None) == ParseRecord(txt)
  {
    var fields := Fields(txt);
    if |fields| == 0 || !EqualFold(fields[0], TAG) {
      return [], false;
    }
    mechs := [];
    var rest := fields[1..];
    ghost var words := ParseWords(rest);
    for i := 0 to |rest|
      invariant Terms(words[..i]) == Some(mechs)
    {
      assert words[..i + 1][..i] == words[..i];
      match ParseWord(rest[i]) {
        case Refused =>
          RefusedRefusesAll(words, i);
          return [], false;
        case Ignored =>
        case Term(m) => mechs := mechs + [m];
      }
    }
    assert words[..|rest|] == words;
    ok := true;
  }

  lemma {:induction false} RefusedRefusesAll(words: seq<Word>, i: nat)
    requires i < |words| && words[i] == Refused
    ensures Terms(words) == None
  {
    var last := |words| - 1;
    if i < last {
      RefusedRefusesAll(words[..last], i);
    }
  }

  // ----- the printer -----

  // What stands before the value. An address value that begins with '/' is
  // introduced by '/', since the parser drops one such character.
  function Keyword(m: Mechanism): string {
    match m.kind
    case All => "all"
    case Ip4 => "ip4:"
    case Ip6 => "ip6:"
    case A => if m.value == "" then "a" else if m.value[0] == '/' then "a/" else "a:"
    case Mx => if m.value == "" then "mx" else if m.value[0] == '/' then "mx/" else "mx:"
    case Include => "include:"
    case Redirect => "redirect="
    case Exists => "exists:"
    case Unknown => "unknown"
  }

  function PrintBody(m: Mechanism): string {
    Keyword(m) + m.value
  }

  function PrintTerm(m: Mechanism): string {
    (if m.qualifier == '+' then "" else [m.qualifier]) + PrintBody(m)
  }

  function PrintRecord(ms: seq<Mechanism>): string {
    TAG + Spaced(seq(|ms|, i requires 0 <= i < |ms| => PrintTerm(ms[i])))
  }

  // A term of one of the seven kinds the evaluator looks at.
  predicate Evaluated(m: Mechanism) {
    m.kind != Exists && m.kind != Unknown
  }

  predicate Printable(m: Mechanism) {
    && IsQualifier(m.qualifier)
    && NoSpace(m.value) && !Contains(m.value, "%{")
    && (m.kind == All ==> m.value == "")
    && (m.kind == Include || m.kind == Redirect ==> m.value != "")
  }

  // A prefix without '%' brings no macro into a word.
  lemma NoMacro(prefix: string, value: string)
    requires '%' !in prefix && !Contains(value, "%{")
    ensures !Contains(prefix + value, "%{")
  {
    var s := prefix + value;
    forall i | 0 <= i <= |s|
      ensures !("%{" <= s[i..])
    {
      if i < |prefix| {
        assert s[i..][0] == prefix[i];
      } else {
        assert s[i..] == value[i - |prefix|..];
      }
    }
  }

  lemma AddressRoundTrip(c: char, v: string)
    requires c == (if v != "" && v[0] == '/' then '/' else ':')
    ensures AddressValue([c] + v) == v
  {
    assert ([c] + v)[1..] == v;
    if c == ':' {
      assert TrimPrefix([c] + v, ":") == v;
    } else {
      assert TrimPrefix([c] + v, "/") == v;
    }
  }

  lemma AddressHead(m: Mechanism)
    requires m.kind == A || m.kind == Mx
    ensures HeadOf(PrintBody(m)) == Addressed(m.kind, if m.kind == A then 1 else 2)
  {
    var name, f := Keyword(m), PrintBody(m);
    assert name <= f && f[0] == name[0];
    if m.value == "" {
      assert f == name;
    } else {
      assert |name| > 1 && f[1] == name[1];
    }
  }

  lemma PlainHead(m: Mechanism)
    requires m.kind == All ==> m.value == ""
    requires Evaluated(m) && m.kind != A && m.kind != Mx
    ensures HeadOf(PrintBody(m)) == if m.kind == All then Bare(All) else Named(m.kind, |Keyword(m)|)
  {
    var name, f := Keyword(m), PrintBody(m);
    assert name <= f;
    assert f[0] == name[0] && f[1] == name[1] && f[2] == name[2];
  }

  lemma LastKept<T>(name: seq<T>, v: seq<T>)
    requires name != []
    ensures (name + v)[|name| - 1..] == [name[|name| - 1]] + v
  {
  }

  lemma BodyRoundTrip(m: Mechanism)
    requires Printable(m) && Evaluated(m)
    ensures ParseBody(m.qualifier, PrintBody(m)) == Term(m)
  {
    var name, v, f := Keyword(m), m.value, PrintBody(m);
    assert f[|name|..] == v;
    if m.kind == A || m.kind == Mx {
      AddressHead(m);
      var n := if m.kind == A then 1 else 2;
      if v != "" {
        LastKept(name, v);
        AddressRoundTrip(name[n], v);
      }
    } else {
      PlainHead(m);
    }
  }

  lemma BodyIsClean(m: Mechanism)
    requires Printable(m) && Evaluated(m)
    ensures !Contains(PrintBody(m), "%{") && NoSpace(PrintBody(m))
    ensures PrintBody(m) != "" && !IsQualifier(PrintBody(m)[0])
  {
    NoMacro(Keyword(m), m.value);
  }

  lemma TermRoundTrip(m: Mechanism)
    requires Printable(m) && Evaluated(m)
    ensures PrintTerm(m) != "" && NoSpace(PrintTerm(m))
    ensures ParseWord(PrintTerm(m)) == Term(m)
  {
    BodyRoundTrip(m);
    BodyIsClean(m);
    if m.qualifier != '+' {
      NoMacro([m.qualifier], PrintBody(m));
      assert PrintTerm(m)[1..] == PrintBody(m);
    } else {
      assert PrintTerm(m) == PrintBody(m);
    }
  }

  lemma {:induction false} TermsOfTerms(words: seq<Word>, ms: seq<Mechanism>)
    requires |words| == |ms|
    requires forall i :: 0 <= i < |ms| ==> words[i] == Term(ms[i])
    ensures Terms(words) == Some(ms)
  {
    if ms != [] {
      var last := |ms| - 1;
      TermsOfTerms(words[..last], ms[..last]);
      assert ms == ms[..last] + [ms[last]];
    }
  }

  lemma ReadsTagged(txt: string, fields: seq<Field>)
    requires txt == TAG + Spaced(fields)
    ensures ParseRecord(txt) == Terms(ParseWords(fields))
  {
    FieldsOfSpaced(fields);
    FirstField(TAG, Spaced(fields));
  }

  // The parser undoes the printer.
  lemma RecordRoundTrip(ms: seq<Mechanism>)
    requires forall m :: m in ms ==> Printable(m) && Evaluated(m)
    ensures ParseRecord(PrintRecord(ms)) == Some(ms)
  {
    forall m | m in ms
      ensures PrintTerm(m) != "" && NoSpace(PrintTerm(m)) && ParseWord(PrintTerm(m)) == Term(m)
    {
      TermRoundTrip(m);
    }
    var fields: seq<Field> := seq(|ms|, i requires 0 <= i < |ms| => PrintTerm(ms[i]));
    assert seq(|ms|, i requires 0 <= i < |ms| => PrintTerm(ms[i])) == fields;
    ReadsTagged(PrintRecord(ms), fields);
    TermsOfTerms(ParseWords(fields), ms);
  }

  // A printed record begins with the tag, however it is trimmed and cased.
  lemma PrintedIsTagged(ms: seq<Mechanism>)
    ensures TAG <= ToLower(TrimSpace(PrintRecord(ms)))
  {
    assert ToLower(TAG) == TAG;
    TrimSpaceKeeps(TAG, Spaced(seq(|ms|, i requires 0 <= i < |ms| => PrintTerm(ms[i]))));
  }

  lemma AddressValueIsTail(f: string, k: nat)
    requires k <= |f|
    ensures IsTail(AddressValue(f[k..]), f)
  {
    var v := TrimPrefix(f[k..], ":");
    assert IsTail(v, f);
    TailOfTail(TrimPrefix(v, "/"), v, f);
  }

  lemma BuiltValueIsTail(h: Head, q: char, f: string)
    requires h.Named? || h.Addressed? ==> h.length <= |f|
    requires Build(h, q, f).Term?
    ensures var v := Build(h, q, f).mechanism.value; v == "" || IsTail(v, f)
  {
    if h.Addressed? {
      AddressValueIsTail(f, h.length);
    }
  }

  // A value is a tail of its word, so it inherits the word's freedom from
  // white space and macros.
  lemma ValueIsClean(v: string, body: string, f: Field)
    requires v == "" || IsTail(v, body)
    requires IsTail(body, f) && !Contains(f, "%{")
    ensures NoSpace(v) && !Contains(v, "%{")
  {
    if v == "" {
      assert !("%{" <= ""[0..]);
    } else {
      TailOfTail(v, body, f);
      TailIsClean(v, f, "%{");
    }
  }

  lemma WordIsPrintable(f: Field)
    requires ParseWord(f).Term?
    ensures Printable(ParseWord(f).mechanism)
  {
    var q, body := if IsQualifier(f[0]) then f[0] else '+', if IsQualifier(f[0]) then f[1..] else f;
    BuiltValueIsTail(HeadOf(body), q, body);
    ValueIsClean(ParseBody(q, body).mechanism.value, body, f);
  }

  lemma {:induction false} TermsComeFromWords(words: seq<Word>, m: Mechanism)
    requires Terms(words).Some? && m in Terms(words).value
    ensures Term(m) in words
  {
    var last := |words| - 1;
    if words[last] != Term(m) {
      TermsComeFromWords(words[..last], m);
    }
  }

  // The printer's condition is exact: a list of evaluated terms comes out of
  // the parser for some record precisely when every term is printable.
  lemma ParserImage(ms: seq<Mechanism>)
    requires forall m :: m in ms ==> Evaluated(m)
    ensures (exists txt :: ParseRecord(txt) == Some(ms)) <==> forall m :: m in ms ==> Printable(m)
  {
    if txt :| ParseRecord(txt) == Some(ms) {
      var fields := Fields(txt)[1..];
      forall m | m in ms
        ensures Printable(m)
      {
        TermsComeFromWords(ParseWords(fields), m);
        var i :| 0 <= i < |fields| && ParseWords(fields)[i] == Term(m);
        WordIsPrintable(fields[i]);
      }
    }
    if forall m :: m in ms ==> Printable(m) {
      RecordRoundTrip(ms);
    }
  }

  // ----- which words become which terms -----

  function Name(kind: Kind): string {
    match kind
    case All => "all"
    case Ip4 => "ip4:"
    case Ip6 => "ip6:"
    case A => "a"
    case Mx => "mx"
    case Include => "include:"
    case Redirect => "redirect="
    case _ => ""
  }

  // What may stand between a and mx and their value.
  predicate Separates(sep: string, value: string) {
    || (sep == "" && value == "")
    || (sep == ":" && (value == "" || value[0] != '/'))
    || sep == "/" || sep == ":/"
  }

  predicate BodyBy(body: string, m: Mechanism, sep: string) {
    && body == Name(m.kind) + (sep + m.value)
    && (if m.kind == A || m.kind == Mx then Separates(sep, m.value) else sep == "")
    && (m.kind == All ==> m.value == "")
    && (m.kind == Include || m.kind == Redirect ==> m.value != "")
  }

  ghost predicate BodySpells(body: string, m: Mechanism) {
    exists sep :: BodyBy(body, m, sep)
  }

  // A word spells a term: its qualifier, which '+' may leave out, its name,
  // and its value.
  ghost predicate Spells(f: string, m: Mechanism) {
    && m.qualifier in {'+', '-', '~', '?'}
    && ((|f| > 0 && f[0] == m.qualifier && BodySpells(f[1..], m)) || (m.qualifier == '+' && BodySpells(f, m)))
  }

  lemma AddressValueIs(x: string, v: string)
    requires x == "" || x[0] == ':' || x[0] == '/'
    ensures AddressValue(x) == v <==> exists sep :: x == sep + v && Separates(sep, v)
  {
    var y := TrimPrefix(x, ":");
    var z := TrimPrefix(y, "/");
    var sep := (if y == x then "" else ":") + (if z == y then "" else "/");
    assert x == sep + z;
    assert Separates(sep, z);
    forall sep' | x == sep' + v && Separates(sep', v)
      ensures z == v
    {
      SeparatorDropped(sep', v);
    }
  }

  lemma SeparatorDropped(sep: string, v: string)
    requires Separates(sep, v)
    ensures AddressValue(sep + v) == v
  {
    if sep == ":/" {
      assert (sep + v)[1..] == "/" + v && ("/" + v)[1..] == v;
    } else if sep != "" {
      assert (sep + v)[0] == sep[0] && (sep + v)[1..] == v;
      assert sep == "/" ==> TrimPrefix(sep + v, ":") == sep + v;
      assert sep == ":" ==> !("/" <= v);
    } else {
      assert sep + v == "";
    }
  }

  lemma PlainHeads(body: string)
    ensures HeadOf(body) == Bare(All) <==> body == "all"
    ensures HeadOf(body) == Named(Ip4, 4) <==> "ip4:" <= body
    ensures HeadOf(body) == Named(Ip6, 4) <==> "ip6:" <= body
    ensures HeadOf(body) == Named(Include, 8) <==> "include:" <= body
    ensures HeadOf(body) == Named(Redirect, 9) <==> "redirect=" <= body
  {
    if "ip4:" <= body || "ip6:" <= body {
      assert body[0] == 'i' && body[1] == 'p';
      assert "ip4:" <= body ==> body[2] == '4';
      assert "ip6:" <= body ==> body[2] == '6';
    }
    if "include:" <= body {
      assert body[0] == 'i' && body[1] == 'n';
    }
    if "redirect=" <= body {
      assert body[0] == 'r';
    }
  }

  lemma AddressHeads(body: string)
    ensures HeadOf(body) == Addressed(A, 1)
            <==> |body| >= 1 && body[0] == 'a' && (|body| == 1 || body[1] == ':' || body[1] == '/')
    ensures HeadOf(body) == Addressed(Mx, 2)
            <==> |body| >= 2 && body[0] == 'm' && body[1] == 'x' && (|body| == 2 || body[2] == ':' || body[2] == '/')
  {
  }

  lemma HeadsAreThese(body: string)
    ensures var h := HeadOf(body);
            || h == Bare(All) || h == Named(Ip4, 4) || h == Named(Ip6, 4) || h == Named(Include, 8)
            || h == Named(Redirect, 9) || h == Addressed(A, 1) || h == Addressed(Mx, 2)
            || h == Modifier || h == Bare(Exists) || h == Bare(Unknown)
  {
  }

  predicate OfKind(h: Head, kind: Kind) {
    !h.Modifier? && h.kind == kind
  }

  // The same for each group of kinds.
  lemma NamedBody(q: char, body: string, m: Mechanism, name: string)
    requires name == Name(m.kind) && m.kind != All && m.kind != A && m.kind != Mx
    requires OfKind(HeadOf(body), m.kind) <==> name <= body
    requires OfKind(HeadOf(body), m.kind) ==> HeadOf(body) == Named(m.kind, |name|)
    requires name != ""
    ensures ParseBody(q, body) == Term(m) <==> m.qualifier == q && BodySpells(body, m)
  {
    if BodySpells(body, m) {
      assert body == name + m.value && body[|name|..] == m.value;
    }
    if ParseBody(q, body) == Term(m) {
      assert body == name + body[|name|..];
      assert BodyBy(body, m, "");
    }
  }

  lemma PlainBody(q: char, body: string, m: Mechanism)
    requires m.kind == Ip4 || m.kind == Ip6 || m.kind == Include || m.kind == Redirect
    ensures ParseBody(q, body) == Term(m) <==> m.qualifier == q && BodySpells(body, m)
  {
    PlainHeads(body);
    HeadsAreThese(body);
    NamedBody(q, body, m, Name(m.kind));
  }

  lemma AllBody(q: char, body: string, m: Mechanism)
    requires m.kind == All
    ensures ParseBody(q, body) == Term(m) <==> m.qualifier == q && BodySpells(body, m)
  {
    PlainHeads(body);
    HeadsAreThese(body);
    if ParseBody(q, body) == Term(m) {
      assert BodyBy(body, m, "");
    }
  }

  predicate Addressing(body: string, name: string) {
    name <= body && (body[|name|..] == "" || body[|name|] == ':' || body[|name|] == '/')
  }

  lemma AddressSpells(body: string, m: Mechanism, name: string)
    requires (m.kind == A || m.kind == Mx) && name == Name(m.kind)
    ensures BodySpells(body, m) <==> Addressing(body, name) && AddressValue(body[|name|..]) == m.value
  {
    if Addressing(body, name) {
      AddressValueIs(body[|name|..], m.value);
      forall sep
        ensures BodyBy(body, m, sep) <==> body[|name|..] == sep + m.value && Separates(sep, m.value)
      {
        assert body == name + (sep + m.value) <==> body[|name|..] == sep + m.value;
      }
    } else {
      forall sep
        ensures !BodyBy(body, m, sep)
      {
        if BodyBy(body, m, sep) {
          BodyShape(body, m, sep);
        }
      }
    }
  }

  lemma AddressBody(q: char, body: string, m: Mechanism)
    requires m.kind == A || m.kind == Mx
    ensures ParseBody(q, body) == Term(m) <==> m.qualifier == q && BodySpells(body, m)
  {
    AddressHeads(body);
    HeadsAreThese(body);
    AddressSpells(body, m, Name(m.kind));
  }

  lemma BodyShape(body: string, m: Mechanism, sep: string)
    requires (m.kind == A || m.kind == Mx) && BodyBy(body, m, sep)
    ensures Addressing(body, Name(m.kind))
  {
    var name := Name(m.kind);
    assert body[|name|..] == sep + m.value;
    if sep != "" {
      assert body[|name|] == sep[0];
    }
  }

  lemma BodyIs(q: char, body: string, m: Mechanism)
    requires Evaluated(m)
    ensures ParseBody(q, body) == Term(m) <==> m.qualifier == q && BodySpells(body, m)
  {
    if m.kind == All {
      AllBody(q, body, m);
    } else if m.kind == A || m.kind == Mx {
      AddressBody(q, body, m);
    } else {
      PlainBody(q, body, m);
    }
  }

  lemma NoBodyBeginsQualified(body: string, m: Mechanism)
    requires Evaluated(m) && BodySpells(body, m)
    ensures body != "" && body[0] !in {'+', '-', '~', '?'}
  {
    assert body[0] == Name(m.kind)[0];
  }

  // A word becomes a term that is evaluated if and only if it spells it and
  // holds no macro.
  lemma WordIs(f: Field, m: Mechanism)
    requires Evaluated(m)
    ensures ParseWord(f) == Term(m) <==> !Contains(f, "%{") && Spells(f, m)
  {
    BodyIs(f[0], f[1..], m);
    BodyIs('+', f, m);
    if BodySpells(f, m) {
      NoBodyBeginsQualified(f, m);
    }
  }

  function BodyOf(f: Field): string {
    if f[0] in {'+', '-', '~', '?'} then f[1..] else f
  }

  // A word refuses the whole record if and only if it holds a macro, has
  // nothing but a qualifier, or includes or redirects to no name.
  predicate Refuses(f: Field) {
    Contains(f, "%{") || BodyOf(f) == "" || BodyOf(f) == "include:" || BodyOf(f) == "redirect="
  }

  lemma RefusedBody(q: char, body: string)
    ensures ParseBody(q, body) == Refused <==> body == "" || body == "include:" || body == "redirect="
  {
    PlainHeads(body);
    HeadsAreThese(body);
    if "include:" <= body {
      assert body == "include:" + body[8..];
    }
    if "redirect=" <= body {
      assert body == "redirect=" + body[9..];
    }
  }

  lemma RefusedIs(f: Field)
    ensures ParseWord(f) == Refused <==> Refuses(f)
  {
    RefusedBody(f[0], f[1..]);
    RefusedBody('+', f);
  }

  // Of the other words those with '=' are dropped, and the rest become terms
  // that the evaluation passes over.
  lemma OtherWord(f: Field)
    requires !Refuses(f) && forall m :: Evaluated(m) ==> !Spells(f, m)
    ensures ParseWord(f) ==
            if '=' in BodyOf(f) then Ignored
            else Term(Mechanism(if f[0] in {'+', '-', '~', '?'} then f[0] else '+',
                                if "exists:" <= BodyOf(f) then Exists else Unknown, ""))
  {
    RefusedIs(f);
    ContainsIs(BodyOf(f), "=");
    CharInside(BodyOf(f), '=');
    OtherBody(if IsQualifier(f[0]) then f[0] else '+', BodyOf(f));
    if ParseWord(f).Term? && Evaluated(ParseWord(f).mechanism) {
      WordIs(f, ParseWord(f).mechanism);
    }
  }

  lemma OtherBody(q: char, body: string)
    ensures var w := ParseBody(q, body);
            w != Refused && (w.Term? ==> !Evaluated(w.mechanism)) ==>
              w == if Contains(body, "=") then Ignored
                   else Term(Mechanism(q, if "exists:" <= body then Exists else Unknown, ""))
  {
    HeadsAreThese(body);
  }

  lemma {:induction false} TermsRefused(words: seq<Word>)
    ensures Terms(words) == None <==> Refused in words
  {
    if words != [] {
      var last := |words| - 1;
      TermsRefused(words[..last]);
      assert words == words[..last] + [words[last]];
    }
  }

  // A text is no record if and only if its first word is not the tag, in
  // whatever case, or another word refuses it.
  lemma RecordRefused(txt: string)
    ensures var fields := Fields(txt);
            ParseRecord(txt) == None <==>
            fields == [] || ToLower(fields[0]) != "v=spf1" || exists i :: 1 <= i < |fields| && Refuses(fields[i])
  {
    var fields := Fields(txt);
    if fields != [] {
      var rest := fields[1..];
      TermsRefused(ParseWords(rest));
      assert ToLower(TAG) == TAG;
      forall i | 1 <= i < |fields|
        ensures rest[i - 1] == fields[i] && (ParseWords(rest)[i - 1] == Refused <==> Refuses(fields[i]))
      {
        RefusedIs(fields[i]);
      }
    }
  }
}
