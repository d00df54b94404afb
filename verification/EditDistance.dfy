// internal/score/score.go: edit distance by two rows, and what it measures.
module EditDistance {

  function Min3(a: int, b: int, c: int): (m: int)
    ensures m <= a && m <= b && m <= c
    ensures m == a || m == b || m == c
  {
    if a < b then (if a < c then a else c) else if b < c then b else c
  }

  // One cell of the table, read from its three neighbours.
  function Distance(a: string, b: string): (d: nat) {
    if a == "" then |b|
    else if b == "" then |a|
    else
      var a', b' := a[..|a| - 1], b[..|b| - 1];
      var cost := if a[|a| - 1] == b[|b| - 1] then 0 else 1;
      Min3(Distance(a', b) + 1, Distance(a, b') + 1, Distance(a', b') + cost)
  }

  // Entry j of the row for a.
  function Cell(a: string, b: string, j: nat): nat
    requires j <= |b|
  {
    Distance(a, b[..j])
  }

  lemma CellFromNeighbours(a: string, b: string, i: nat, j: nat)
    requires 1 <= i <= |a| && 1 <= j <= |b|
    ensures Cell(a[..i], b, j) ==
            Min3(Cell(a[..i - 1], b, j) + 1, Cell(a[..i], b, j - 1) + 1,
                 Cell(a[..i - 1], b, j - 1) + if a[i - 1] == b[j - 1] then 0 else 1)
  {
    assert a[..i][..i - 1] == a[..i - 1] && b[..j][..j - 1] == b[..j - 1];
  }

  method Levenshtein(a: string, b: string) returns (d: nat)
    ensures d == Distance(a, b)
  {
    var prev := new int[|b| + 1](j => j);
    for i := 1 to |a| + 1
      invariant fresh(prev) && prev.Length == |b| + 1
      invariant forall j :: 0 <= j <= |b| ==> prev[j] == Cell(a[..i - 1], b, j)
    {
      ghost var above, here := a[..i - 1], a[..i];
      var cur := new int[|b| + 1];
      cur[0] := i;
      for j := 1 to |b| + 1
        invariant forall k :: 0 <= k <= |b| ==> prev[k] == Cell(above, b, k)
        invariant forall k :: 0 <= k < j ==> cur[k] == Cell(here, b, k)
      {
        var cost := 1;
        if a[i - 1] == b[j - 1] {
          cost := 0;
        }
        CellFromNeighbours(a, b, i, j);
        cur[j] := Min3(prev[j] + 1, cur[j - 1] + 1, prev[j - 1] + cost);
      }
      prev := cur;
    }
    assert a[..|a|] == a && b[..|b|] == b;
    d := prev[|b|];
  }

  // ----- the distance is the length of a shortest edit -----

  // t comes from s by one insertion, deletion or substitution: x in s becomes
  // y, between a common prefix and a common suffix.
  ghost predicate OneEdit(s: string, t: string) {
    exists p, x, y, q :: EditAt(s, t, p, x, y, q)
  }

  ghost predicate EditAt(s: string, t: string, p: string, x: string, y: string, q: string) {
    |x| <= 1 && |y| <= 1 && |x| + |y| >= 1 && s == p + x + q && t == p + y + q
  }

  // A sequence of strings, each one edit from the one before.
  ghost predicate Edits(path: seq<string>) {
    path != [] && forall i :: 0 < i < |path| ==> OneEdit(path[i - 1], path[i])
  }

  ghost predicate EditsBetween(a: string, b: string, path: seq<string>) {
    Edits(path) && path[0] == a && path[|path| - 1] == b
  }

  lemma {:induction false} DropLast(a: string, c: string)
    requires a != ""
    ensures Distance(a[..|a| - 1], c) - 1 <= Distance(a, c) <= Distance(a[..|a| - 1], c) + 1
    decreases |c|
  {
    if c != "" {
      DropLast(a, c[..|c| - 1]);
    }
  }

  lemma {:induction false} LastReplaced(s: string, t: string, c: string)
    requires s != "" && t != "" && s[..|s| - 1] == t[..|t| - 1]
    ensures Distance(s, c) <= Distance(t, c) + 1
    decreases |c|
  {
    if c != "" {
      LastReplaced(s, t, c[..|c| - 1]);
    }
  }

  lemma EditAtEnd(s: string, t: string, p: string, x: string, y: string, c: string)
    requires EditAt(s, t, p, x, y, "")
    ensures Distance(s, c) <= Distance(t, c) + 1
  {
    assert s == p + x && t == p + y;
    if x == "" {
      assert s == t[..|t| - 1];
      DropLast(t, c);
    } else if y == "" {
      assert t == s[..|s| - 1];
      DropLast(s, c);
    } else {
      LastReplaced(s, t, c);
    }
  }

  lemma SameLast(s: string, t: string, c: string)
    requires s != "" && t != "" && c != "" && s[|s| - 1] == t[|t| - 1]
    requires Distance(s[..|s| - 1], c) <= Distance(t[..|t| - 1], c) + 1
    requires Distance(s, c[..|c| - 1]) <= Distance(t, c[..|c| - 1]) + 1
    requires Distance(s[..|s| - 1], c[..|c| - 1]) <= Distance(t[..|t| - 1], c[..|c| - 1]) + 1
    ensures Distance(s, c) <= Distance(t, c) + 1
  {
  }

  // An edit anywhere moves every distance by at most one.
  lemma {:induction false} EditMovesByOne(s: string, t: string, p: string, x: string, y: string, q: string, c: string)
    requires EditAt(s, t, p, x, y, q)
    ensures Distance(s, c) <= Distance(t, c) + 1
    decreases |q| + |c|
  {
    if q == "" {
      EditAtEnd(s, t, p, x, y, c);
    } else if c != "" {
      var q', c' := q[..|q| - 1], c[..|c| - 1];
      var s', t' := s[..|s| - 1], t[..|t| - 1];
      assert s' == p + x + q' && t' == p + y + q';
      EditMovesByOne(s', t', p, x, y, q', c);
      EditMovesByOne(s, t, p, x, y, q, c');
      EditMovesByOne(s', t', p, x, y, q', c');
      SameLast(s, t, c);
    }
  }

  lemma {:induction false} DistanceToSelf(a: string)
    ensures Distance(a, a) == 0
  {
    if a != "" {
      DistanceToSelf(a[..|a| - 1]);
    }
  }

  // No sequence of edits is shorter than the distance...
  lemma {:induction false} NoShorterEdit(path: seq<string>, c: string)
    requires Edits(path)
    ensures Distance(path[0], c) <= Distance(path[|path| - 1], c) + |path| - 1
  {
    if |path| > 1 {
      assert OneEdit(path[0], path[1]);
      var p, x, y, q :| EditAt(path[0], path[1], p, x, y, q);
      EditMovesByOne(path[0], path[1], p, x, y, q, c);
      assert Edits(path[1..]) by {
        forall i | 0 < i < |path[1..]|
          ensures OneEdit(path[1..][i - 1], path[1..][i])
        {
          assert OneEdit(path[i], path[i + 1]);
        }
      }
      NoShorterEdit(path[1..], c);
    }
  }

  lemma AppendEdit(path: seq<string>, t: string)
    requires Edits(path) && OneEdit(path[|path| - 1], t)
    ensures Edits(path + [t])
  {
    var longer := path + [t];
    forall i | 0 < i < |longer|
      ensures OneEdit(longer[i - 1], longer[i])
    {
      assert longer[i - 1] == path[i - 1];
      assert i < |path| ==> longer[i] == path[i];
    }
  }

  lemma PrependEdit(s: string, path: seq<string>)
    requires Edits(path) && OneEdit(s, path[0])
    ensures Edits([s] + path)
  {
    var longer := [s] + path;
    forall i | 0 < i < |longer|
      ensures OneEdit(longer[i - 1], longer[i])
    {
      assert longer[i] == path[i - 1];
      assert i > 1 ==> longer[i - 1] == path[i - 2];
    }
  }

  lemma LiftEdits(path: seq<string>, c: char) returns (lifted: seq<string>)
    requires Edits(path)
    ensures Edits(lifted) && |lifted| == |path|
    ensures lifted[0] == path[0] + [c] && lifted[|path| - 1] == path[|path| - 1] + [c]
  {
    lifted := seq(|path|, i requires 0 <= i < |path| => path[i] + [c]);
    forall i | 0 < i < |path|
      ensures OneEdit(lifted[i - 1], lifted[i])
    {
      assert OneEdit(path[i - 1], path[i]);
      var p, x, y, q :| EditAt(path[i - 1], path[i], p, x, y, q);
      assert EditAt(lifted[i - 1], lifted[i], p, x, y, q + [c]);
    }
  }

  lemma InsertLast(path: seq<string>, a: string, b: string) returns (longer: seq<string>)
    requires b != "" && EditsBetween(a, b[..|b| - 1], path)
    ensures EditsBetween(a, b, longer) && |longer| == |path| + 1
  {
    var b', d := b[..|b| - 1], b[|b| - 1];
    assert EditAt(b', b, b', "", [d], "");
    AppendEdit(path, b);
    longer := path + [b];
  }

  lemma DeleteLast(path: seq<string>, a: string, b: string) returns (longer: seq<string>)
    requires a != "" && EditsBetween(a[..|a| - 1], b, path)
    ensures EditsBetween(a, b, longer) && |longer| == |path| + 1
  {
    var a', c := a[..|a| - 1], a[|a| - 1];
    assert EditAt(a, a', a', [c], "", "");
    PrependEdit(a, path);
    longer := [a] + path;
  }

  lemma ReplaceLast(path: seq<string>, a: string, b: string) returns (longer: seq<string>)
    requires a != "" && b != "" && EditsBetween(a[..|a| - 1], b[..|b| - 1], path)
    ensures EditsBetween(a, b, longer)
    ensures |longer| == |path| + if a[|a| - 1] == b[|b| - 1] then 0 else 1
  {
    var b', c, d := b[..|b| - 1], a[|a| - 1], b[|b| - 1];
    assert a == a[..|a| - 1] + [c] && b == b' + [d];
    longer := LiftEdits(path, c);
    if c != d {
      assert EditAt(b' + [c], b, b', [c], [d], "");
      AppendEdit(longer, b);
      longer := longer + [b];
    }
  }

  // ...and one sequence is as short.
  lemma {:induction false} ShortestEdit(a: string, b: string) returns (path: seq<string>)
    ensures EditsBetween(a, b, path) && |path| - 1 == Distance(a, b)
    decreases |a| + |b|
  {
    if a == "" && b == "" {
      return [""];
    } else if b != "" && Distance(a, b) == Distance(a, b[..|b| - 1]) + 1 {
      path := ShortestEdit(a, b[..|b| - 1]);
      path := InsertLast(path, a, b);
    } else if a != "" && Distance(a, b) == Distance(a[..|a| - 1], b) + 1 {
      path := ShortestEdit(a[..|a| - 1], b);
      path := DeleteLast(path, a, b);
    } else {
      path := ShortestEdit(a[..|a| - 1], b[..|b| - 1]);
      path := ReplaceLast(path, a, b);
    }
  }

  // Distance is the length of a shortest sequence of edits.
  lemma DistanceIsShortest(a: string, b: string)
    ensures exists path :: EditsBetween(a, b, path) && |path| - 1 == Distance(a, b)
    ensures forall path :: EditsBetween(a, b, path) ==> |path| - 1 >= Distance(a, b)
  {
    var shortest := ShortestEdit(a, b);
    forall path | EditsBetween(a, b, path)
      ensures |path| - 1 >= Distance(a, b)
    {
      NoShorterEdit(path, b);
      DistanceToSelf(b);
    }
  }

  // b is at most n edits away from a.
  ghost predicate WithinEdits(a: string, b: string, n: nat) {
    exists path :: EditsBetween(a, b, path) && |path| <= n + 1
  }

  lemma WithinEditsIs(a: string, b: string, n: nat)
    ensures WithinEdits(a, b, n) <==> Distance(a, b) <= n
  {
    DistanceIsShortest(a, b);
  }

  // ----- hence a metric -----

  lemma {:induction false} Symmetric(a: string, b: string)
    ensures Distance(a, b) == Distance(b, a)
    decreases |a| + |b|
  {
    if a != "" && b != "" {
      Symmetric(a[..|a| - 1], b);
      Symmetric(a, b[..|b| - 1]);
      Symmetric(a[..|a| - 1], b[..|b| - 1]);
    }
  }

  lemma {:induction false} ZeroOnlyOnEquals(a: string, b: string)
    ensures Distance(a, b) == 0 <==> a == b
  {
    DistanceToSelf(a);
    if Distance(a, b) == 0 {
      var path := ShortestEdit(a, b);
    }
  }

  lemma {:induction false} Triangle(a: string, b: string, c: string)
    ensures Distance(a, c) <= Distance(a, b) + Distance(b, c)
  {
    var path := ShortestEdit(a, b);
    NoShorterEdit(path, c);
  }
}
