/**
 Suggestions for mistyped command-line flags: the edit distance computed with one rolling row, against the
 recursive Levenshtein distance, and the choice of the closest known flag.
 */
module EditDistance {

  function Min(a: nat, b: nat): nat {
    if a <= b then a else b
  }

  function Min3(a: nat, b: nat, c: nat): nat {
    Min(a, Min(b, c))
  }

  /** The least number of insertions, deletions and substitutions that turn a into b. */
  function Levenshtein(a: string, b: string): (d: nat)
    decreases |a| + |b|
  {
    if a == "" then |b|
    else if b == "" then |a|
    else
      var m, n := |a| - 1, |b| - 1;
      Min3(Levenshtein(a[..m], b) + 1,
           Levenshtein(a, b[..n]) + 1,
           Levenshtein(a[..m], b[..n]) + (if a[m] == b[n] then 0 else 1))
  }

  /** The distance between prefixes, the cell the row holds. */
  ghost function Cell(a: string, b: string, i: nat, j: nat): nat
    requires i <= |a| && j <= |b|
  {
    Levenshtein(a[..i], b[..j])
  }

  lemma CellEdges(a: string, b: string, i: nat, j: nat)
    requires i <= |a| && j <= |b|
    ensures Cell(a, b, 0, j) == j && Cell(a, b, i, 0) == i
  {
    assert a[..0] == "" && b[..0] == "";
  }

  lemma CellStep(a: string, b: string, i: nat, j: nat)
    requires 0 < i <= |a| && 0 < j <= |b|
    ensures Cell(a, b, i, j) == Min3(Cell(a, b, i - 1, j) + 1, Cell(a, b, i, j - 1) + 1,
                                     Cell(a, b, i - 1, j - 1) + (if a[i - 1] == b[j - 1] then 0 else 1))
  {
    assert a[..i][..i - 1] == a[..i - 1] && b[..j][..j - 1] == b[..j - 1];
  }

  /** The one-row loop computes the recursive distance. */
  method Distance(a: string, b: string) returns (d: nat)
    ensures d == Levenshtein(a, b)
  {
    var row := new nat[|b| + 1];
    for j := 0 to |b| + 1
      invariant forall k :: 0 <= k < j ==> row[k] == k
    {
      row[j] := j;
    }
    forall k | 0 <= k <= |b|
      ensures row[k] == Cell(a, b, 0, k)
    {
      CellEdges(a, b, 0, k);
    }
    for i := 1 to |a| + 1
      invariant forall k :: 0 <= k <= |b| ==> row[k] == Cell(a, b, i - 1, k)
    {
      var diagonal := row[0];
      row[0] := i;
      CellEdges(a, b, i, 0);
      for j := 1 to |b| + 1
        invariant diagonal == Cell(a, b, i - 1, j - 1)
        invariant forall k :: 0 <= k < j ==> row[k] == Cell(a, b, i, k)
        invariant forall k :: j <= k <= |b| ==> row[k] == Cell(a, b, i - 1, k)
      {
        CellStep(a, b, i, j);
        var above := row[j];
        row[j] := Min3(row[j] + 1, row[j - 1] + 1, diagonal + (if a[i - 1] == b[j - 1] then 0 else 1));
        diagonal := above;
      }
    }
    d := row[|b|];
    assert a[..|a|] == a && b[..|b|] == b;
  }

  // ---------- What the distance means ----------

  /** An edit of a string: insert a character, delete one, or put another in its place. */
  datatype Edit = Insert(at: nat, c: char) | Delete(at: nat) | Replace(at: nat, c: char)

  ghost predicate Fits(s: string, e: Edit) {
    match e
    case Insert(at, _) => at <= |s|
    case Delete(at) => at < |s|
    case Replace(at, _) => at < |s|
  }

  function Apply(s: string, e: Edit): string
    requires Fits(s, e)
  {
    match e
    case Insert(at, c) => s[..at] + [c] + s[at..]
    case Delete(at) => s[..at] + s[at + 1..]
    case Replace(at, c) => s[..at] + [c] + s[at + 1..]
  }

  ghost predicate ScriptFits(s: string, es: seq<Edit>)
    decreases |es|
  {
    es == [] || (Fits(s, es[0]) && ScriptFits(Apply(s, es[0]), es[1..]))
  }

  function Perform(s: string, es: seq<Edit>): string
    requires ScriptFits(s, es)
    decreases |es|
  {
    if es == [] then s else Perform(Apply(s, es[0]), es[1..])
  }

  /** es turns a into b. */
  ghost predicate Turns(a: string, es: seq<Edit>, b: string) {
    ScriptFits(a, es) && Perform(a, es) == b
  }

  /** One more character costs at most one more edit, either way. */
  lemma {:induction false} OneMore(a: string, p: string, x: char)
    ensures Levenshtein(a, p + [x]) <= Levenshtein(a, p) + 1
    ensures Levenshtein(a, p) <= Levenshtein(a, p + [x]) + 1
    decreases |a|
  {
    var b := p + [x];
    assert b[..|b| - 1] == p;
    if a != "" {
      OneMore(a[..|a| - 1], p, x);
      assert Levenshtein(a, p) <= Levenshtein(a[..|a| - 1], p) + 1;
    }
  }

  lemma {:induction false} OtherLast(a: string, p: string, x: char, y: char)
    ensures Levenshtein(a, p + [y]) <= Levenshtein(a, p + [x]) + 1
    decreases |a|
  {
    var b, c := p + [x], p + [y];
    assert b[..|b| - 1] == p && c[..|c| - 1] == p;
    if a != "" {
      OtherLast(a[..|a| - 1], p, x, y);
    }
  }

  /** An edit that leaves the last character alone is an edit of what is before it. */
  lemma EditBeforeLast(p: string, x: char, e: Edit)
    requires Fits(p, e)
    ensures Fits(p + [x], e) && Apply(p + [x], e) == Apply(p, e) + [x]
  {
  }

  /** One edit changes the distance by at most one. */
  lemma {:induction false} OneEdit(a: string, b: string, e: Edit)
    requires Fits(b, e)
    ensures Levenshtein(a, Apply(b, e)) <= Levenshtein(a, b) + 1
    decreases |a| + |b|
  {
    if a == "" {
    } else if e.Insert? && e.at == |b| {
      assert Apply(b, e) == b + [e.c];
      OneMore(a, b, e.c);
    } else {
      var n := |b| - 1;
      var p, x := b[..n], b[n];
      assert b == p + [x];
      if e.at == n && !e.Insert? {
        if e.Delete? {
          assert Apply(b, e) == p;
          OneMore(a, p, x);
        } else {
          assert Apply(b, e) == p + [e.c];
          OtherLast(a, p, x, e.c);
        }
      } else {
        EditBeforeLast(p, x, e);
        OneEdit(a[..|a| - 1], b, e);
        OneEdit(a, p, e);
        OneEdit(a[..|a| - 1], p, e);
        SameLast(a, p, Apply(p, e), x);
      }
    }
  }

  /** Two strings with the same last character are as far from a as what comes before it allows. */
  lemma SameLast(a: string, p: string, p': string, x: char)
    requires a != ""
    requires Levenshtein(a[..|a| - 1], p' + [x]) <= Levenshtein(a[..|a| - 1], p + [x]) + 1
    requires Levenshtein(a, p') <= Levenshtein(a, p) + 1
    requires Levenshtein(a[..|a| - 1], p') <= Levenshtein(a[..|a| - 1], p) + 1
    ensures Levenshtein(a, p' + [x]) <= Levenshtein(a, p + [x]) + 1
  {
    var b, b' := p + [x], p' + [x];
    assert b[..|b| - 1] == p && b'[..|b'| - 1] == p';
  }

  lemma {:induction false} ScriptBound(a: string, b: string, es: seq<Edit>)
    requires ScriptFits(b, es)
    ensures Levenshtein(a, Perform(b, es)) <= Levenshtein(a, b) + |es|
    decreases |es|
  {
    if es != [] {
      OneEdit(a, b, es[0]);
      ScriptBound(a, Apply(b, es[0]), es[1..]);
    }
  }

  lemma {:induction false} SelfDistance(a: string)
    ensures Levenshtein(a, a) == 0
  {
    if a != "" {
      SelfDistance(a[..|a| - 1]);
    }
  }

  lemma {:induction false} ScriptBeforeLast(p: string, x: char, es: seq<Edit>)
    requires ScriptFits(p, es)
    ensures ScriptFits(p + [x], es) && Perform(p + [x], es) == Perform(p, es) + [x]
    decreases |es|
  {
    if es != [] {
      EditBeforeLast(p, x, es[0]);
      ScriptBeforeLast(Apply(p, es[0]), x, es[1..]);
    }
  }

  lemma {:induction false} ScriptThen(s: string, es: seq<Edit>, e: Edit)
    requires ScriptFits(s, es) && Fits(Perform(s, es), e)
    ensures ScriptFits(s, es + [e]) && Perform(s, es + [e]) == Apply(Perform(s, es), e)
    decreases |es|
  {
    if es == [] {
      assert es + [e] == [e] && [e][1..] == [];
    } else {
      ScriptThen(Apply(s, es[0]), es[1..], e);
      assert (es + [e])[1..] == es[1..] + [e] && (es + [e])[0] == es[0];
    }
  }

  /** A script of exactly that many edits exists. */
  lemma {:induction false} BestScript(a: string, b: string) returns (es: seq<Edit>)
    ensures Turns(a, es, b) && |es| == Levenshtein(a, b)
    decreases |a| + |b|
  {
    if a == "" && b == "" {
      es := [];
    } else if a == "" || (b != "" && Levenshtein(a, b) == Levenshtein(a, b[..|b| - 1]) + 1) {
      es := AppendLast(a, b);
    } else if b == "" || Levenshtein(a, b) == Levenshtein(a[..|a| - 1], b) + 1 {
      var m := |a| - 1;
      var rest := BestScript(a[..m], b);
      es := [Delete(m)] + rest;
      assert Apply(a, Delete(m)) == a[..m];
      assert es[1..] == rest;
    } else {
      es := MatchLast(a, b);
    }
  }

  lemma {:induction false} AppendLast(a: string, b: string) returns (es: seq<Edit>)
    requires b != "" && Levenshtein(a, b) == Levenshtein(a, b[..|b| - 1]) + 1
    ensures Turns(a, es, b) && |es| == Levenshtein(a, b)
    decreases |a| + |b|, 0
  {
    var n := |b| - 1;
    var front := BestScript(a, b[..n]);
    var e := Insert(n, b[n]);
    ScriptThen(a, front, e);
    assert Apply(b[..n], e) == b;
    es := front + [e];
  }

  lemma {:induction false} MatchLast(a: string, b: string) returns (es: seq<Edit>)
    requires a != "" && b != ""
    requires var m, n := |a| - 1, |b| - 1;
             Levenshtein(a, b) == Levenshtein(a[..m], b[..n]) + (if a[m] == b[n] then 0 else 1)
    ensures Turns(a, es, b) && |es| == Levenshtein(a, b)
    decreases |a| + |b|, 0
  {
    hide Levenshtein, Perform, ScriptFits;
    var m, n := |a| - 1, |b| - 1;
    es := BestScript(a[..m], b[..n]);
    ScriptBeforeLast(a[..m], a[m], es);
    assert a == a[..m] + [a[m]] && b == b[..n] + [b[n]];
    if a[m] != b[n] {
      var e := Replace(n, b[n]);
      assert Apply(b[..n] + [a[m]], e) == b;
      ScriptThen(a, es, e);
      es := es + [e];
    }
  }

  /** The distance is the least number of edits that turn a into b. */
  lemma LevenshteinIsLeast(a: string, b: string)
    ensures exists es :: Turns(a, es, b) && |es| == Levenshtein(a, b)
    ensures forall es :: Turns(a, es, b) ==> Levenshtein(a, b) <= |es|
  {
    var best := BestScript(a, b);
    assert Turns(a, best, b);
    forall es | Turns(a, es, b)
      ensures Levenshtein(a, b) <= |es|
    {
      ScriptBound(a, a, es);
      SelfDistance(a);
    }
  }

  // ---------- The suggestion ----------

  predicate IsLong(flag: string) {
    |flag| >= 2 && flag[..2] == "--"
  }

  /** A flag that starts with two dashes. */
  ghost predicate Dashed(flag: string) {
    |flag| >= 2 && flag[0] == '-' && flag[1] == '-'
  }

  /** Near enough to be a typo: at most two edits, and at most half the flag's name. */
  ghost predicate Near(arg: string, flag: string) {
    Dashed(flag) && Levenshtein(arg, flag) <= 2 && Levenshtein(arg, flag) * 2 <= |flag| - 2
  }

  /** Of the first n flags, flags[i] is near, no near one is nearer, and none before it is as near. */
  ghost predicate IsFirstNearest(arg: string, flags: seq<string>, n: nat, i: nat)
    requires n <= |flags|
  {
    && i < n && Near(arg, flags[i])
    && (forall k :: 0 <= k < n && Near(arg, flags[k]) ==> Levenshtein(arg, flags[i]) <= Levenshtein(arg, flags[k]))
    && (forall k :: 0 <= k < i && Near(arg, flags[k]) ==> Levenshtein(arg, flags[i]) < Levenshtein(arg, flags[k]))
  }

  /** The known flag to suggest for `arg`: empty exactly when `arg` is no long flag or none is near. */
  method ClosestFlag(arg: string, flags: seq<string>) returns (best: string)
    ensures best == "" <==> !Dashed(arg) || forall k :: 0 <= k < |flags| ==> !Near(arg, flags[k])
    ensures best != "" ==> exists i: nat :: IsFirstNearest(arg, flags, |flags|, i) && best == flags[i]
  {
    hide Levenshtein;
    assert IsLong(arg) <==> Dashed(arg);
    best := "";
    if !IsLong(arg) {
      return;
    }
    var bestDistance := 3;
    ghost var chosen: nat := 0;
    for n := 0 to |flags|
      invariant best == "" ==> bestDistance == 3 && forall k :: 0 <= k < n ==> !Near(arg, flags[k])
      invariant best != "" ==> IsFirstNearest(arg, flags, n, chosen) && best == flags[chosen]
      invariant best != "" ==> bestDistance == Levenshtein(arg, best) <= 2
    {
      var candidate := flags[n];
      assert IsLong(candidate) <==> Dashed(candidate);
      if IsLong(candidate) {
        var d := Distance(arg, candidate);
        if d < bestDistance && d * 2 <= |candidate| - 2 {
          best := candidate;
          bestDistance := d;
          chosen := n;
        }
      }
    }
  }
}
