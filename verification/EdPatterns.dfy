/** The regular expressions of `user/bin/ed.c`: their abstract syntax, what they match, the concrete
    syntax that is typed, and the byte code they are compiled to. */
module EdPatterns {
  const ESIZE := 128
  const NBRA := 5

  const CBRA := 1
  const CCHR := 2
  const CDOT := 4
  const CCL := 6
  const NCCL := 8
  const CDOL := 10
  const CEOF := 11
  const CKET := 12
  const STAR := 1

  datatype Item = Char(c: char) | Any | Class(set_: string, negated: bool) | Eol | Open(n: nat) | Close(n: nat) {
    predicate IsGroup() {
      Open? || Close?
    }

    // Whether the item stands for one character, so that it may be starred.
    predicate IsSingle() {
      Char? || Any? || Class?
    }
  }

  datatype Elem = Elem(item: Item, starred: bool)

  type Pattern = seq<Elem>

  // Characters are 7 bits wide, and not NUL.
  predicate IsText(s: string) {
    forall i :: 0 <= i < |s| ==> 0 < s[i] as int < 128
  }

  // ---------------------------------------------------------------------------------------------
  // What a pattern matches

  predicate Accepts(item: Item, c: char) {
    match item
    case Char(d) => c == d
    case Any => true
    case Class(s, negated) => (c in s) != negated
    case _ => false
  }

  // One element takes the matcher from position p of the line to position q. A starred element may
  // not end at position locs, where the last substitution ended; locs is -1 for a fresh line.
  ghost predicate Step(e: Elem, line: string, locs: int, p: nat, q: nat) {
    q <= |line| &&
    if e.starred then p <= q != locs && forall i :: p <= i < q ==> Accepts(e.item, line[i])
    else match e.item
      case Eol => p == q == |line|
      case Open(_) => p == q
      case Close(_) => p == q
      case _ => p < |line| && Accepts(e.item, line[p]) && q == p + 1
  }

  // The positions before each element, and the end of the match.
  type Path = seq<nat>

  ghost predicate IsPath(ps: Pattern, line: string, locs: int, p: nat, path: Path) {
    && |path| == |ps| + 1 && path[0] == p <= |line|
    && forall i :: 0 <= i < |ps| ==> Step(ps[i], line, locs, path[i], path[i + 1])
  }

  ghost predicate NoPath(ps: Pattern, line: string, locs: int, p: nat) {
    forall path :: !IsPath(ps, line, locs, p, path)
  }

  // a is smaller than b at the first position where they differ.
  ghost predicate LexLess(a: Path, b: Path) {
    |a| == |b| && exists k :: 0 <= k < |a| && a[..k] == b[..k] && a[k] < b[k]
  }

  // The greedy match: every star, from the left, takes as much as lets the rest match.
  ghost predicate Best(ps: Pattern, line: string, locs: int, p: nat, path: Path) {
    && IsPath(ps, line, locs, p, path)
    && forall other :: IsPath(ps, line, locs, p, other) ==> other == path || LexLess(other, path)
  }

  // The first difference of two paths is unique.
  lemma FirstDifference(a: Path, b: Path, k: nat, j: nat)
    requires |a| == |b| && k < |a| && j < |a| && a[..k] == b[..k] && a[k] < b[k]
    ensures j > k ==> a[..j] != b[..j]
    ensures j < k ==> a[j] == b[j]
  {
    if j > k {
      assert a[..j][k] != b[..j][k];
    } else if j < k {
      assert a[j] == a[..k][j] == b[..k][j];
    }
  }

  lemma LexAsymmetric(a: Path, b: Path)
    requires LexLess(a, b)
    ensures !LexLess(b, a)
  {
    var k :| 0 <= k < |a| && a[..k] == b[..k] && a[k] < b[k];
    forall j | 0 <= j < |b| ensures b[..j] != a[..j] || b[j] >= a[j] {
      FirstDifference(a, b, k, j);
    }
  }

  lemma BestUnique(ps: Pattern, line: string, locs: int, p: nat, path: Path, path': Path)
    requires Best(ps, line, locs, p, path) && Best(ps, line, locs, p, path')
    ensures path == path'
  {
    if LexLess(path, path') {
      LexAsymmetric(path, path');
    }
  }

  lemma PathTail(ps: Pattern, line: string, locs: int, p: nat, path: Path)
    requires ps != [] && IsPath(ps, line, locs, p, path) && path[1] <= |line|
    ensures IsPath(ps[1..], line, locs, path[1], path[1..])
  {
    hide Step;
    forall i | 0 <= i < |ps| - 1 ensures Step(ps[1..][i], line, locs, path[1..][i], path[1..][i + 1]) {
      assert Step(ps[i + 1], line, locs, path[i + 1], path[i + 2]);
    }
  }

  lemma PathCons(ps: Pattern, line: string, locs: int, p: nat, path: Path)
    requires ps != [] && path != [] && p <= |line| && Step(ps[0], line, locs, p, path[0])
    requires IsPath(ps[1..], line, locs, path[0], path)
    ensures IsPath(ps, line, locs, p, [p] + path)
  {
    hide Step;
    var full := [p] + path;
    forall i | 0 <= i < |ps| ensures Step(ps[i], line, locs, full[i], full[i + 1]) {
      if i > 0 {
        assert Step(ps[1..][i - 1], line, locs, path[i - 1], path[i]);
      }
    }
  }

  lemma LexCons(p: nat, a: Path, b: Path)
    requires LexLess(a, b)
    ensures LexLess([p] + a, [p] + b)
  {
    var k :| 0 <= k < |a| && a[..k] == b[..k] && a[k] < b[k];
    assert ([p] + a)[..k + 1] == [p] + a[..k] == [p] + b[..k] == ([p] + b)[..k + 1];
  }

  lemma LexFirst(a: Path, b: Path)
    requires |a| == |b| >= 2 && a[0] == b[0] && a[1] < b[1]
    ensures LexLess(a, b)
  {
    assert a[..1] == [a[0]] == [b[0]] == b[..1];
  }

  /** Trying the ends of one element from the greatest down: the first end from which the rest of the
      pattern matches gives the greedy match. */
  lemma BestStep(ps: Pattern, line: string, locs: int, p: nat, q: nat, path: Path)
    requires ps != [] && p <= |line| && Step(ps[0], line, locs, p, q)
    requires Best(ps[1..], line, locs, q, path)
    requires forall r: nat :: Step(ps[0], line, locs, p, r) && r > q ==> NoPath(ps[1..], line, locs, r)
    ensures Best(ps, line, locs, p, [p] + path)
  {
    hide Step, LexLess;
    PathCons(ps, line, locs, p, path);
    forall other | IsPath(ps, line, locs, p, other) ensures other == [p] + path || LexLess(other, [p] + path) {
      assert Step(ps[0], line, locs, other[0], other[1]);
      StepInLine(ps[0], line, locs, other[0], other[1]);
      PathTail(ps, line, locs, p, other);
      assert other == [p] + other[1..];
      if other[1] == q {
        if other[1..] != path {
          LexCons(p, other[1..], path);
        }
      } else {
        assert other[1] < q;
        LexFirst(other, [p] + path);
      }
    }
  }

  lemma StepInLine(e: Elem, line: string, locs: int, p: nat, q: nat)
    requires Step(e, line, locs, p, q)
    ensures q <= |line|
  {
  }

  lemma NoPathStep(ps: Pattern, line: string, locs: int, p: nat)
    requires ps != []
    requires forall r: nat :: Step(ps[0], line, locs, p, r) ==> NoPath(ps[1..], line, locs, r)
    ensures NoPath(ps, line, locs, p)
  {
    hide Step;
    forall path ensures !IsPath(ps, line, locs, p, path) {
      if IsPath(ps, line, locs, p, path) {
        assert Step(ps[0], line, locs, path[0], path[1]);
        StepInLine(ps[0], line, locs, path[0], path[1]);
        PathTail(ps, line, locs, p, path);
      }
    }
  }

  // ---------------------------------------------------------------------------------------------
  // Paths and regular languages

  // The strings an element stands for.
  predicate ElemIn(e: Elem, s: string) {
    if e.starred then forall i :: 0 <= i < |s| ==> Accepts(e.item, s[i])
    else if e.item.IsSingle() then |s| == 1 && Accepts(e.item, s[0])
    else s == []
  }

  // The language of a pattern: the concatenations of strings of its elements.
  ghost predicate In(ps: Pattern, s: string) {
    if ps == [] then s == []
    else exists k :: 0 <= k <= |s| && ElemIn(ps[0], s[..k]) && In(ps[1..], s[k..])
  }

  predicate EndsLine(ps: Pattern) {
    exists i :: 0 <= i < |ps| && ps[i].item.Eol?
  }

  lemma StepIn(e: Elem, line: string, p: nat, q: nat)
    requires p <= q <= |line| && (e.starred ==> e.item.IsSingle())
    ensures Step(e, line, -1, p, q) <==> ElemIn(e, line[p..q]) && (e.item.Eol? ==> q == |line|)
  {
    if e.starred && Step(e, line, -1, p, q) {
      forall i | 0 <= i < q - p ensures Accepts(e.item, line[p..q][i]) {
        assert line[p + i] == line[p..q][i];
      }
    } else if e.starred && ElemIn(e, line[p..q]) {
      forall i | p <= i < q ensures Accepts(e.item, line[i]) {
        assert line[i] == line[p..q][i - p];
      }
    }
  }

  lemma StepForward(e: Elem, line: string, locs: int, p: nat, q: nat)
    requires Step(e, line, locs, p, q)
    ensures p <= q <= |line|
  {
  }

  // Every path spells a string of the language.
  lemma {:induction false} PathIn(ps: Pattern, line: string, p: nat, path: Path)
    requires PatternOk(ps) && IsPath(ps, line, -1, p, path)
    ensures p <= path[|ps|] <= |line| && In(ps, line[p..path[|ps|]])
    ensures EndsLine(ps) ==> path[|ps|] == |line|
    decreases |ps|
  {
    hide Step, ElemIn;
    if ps != [] {
      var q, m := path[|ps|], path[1];
      assert Step(ps[0], line, -1, path[0], path[1]);
      StepForward(ps[0], line, -1, p, m);
      PathTail(ps, line, -1, p, path);
      TailOk(ps);
      PathIn(ps[1..], line, m, path[1..]);
      StepIn(ps[0], line, p, m);
      var s := line[p..q];
      assert s[..m - p] == line[p..m] && s[m - p..] == line[m..q];
      if EndsLine(ps) && !ps[0].item.Eol? {
        var i :| 0 <= i < |ps| && ps[i].item.Eol?;
        assert ps[1..][i - 1].item.Eol?;
      }
    }
  }

  lemma TailOk(ps: Pattern)
    requires PatternOk(ps) && ps != []
    ensures PatternOk(ps[1..]) && ElemOk(ps[0])
    ensures ps[0].item.Eol? ==> ps[1..] == []
    ensures EndsLine(ps) <==> ps[0].item.Eol? || EndsLine(ps[1..])
  {
    if EndsLine(ps) && !ps[0].item.Eol? {
      var i :| 0 <= i < |ps| && ps[i].item.Eol?;
      assert ps[1..][i - 1].item.Eol?;
    }
  }

  lemma InSplit(ps: Pattern, line: string, p: nat, q: nat) returns (r: nat)
    requires ps != [] && p <= q <= |line| && In(ps, line[p..q])
    ensures p <= r <= q && ElemIn(ps[0], line[p..r]) && In(ps[1..], line[r..q])
  {
    hide ElemIn;
    var s := line[p..q];
    var k :| 0 <= k <= |s| && ElemIn(ps[0], s[..k]) && In(ps[1..], s[k..]);
    assert s[..k] == line[p..p + k] && s[k..] == line[p + k..q];
    r := p + k;
  }

  // Every string of the language is spelt by a path.
  lemma {:induction false} InPath(ps: Pattern, line: string, p: nat, q: nat) returns (path: Path)
    requires PatternOk(ps) && p <= q <= |line| && In(ps, line[p..q]) && (EndsLine(ps) ==> q == |line|)
    ensures IsPath(ps, line, -1, p, path) && path[|ps|] == q
    decreases |ps|
  {
    hide Step, ElemIn, In, PatternOk;
    if ps == [] {
      EmptyIn(ps, line[p..q]);
      path := [p];
    } else {
      hide IsPath, EndsLine;
      var r := InSplit(ps, line, p, q);
      TailOk(ps);
      if ps[1..] == [] {
        EmptyIn(ps[1..], line[r..q]);
      }
      var rest := InPath(ps[1..], line, r, q);
      PathStarts(ps[1..], line, -1, r, rest);
      StepIn(ps[0], line, p, r);
      ElemParts(ps[0]);
      PathCons(ps, line, -1, p, rest);
      path := [p] + rest;
    }
  }

  lemma PathStarts(ps: Pattern, line: string, locs: int, p: nat, path: Path)
    requires IsPath(ps, line, locs, p, path)
    ensures |path| == |ps| + 1 && path[0] == p
  {
  }

  lemma ElemParts(e: Elem)
    requires ElemOk(e)
    ensures e.starred ==> e.item.IsSingle()
  {
  }

  lemma EmptyIn(ps: Pattern, s: string)
    requires ps == [] && In(ps, s)
    ensures s == []
  {
  }

  /** On a fresh line the paths from p to q are the ways in which the text between them is a string of
      the pattern's language, with q the end of the line for a pattern that ends in $. */
  lemma PathsAreMatches(ps: Pattern, line: string, p: nat, q: nat)
    requires PatternOk(ps) && p <= q <= |line|
    ensures (exists path :: IsPath(ps, line, -1, p, path) && path[|ps|] == q)
       <==> In(ps, line[p..q]) && (EndsLine(ps) ==> q == |line|)
  {
    hide Step, In, PatternOk;
    if In(ps, line[p..q]) && (EndsLine(ps) ==> q == |line|) {
      var path := InPath(ps, line, p, q);
    }
    forall path | IsPath(ps, line, -1, p, path) && path[|ps|] == q
      ensures In(ps, line[p..q]) && (EndsLine(ps) ==> q == |line|)
    {
      PathIn(ps, line, p, path);
    }
  }

  // ---------------------------------------------------------------------------------------------
  // Byte code

  function EncodeElem(e: Elem): (code: seq<int>)
    ensures |code| >= 1
  {
    var s := if e.starred then STAR else 0;
    match e.item
    case Char(c) => [CCHR + s, c as int]
    case Any => [CDOT + s]
    case Eol => [CDOL + s]
    case Class(set_, negated) => [(if negated then NCCL else CCL) + s, |set_| + 1] + Codes(set_)
    case Open(n) => [CBRA + s, n]
    case Close(n) => [CKET + s, n]
  }

  function Codes(s: string): (r: seq<int>)
    ensures |r| == |s| && forall i :: 0 <= i < |s| ==> r[i] == s[i] as int
  {
    seq(|s|, i requires 0 <= i < |s| => s[i] as int)
  }

  function Encode(ps: Pattern): seq<int> {
    if ps == [] then [] else EncodeElem(ps[0]) + Encode(ps[1..])
  }

  lemma {:induction false} EncodeAppend(ps: Pattern, e: Elem)
    ensures Encode(ps + [e]) == Encode(ps) + EncodeElem(e)
  {
    hide EncodeElem;
    if ps == [] {
      assert ps + [e] == [e] && [e][1..] == [];
    } else {
      EncodeAppend(ps[1..], e);
      EncodeCons(ps);
      EncodeCons(ps + [e]);
      assert (ps + [e])[1..] == ps[1..] + [e];
      hide Encode;
      assert EncodeElem(ps[0]) + (Encode(ps[1..]) + EncodeElem(e)) == EncodeElem(ps[0]) + Encode(ps[1..]) + EncodeElem(e);
    }
  }

  lemma EncodeCons(ps: Pattern)
    requires ps != []
    ensures Encode(ps) == EncodeElem(ps[0]) + Encode(ps[1..])
  {
    hide EncodeElem;
  }

  lemma {:induction false} EncodeSize(ps: Pattern)
    ensures |Encode(ps)| >= |ps|
  {
    if ps != [] {
      EncodeSize(ps[1..]);
    }
  }

  // Only single characters are starred, sets are not empty, and the end of the line is last.
  predicate ElemOk(e: Elem) {
    && (e.starred ==> e.item.IsSingle())
    && match e.item
       case Char(c) => 0 < c as int < 128 && c != '\n'
       case Class(s, _) => s != [] && IsText(s) && '\n' !in s
       case Open(n) => n < NBRA
       case Close(n) => n < NBRA
       case _ => true
  }

  // Each group is opened at most once, and closed at most once and after it was opened.
  predicate GroupsOk(ps: Pattern) {
    && (forall i, j :: 0 <= i < j < |ps| && ps[i].item.Open? && ps[j].item.Open? ==> ps[i].item.n < ps[j].item.n)
    && (forall i, j :: 0 <= i < j < |ps| && ps[i].item.Close? && ps[j].item.Close? ==> ps[i].item.n != ps[j].item.n)
  }

  predicate PatternOk(ps: Pattern) {
    && GroupsOk(ps)
    && forall i :: 0 <= i < |ps| ==> ElemOk(ps[i]) && (ps[i].item.Eol? ==> i == |ps| - 1)
  }
}
