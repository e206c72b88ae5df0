/** The regular-expression machinery of `user/bin/ed.c`: `compile` fills `expbuf` with byte code, and
    `execute` and `advance` run it on a line. */
module Ed {
  import opened EdPatterns
  import opened EdSyntax
  import opened Wrappers

  // The byte code of ps, and its end marker, stand at ep.
  ghost predicate CodeAt(code: seq<int>, ep: nat, ps: Pattern) {
    ep + |Encode(ps)| < |code| && code[ep..ep + |Encode(ps)|] == Encode(ps) && code[ep + |Encode(ps)|] == CEOF
  }

  lemma CodeHead(code: seq<int>, ep: nat, ps: Pattern)
    requires CodeAt(code, ep, ps) && ps != []
    ensures ep + |EncodeElem(ps[0])| < |code|
    ensures code[ep..ep + |EncodeElem(ps[0])|] == EncodeElem(ps[0])
    ensures forall k :: 0 <= k < |EncodeElem(ps[0])| ==> code[ep + k] == EncodeElem(ps[0])[k]
    ensures CodeAt(code, ep + |EncodeElem(ps[0])|, ps[1..])
  {
    hide EncodeElem;
    var h, t := EncodeElem(ps[0]), Encode(ps[1..]);
    assert Encode(ps) == h + t;
    var c := code[ep..ep + |h| + |t|];
    assert c[..|h|] == h && c[|h|..] == t;
    assert code[ep..ep + |h|] == c[..|h|];
    assert code[ep + |h|..ep + |h| + |t|] == c[|h|..];
    forall k | 0 <= k < |h| ensures code[ep + k] == h[k] {
      assert c[..|h|][k] == code[ep + k];
    }
  }

  // Every path through the pattern from start goes through the trail, and continues from p.
  ghost predicate Leads(ps: Pattern, line: string, locs: int, start: nat, i: nat, trail: Path, p: nat) {
    i <= |ps| == |ps| && |trail| == i
    && (forall path :: Best(ps[i..], line, locs, p, path) ==> Best(ps, line, locs, start, trail + path))
    && (NoPath(ps[i..], line, locs, p) ==> NoPath(ps, line, locs, start))
  }

  lemma LeadsStart(ps: Pattern, line: string, locs: int, start: nat)
    ensures Leads(ps, line, locs, start, 0, [], start)
  {
    hide Best, NoPath;
    assert ps[0..] == ps;
    assert forall path: Path :: [] + path == path;
  }

  lemma Extend(ps: Pattern, line: string, locs: int, start: nat, i: nat, trail: Path, p: nat, q: nat)
    requires i < |ps| && p <= |line| && Leads(ps, line, locs, start, i, trail, p) && Step(ps[i], line, locs, p, q)
    requires forall r: nat :: Step(ps[i], line, locs, p, r) ==> r == q
    ensures Leads(ps, line, locs, start, i + 1, trail + [p], q)
  {
    hide Best, NoPath, Step;
    assert ps[i..][1..] == ps[i + 1..] && ps[i..][0] == ps[i];
    forall path | Best(ps[i + 1..], line, locs, q, path) ensures Best(ps, line, locs, start, trail + [p] + path) {
      BestStep(ps[i..], line, locs, p, q, path);
      assert trail + ([p] + path) == trail + [p] + path;
    }
    if NoPath(ps[i + 1..], line, locs, q) {
      NoPathStep(ps[i..], line, locs, p);
    }
  }

  lemma DeadEnd(ps: Pattern, line: string, locs: int, start: nat, i: nat, trail: Path, p: nat)
    requires i < |ps| && Leads(ps, line, locs, start, i, trail, p)
    requires forall r: nat :: Step(ps[i], line, locs, p, r) ==> NoPath(ps[i + 1..], line, locs, r)
    ensures NoPath(ps, line, locs, start)
  {
    hide Best, NoPath, Step;
    assert ps[i..][1..] == ps[i + 1..] && ps[i..][0] == ps[i];
    NoPathStep(ps[i..], line, locs, p);
  }

  lemma Arrive(ps: Pattern, line: string, locs: int, start: nat, i: nat, trail: Path, p: nat, q: nat, path: Path)
    requires i < |ps| && p <= |line| && Leads(ps, line, locs, start, i, trail, p) && Step(ps[i], line, locs, p, q)
    requires Best(ps[i + 1..], line, locs, q, path)
    requires forall r: nat :: Step(ps[i], line, locs, p, r) && r > q ==> NoPath(ps[i + 1..], line, locs, r)
    ensures Best(ps, line, locs, start, trail + ([p] + path))
  {
    hide Best, NoPath, Step;
    assert ps[i..][1..] == ps[i + 1..] && ps[i..][0] == ps[i];
    BestStep(ps[i..], line, locs, p, q, path);
  }

  lemma End(ps: Pattern, line: string, locs: int, start: nat, trail: Path, p: nat)
    requires Leads(ps, line, locs, start, |ps|, trail, p) && p <= |line|
    ensures Best(ps, line, locs, start, trail + [p])
  {
    assert ps[|ps|..] == [];
    assert IsPath([], line, locs, p, [p]);
    assert Best([], line, locs, p, [p]);
  }

  ghost predicate Opens(ps: Pattern, n: nat) {
    exists j :: 0 <= j < |ps| && ps[j].item == Open(n)
  }

  ghost predicate Closes(ps: Pattern, n: nat) {
    exists j :: 0 <= j < |ps| && ps[j].item == Close(n)
  }

  // The group bounds are the positions where the path opens and closes the groups.
  ghost predicate Groups(ps: Pattern, path: Path, bras: seq<nat>, brae: seq<nat>)
    requires |bras| == |brae| == NBRA && |path| >= |ps| && PatternOk(ps)
  {
    forall j :: 0 <= j < |ps| ==>
      (ps[j].item.Open? ==> bras[ps[j].item.n] == path[j]) && (ps[j].item.Close? ==> brae[ps[j].item.n] == path[j])
  }

  lemma GroupsNext(ps: Pattern, i: nat, trail: Path, p: nat, bras: seq<nat>, brae: seq<nat>, bras': seq<nat>, brae': seq<nat>)
    requires i < |ps| && PatternOk(ps) && PatternOk(ps[..i]) && |trail| == i
    requires |bras| == |brae| == |bras'| == |brae'| == NBRA && Groups(ps[..i], trail, bras, brae)
    requires bras' == if ps[i].item.Open? then bras[ps[i].item.n := p] else bras
    requires brae' == if ps[i].item.Close? then brae[ps[i].item.n := p] else brae
    ensures PatternOk(ps[..i + 1]) && Groups(ps[..i + 1], trail + [p], bras', brae')
  {
    SuffixOk(ps, i + 1);
    forall j | 0 <= j <= i
      ensures ps[j].item.Open? ==> bras'[ps[j].item.n] == (trail + [p])[j]
      ensures ps[j].item.Close? ==> brae'[ps[j].item.n] == (trail + [p])[j]
    {
      if j < i {
        assert ps[..i][j] == ps[j];
      }
    }
  }

  // What the rest of the pattern does to the group bounds leaves those of its beginning alone.
  lemma GroupsApart(ps: Pattern, i: nat, trail: Path, bras: seq<nat>, brae: seq<nat>, bras': seq<nat>, brae': seq<nat>)
    requires i < |ps| && PatternOk(ps) && PatternOk(ps[..i]) && |trail| == i
    requires |bras| == |brae| == |bras'| == |brae'| == NBRA && Groups(ps[..i], trail, bras, brae)
    requires forall n: nat :: n < NBRA && !Opens(ps[i + 1..], n) ==> bras'[n] == bras[n]
    requires forall n: nat :: n < NBRA && !Closes(ps[i + 1..], n) ==> brae'[n] == brae[n]
    ensures Groups(ps[..i], trail, bras', brae')
    ensures forall n: nat :: n < NBRA && !Opens(ps, n) ==> bras'[n] == bras[n]
    ensures forall n: nat :: n < NBRA && !Closes(ps, n) ==> brae'[n] == brae[n]
  {
    forall n: nat | Opens(ps[i + 1..], n) ensures Opens(ps, n) && forall j :: 0 <= j < i ==> ps[j].item != Open(n) {
      var k :| 0 <= k < |ps| - i - 1 && ps[i + 1..][k].item == Open(n);
      assert ps[i + 1 + k].item == Open(n);
    }
    forall n: nat | Closes(ps[i + 1..], n) ensures Closes(ps, n) && forall j :: 0 <= j < i ==> ps[j].item != Close(n) {
      var k :| 0 <= k < |ps| - i - 1 && ps[i + 1..][k].item == Close(n);
      assert ps[i + 1 + k].item == Close(n);
    }
    forall j | 0 <= j < i
      ensures ps[j].item.Open? ==> bras'[ps[j].item.n] == trail[j]
      ensures ps[j].item.Close? ==> brae'[ps[j].item.n] == trail[j]
    {
      assert ps[..i][j] == ps[j] && ElemOk(ps[j]);
    }
  }

  lemma GroupsJoin(ps: Pattern, i: nat, trail: Path, p: nat, path: Path, bras: seq<nat>, brae: seq<nat>)
    requires |bras| == |brae| == NBRA && PatternOk(ps) && i < |ps| == i + |path| && |trail| == i
    requires PatternOk(ps[..i]) && PatternOk(ps[i + 1..]) && !ps[i].item.IsGroup()
    requires Groups(ps[..i], trail, bras, brae) && Groups(ps[i + 1..], path, bras, brae)
    ensures Groups(ps, trail + ([p] + path), bras, brae)
  {
    var full := trail + ([p] + path);
    forall j | 0 <= j < |ps|
      ensures ps[j].item.Open? ==> bras[ps[j].item.n] == full[j]
      ensures ps[j].item.Close? ==> brae[ps[j].item.n] == full[j]
    {
      if j < i {
        assert ps[..i][j] == ps[j];
      } else if j > i {
        assert ps[i + 1..][j - i - 1] == ps[j];
      }
    }
  }

  lemma GroupsEnd(ps: Pattern, trail: Path, p: nat, bras: seq<nat>, brae: seq<nat>)
    requires |bras| == |brae| == NBRA && PatternOk(ps) && |trail| == |ps|
    requires Groups(ps, trail, bras, brae)
    ensures Groups(ps, trail + [p], bras, brae)
  {
  }

  lemma NoGroups(ps: Pattern, bras: seq<nat>, brae: seq<nat>)
    requires |bras| == |brae| == NBRA && PatternOk(ps)
    ensures PatternOk(ps[..0]) && Groups(ps[..0], [], bras, brae)
  {
  }

  lemma SuffixOk(ps: Pattern, i: nat)
    requires PatternOk(ps) && i <= |ps|
    ensures PatternOk(ps[..i]) && PatternOk(ps[i..])
  {
  }

  // The positions where a search that begins at from may find a match.
  predicate IsStart(line: string, anchored: bool, from: nat, s: nat) {
    from <= s <= |line| && (anchored ==> s == from)
  }

  // The search finds the leftmost match there is, and takes the greedy path from it.
  ghost predicate Finds(ps: Pattern, line: string, locs: int, anchored: bool, from: nat, found: bool, at: nat, path: Path) {
    && (found <==> exists s: nat :: IsStart(line, anchored, from, s) && !NoPath(ps, line, locs, s))
    && (found ==> IsStart(line, anchored, from, at) && Best(ps, line, locs, at, path))
    && (found ==> forall s: nat :: IsStart(line, anchored, from, s) && s < at ==> NoPath(ps, line, locs, s))
  }

  /** What a search finds is determined by the pattern and the line. */
  lemma FindsUnique(ps: Pattern, line: string, locs: int, anchored: bool, from: nat,
                    found: bool, at: nat, path: Path, found': bool, at': nat, path': Path)
    requires Finds(ps, line, locs, anchored, from, found, at, path)
    requires Finds(ps, line, locs, anchored, from, found', at', path')
    ensures found == found' && (found ==> at == at' && path == path')
  {
    hide Best, NoPath, IsStart;
    if found {
      BestIsPath(ps, line, locs, at, path);
      BestIsPath(ps, line, locs, at', path');
      BestUnique(ps, line, locs, at, path, path');
    }
  }

  /** A search of a whole line succeeds exactly when some part of the line is a string of the pattern's
      language. */
  lemma FindsMatch(ps: Pattern, line: string, anchored: bool, found: bool, at: nat, path: Path)
    requires PatternOk(ps) && Finds(ps, line, -1, anchored, 0, found, at, path)
    ensures found <==> exists s: nat, q: nat :: IsMatch(ps, line, anchored, s, q)
    ensures found ==> |path| == |ps| + 1 && IsMatch(ps, line, anchored, at, path[|ps|])
    ensures found ==> forall s: nat, q: nat :: IsMatch(ps, line, anchored, s, q) ==> at <= s
  {
    hide Step, Best, In, PatternOk;
    forall s: nat, q: nat | IsMatch(ps, line, anchored, s, q) ensures !NoPath(ps, line, -1, s) {
      PathsAreMatches(ps, line, s, q);
    }
    if found {
      BestIsPath(ps, line, -1, at, path);
      PathIn(ps, line, at, path);
      var q: nat := path[|ps|];
      assert IsMatch(ps, line, anchored, at, q);
    }
  }

  // The text from s to q is a match of the whole pattern.
  ghost predicate IsMatch(ps: Pattern, line: string, anchored: bool, s: nat, q: nat) {
    s <= q <= |line| && (anchored ==> s == 0) && In(ps, line[s..q]) && (EndsLine(ps) ==> q == |line|)
  }

  lemma BestIsPath(ps: Pattern, line: string, locs: int, p: nat, path: Path)
    requires Best(ps, line, locs, p, path)
    ensures IsPath(ps, line, locs, p, path) && !NoPath(ps, line, locs, p)
  {
  }

  lemma FirstChar(ps: Pattern, line: string, locs: int, p: nat)
    requires ps != [] && p <= |line| && !ps[0].starred && ps[0].item.Char? && At(line, p) != ps[0].item.c as int
    ensures NoPath(ps, line, locs, p)
  {
    hide NoPath;
    StepOne(ps[0], line, locs, p);
    NoPathStep(ps, line, locs, p);
  }

  // Where an unstarred element leads.
  lemma StepOne(e: Elem, line: string, locs: int, p: nat)
    requires !e.starred && p <= |line|
    ensures e.item.IsGroup() ==> forall r: nat :: Step(e, line, locs, p, r) <==> r == p
    ensures e.item == Eol ==> forall r: nat :: Step(e, line, locs, p, r) <==> r == p == |line|
    ensures e.item.IsSingle() ==>
      forall r: nat :: Step(e, line, locs, p, r) <==> p < |line| && Accepts(e.item, line[p]) && r == p + 1
  {
  }

  // Where a starred element that takes all characters up to top leads.
  lemma StepStar(e: Elem, line: string, locs: int, p: nat, top: nat)
    requires e.starred && p <= top <= |line| && (top < |line| ==> !Accepts(e.item, line[top]))
    requires forall i :: p <= i < top ==> Accepts(e.item, line[i])
    ensures forall r: nat :: Step(e, line, locs, p, r) <==> p <= r <= top && r != locs
  {
  }

  // The character at position p of the line buffer.
  function At(line: string, p: nat): int
    requires p <= |line|
  {
    if p < |line| then line[p] as int else 0
  }

  class Editor {
    const expbuf: array<int>
    const braslist: array<nat>
    const braelist: array<nat>
    var circfl: bool
    var loc1: nat
    var loc2: nat
    var locs: int
    ghost var pattern: Pattern

    ghost predicate Buffers()
      reads this
    {
      && expbuf.Length == ESIZE + 4 && braslist.Length == NBRA && braelist.Length == NBRA
      && braslist != braelist
    }

    // cclass
    method InClass(ep: nat, ac: int, af: bool, ghost set_: string) returns (r: bool)
      requires ep + |set_| < expbuf.Length && IsText(set_) && expbuf[ep] == |set_| + 1
      requires forall k :: 0 <= k < |set_| ==> expbuf[ep + 1 + k] == set_[k] as int
      ensures r <==> ac != 0 && ((exists k :: 0 <= k < |set_| && set_[k] as int == ac) == af)
    {
      if ac == 0 {
        return false;
      }
      var p, n := ep + 1, expbuf[ep] - 1;
      while n != 0
        invariant 0 <= n <= |set_| && p + n == ep + 1 + |set_|
        invariant forall k :: 0 <= k < |set_| - n ==> set_[k] as int != ac
        decreases n
      {
        p := p + 1;
        if expbuf[p - 1] == ac {
          assert set_[|set_| - n] as int == ac;
          return af;
        }
        n := n - 1;
      }
      return !af;
    }

    // The operation and operand that stand for an item of one character.
    ghost predicate OpIs(op: int, ep: nat, item: Item)
      reads expbuf
      requires ep < expbuf.Length
    {
      match item
        case Char(c) => op == CCHR && expbuf[ep] == c as int
        case Any => op == CDOT
        case Class(s, negated) => op == (if negated then NCCL else CCL) && ep + |s| < expbuf.Length
          && expbuf[ep] == |s| + 1 && forall k :: 0 <= k < |s| ==> expbuf[ep + 1 + k] == s[k] as int
        case _ => true
    }

    // Whether the item whose operand stands at ep takes the character ac.
    method Takes(op: int, ep: nat, ac: int, ghost item: Item) returns (r: bool)
      requires item.IsSingle() && ElemOk(Elem(item, false)) && ep < expbuf.Length && 0 <= ac < 128
      requires OpIs(op, ep, item)
      ensures r <==> ac != 0 && Accepts(item, ac as char)
    {
      if op == CCHR {
        r := expbuf[ep] == ac;
      } else if op == CDOT {
        r := ac != 0;
      } else {
        r := InClass(ep, ac, op == CCL, if item.Class? then item.set_ else []);
      }
    }

    // The loop over a starred item: lp is left one beyond where it stops.
    method Scan(op: int, ep: nat, line: string, curlp: nat, ghost e: Elem) returns (lp: nat)
      requires e.item.IsSingle() && ElemOk(Elem(e.item, false)) && e.starred && ep < expbuf.Length
      requires OpIs(op, ep, e.item) && IsText(line) && curlp <= |line|
      ensures curlp < lp <= |line| + 1
      ensures forall p: int, r: nat :: Step(e, line, p, curlp, r) <==> curlp <= r < lp && r != p
    {
      lp := curlp;
      while true
        invariant curlp <= lp <= |line|
        invariant forall k :: curlp <= k < lp ==> Accepts(e.item, line[k])
        decreases |line| - lp
      {
        var took := Takes(op, ep, At(line, lp), e.item);
        lp := lp + 1;
        if !took {
          break;
        }
      }
      forall p: int, r: nat ensures Step(e, line, p, curlp, r) <==> curlp <= r < lp && r != p {
        StepStar(e, line, p, curlp, lp - 1);
      }
    }

    // The length of the operand of op at ep.
    function Operand(op: int, ep: nat): nat
      reads expbuf
      requires ep < expbuf.Length && (op == CCL || op == NCCL ==> expbuf[ep] >= 0)
    {
      if op == CCHR then 1 else if op == CDOT || expbuf[ep] < 0 then 0 else expbuf[ep]
    }

    // What stands at ep for the head of ps.
    lemma HeadCode(ep: nat, ps: Pattern)
      requires Buffers() && CodeAt(expbuf[..], ep, ps) && PatternOk(ps)
      ensures ep < expbuf.Length
      ensures ps == [] <==> expbuf[ep] == CEOF
      ensures ps != [] ==> ep + 1 < expbuf.Length && CodeAt(expbuf[..], ep + |EncodeElem(ps[0])|, ps[1..])
      ensures ps != [] ==> HeadIs(ep, ps[0])
    {
      if ps != [] {
        CodeHead(expbuf[..], ep, ps);
        assert forall k :: 0 <= k < |EncodeElem(ps[0])| ==> expbuf[ep + k] == EncodeElem(ps[0])[k];
        assert ElemOk(ps[0]);
        HeadIsElem(ep, ps[0]);
      }
    }

    ghost predicate HeadIs(ep: nat, e: Elem)
      reads expbuf
      requires ep + 1 < expbuf.Length
    {
      var op := expbuf[ep] - if e.starred then STAR else 0;
      match e.item
      case Char(c) => op == CCHR && expbuf[ep + 1] == c as int && |EncodeElem(e)| == 2
      case Any => op == CDOT && |EncodeElem(e)| == 1
      case Eol => op == CDOL && |EncodeElem(e)| == 1
      case Class(s, negated) => op == (if negated then NCCL else CCL) && ep + 1 + |s| < expbuf.Length
        && |EncodeElem(e)| == 2 + |s|
        && expbuf[ep + 1] == |s| + 1 && forall k :: 0 <= k < |s| ==> expbuf[ep + 2 + k] == s[k] as int
      case Open(n) => op == CBRA && expbuf[ep + 1] == n && |EncodeElem(e)| == 2
      case Close(n) => op == CKET && expbuf[ep + 1] == n && |EncodeElem(e)| == 2
    }

    lemma HeadIsElem(ep: nat, e: Elem)
      requires ep + |EncodeElem(e)| < expbuf.Length
      requires forall k :: 0 <= k < |EncodeElem(e)| ==> expbuf[ep + k] == EncodeElem(e)[k]
      ensures HeadIs(ep, e)
    {
      assert expbuf[ep + 0] == EncodeElem(e)[0];
      assert |EncodeElem(e)| > 1 ==> expbuf[ep + 1] == EncodeElem(e)[1];
      if e.item.Class? {
        var s := e.item.set_;
        forall k | 0 <= k < |s| ensures expbuf[ep + 2 + k] == s[k] as int {
          assert EncodeElem(e)[2 + k] == Codes(s)[k];
        }
      }
    }

    // The end of a starred item: from the longest stretch it can take down to none, the rest of the pattern
    // is tried, until it matches or the last substitution's end is reached.
    method BackOff(line: string, lp0: nat, curlp: nat, lp1: nat, ep: nat, ghost ps: Pattern, ghost i: nat, ghost trail: Path)
      returns (r: bool, ghost path: Path)
      requires Buffers() && PatternOk(ps) && IsText(line) && i < |ps| == i + |ps[i + 1..]| + 1 && |trail| == i && !ps[i].item.IsGroup()
      requires CodeAt(expbuf[..], ep, ps[i + 1..]) && PatternOk(ps[..i]) && Groups(ps[..i], trail, braslist[..], braelist[..])
      requires locs <= curlp < lp1 <= |line| + 1 && Leads(ps, line, locs, lp0, i, trail, curlp)
      requires forall q: int, r: nat :: Step(ps[i], line, q, curlp, r) <==> curlp <= r < lp1 && r != q
      modifies this`loc2, braslist, braelist
      ensures expbuf[..] == old(expbuf[..])
      ensures !r ==> NoPath(ps, line, locs, lp0)
      ensures r ==> Best(ps, line, locs, lp0, path) && loc2 == path[|ps|]
      ensures r ==> Groups(ps, path, braslist[..], braelist[..])
      ensures forall n: nat :: n < NBRA && !Opens(ps, n) ==> braslist[n] == old(braslist[n])
      ensures forall n: nat :: n < NBRA && !Closes(ps, n) ==> braelist[n] == old(braelist[n])
      decreases |ps| - i, 0
    {
      hide Best, NoPath, Step, Leads, Encode, EncodeElem, CodeAt, PatternOk, Groups, Opens, Closes, IsText;
      var lp := lp1;
      while true
        invariant curlp < lp <= lp1 && expbuf[..] == old(expbuf[..])
        invariant Groups(ps[..i], trail, braslist[..], braelist[..])
        invariant forall n: nat :: n < NBRA && !Opens(ps, n) ==> braslist[n] == old(braslist[n])
        invariant forall n: nat :: n < NBRA && !Closes(ps, n) ==> braelist[n] == old(braelist[n])
        invariant forall r: nat :: Step(ps[i], line, locs, curlp, r) && r >= lp ==> NoPath(ps[i + 1..], line, locs, r)
        decreases lp
      {
        lp := lp - 1;
        if lp == locs {
          break;
        }
        ghost var rest;
        ghost var bras, brae := braslist[..], braelist[..];
        SuffixOk(ps, i + 1);
        r, rest := Advance(line, lp, ep, ps[i + 1..]);
        GroupsApart(ps, i, trail, bras, brae, braslist[..], braelist[..]);
        if r {
          BestLength(ps[i + 1..], line, locs, lp, rest);
          GroupsJoin(ps, i, trail, curlp, rest, braslist[..], braelist[..]);
          Arrive(ps, line, locs, lp0, i, trail, curlp, lp, rest);
          return true, trail + ([curlp] + rest);
        }
        if lp <= curlp {
          break;
        }
      }
      DeadEnd(ps, line, locs, lp0, i, trail, curlp);
      return false, [];
    }

    /** advance: whether the pattern at ep0 matches the line from lp0. It does exactly when a path
        exists; then loc2 and the group bounds are those of the greedy path. */
    method Advance(line: string, lp0: nat, ep0: nat, ghost ps: Pattern) returns (r: bool, ghost path: Path)
      requires Buffers() && CodeAt(expbuf[..], ep0, ps) && PatternOk(ps) && IsText(line)
      requires locs <= lp0 <= |line|
      modifies this`loc2, braslist, braelist
      ensures expbuf[..] == old(expbuf[..])
      ensures !r ==> NoPath(ps, line, locs, lp0)
      ensures r ==> Best(ps, line, locs, lp0, path) && loc2 == path[|ps|]
      ensures r ==> Groups(ps, path, braslist[..], braelist[..])
      ensures forall n: nat :: n < NBRA && !Opens(ps, n) ==> braslist[n] == old(braslist[n])
      ensures forall n: nat :: n < NBRA && !Closes(ps, n) ==> braelist[n] == old(braelist[n])
      decreases |ps|, 1
    {
      hide Best, NoPath, Step, Leads, Encode, EncodeElem, CodeAt, PatternOk, Groups, Opens, Closes;
      var lp: nat, ep: nat := lp0, ep0;
      ghost var i, trail: Path := 0, [];
      assert ps[0..] == ps;
      LeadsStart(ps, line, locs, lp0);
      NoGroups(ps, braslist[..], braelist[..]);
      while true
        invariant i <= |ps| && |trail| == i && locs <= lp <= |line|
        invariant CodeAt(expbuf[..], ep, ps[i..])
        invariant Leads(ps, line, locs, lp0, i, trail, lp)
        invariant PatternOk(ps[..i]) && Groups(ps[..i], trail, braslist[..], braelist[..])
        invariant forall n: nat :: n < NBRA && !Opens(ps, n) ==> braslist[n] == old(braslist[n])
        invariant forall n: nat :: n < NBRA && !Closes(ps, n) ==> braelist[n] == old(braelist[n])
        decreases |ps| - i
      {
        SuffixOk(ps, i);
        HeadCode(ep, ps[i..]);
        var op := expbuf[ep];
        ep := ep + 1;
        if op == CEOF {
          loc2 := lp;
          End(ps, line, locs, lp0, trail, lp);
          assert ps[..i] == ps;
          GroupsEnd(ps, trail, lp, braslist[..], braelist[..]);
          return true, trail + [lp];
        }
        ghost var e := ps[i];
        assert ps[i..][0] == e && ps[i..][1..] == ps[i + 1..];
        ElemOkAt(ps, i);
        ghost var bras, brae := braslist[..], braelist[..];
        if op == CCHR || op == CDOT || op == CCL || op == NCCL {
          StepOne(e, line, locs, lp);
          var took := Takes(op, ep, At(line, lp), e.item);
          if !took {
            DeadEnd(ps, line, locs, lp0, i, trail, lp);
            return false, [];
          }
          Extend(ps, line, locs, lp0, i, trail, lp, lp + 1);
          ep := ep + Operand(op, ep);
          lp := lp + 1;
          GroupsNext(ps, i, trail, lp - 1, bras, brae, bras, brae);
          trail := trail + [lp - 1];
        } else if op == CDOL {
          StepOne(e, line, locs, lp);
          if At(line, lp) != 0 {
            DeadEnd(ps, line, locs, lp0, i, trail, lp);
            return false, [];
          }
          Extend(ps, line, locs, lp0, i, trail, lp, lp);
          GroupsNext(ps, i, trail, lp, bras, brae, braslist[..], braelist[..]);
          trail := trail + [lp];
        } else if op == CBRA || op == CKET {
          StepOne(e, line, locs, lp);
          if op == CBRA {
            braslist[expbuf[ep]] := lp;
          } else {
            braelist[expbuf[ep]] := lp;
          }
          OpensAt(ps, i);
          ep := ep + 1;
          Extend(ps, line, locs, lp0, i, trail, lp, lp);
          GroupsNext(ps, i, trail, lp, bras, brae, braslist[..], braelist[..]);
          trail := trail + [lp];
        } else {
          var curlp := lp;
          lp := Scan(op - STAR, ep, line, curlp, e);
          ep := ep + Operand(op - STAR, ep);
          r, path := BackOff(line, lp0, curlp, lp, ep, ps, i, trail);
          return;
        }
        i := i + 1;
      }
    }

    // There is nothing to search: a pattern for the start of a line goes on after a match, or there is no line.
    predicate Refuses(gf: bool, zero: bool)
      reads this
    {
      if gf then circfl else zero
    }

    /** execute: searches a line for the pattern. With gf it goes on after the last match; otherwise the
        line is that of an address, which has none when it is zero, before the first line. circfl says
        that the pattern matches at the start of a line only. The first-character test skips the
        positions where no match can start. */
    method Execute(gf: bool, zero: bool, line: string) returns (r: bool, ghost path: Path)
      requires Buffers() && CodeAt(expbuf[..], 0, pattern) && PatternOk(pattern) && IsText(line) && (gf ==> loc2 <= |line|)
      modifies this`loc1, this`loc2, this`locs, braslist, braelist
      ensures expbuf[..] == old(expbuf[..])
      ensures Refuses(gf, zero) ==> !r && unchanged(this, braslist, braelist)
      ensures !Refuses(gf, zero) ==> locs == if gf then old(loc2) else -1
      ensures !Refuses(gf, zero) ==> Finds(pattern, line, locs, circfl, if gf then old(loc2) else 0, r, loc1, path)
      ensures r ==> loc2 == path[|pattern|] && Groups(pattern, path, braslist[..], braelist[..])
    {
      hide Best, NoPath, Step, Encode, EncodeElem, CodeAt, PatternOk, Groups;
      path := [];
      if gf && circfl {
        return false, [];
      }
      if !gf && zero {
        return false, [];
      }
      var p1 := if gf then loc2 else 0;
      locs := if gf then loc2 else -1;
      if circfl {
        loc1 := p1;
        r, path := Advance(line, p1, 0, pattern);
        if r {
          BestIsPath(pattern, line, locs, p1, path);
        }
        return;
      }
      ghost var from := p1;
      HeadCode(0, pattern);
      var fast := expbuf[0] == CCHR;
      var c := expbuf[1];
      if pattern != [] {
        ElemOkAt(pattern, 0);
      }
      assert fast ==> pattern != [] && !pattern[0].starred && pattern[0].item.Char? && c == pattern[0].item.c as int;
      while true
        invariant from <= p1 <= |line|
        invariant expbuf[..] == old(expbuf[..]) && locs == if gf then old(loc2) else -1
        invariant forall s: nat :: from <= s < p1 ==> NoPath(pattern, line, locs, s)
        decreases |line| - p1
      {
        if fast && At(line, p1) != c {
          FirstChar(pattern, line, locs, p1);
        } else {
          r, path := Advance(line, p1, 0, pattern);
          if r {
            loc1 := p1;
            BestIsPath(pattern, line, locs, p1, path);
            return;
          }
        }
        if At(line, p1) == 0 {
          break;
        }
        p1 := p1 + 1;
      }
      return false, [];
    }

    // The characters of a set, from the one at pos0 on, copied to ep0 on.
    method CompileSet(text: string, pos0: nat, ep0: nat) returns (ok: bool, pos: nat, ep: nat, cclcnt: nat, ghost set_: string)
      requires Buffers() && ep0 <= ESIZE + 1 && pos0 <= |text| && '\n' in text[pos0..]
      modifies expbuf
      ensures expbuf[..ep0] == old(expbuf[..ep0])
      ensures ok ==> pos <= |text| && ParseSet(text[pos0..], []) == Some((set_, text[pos..])) && '\n' in text[pos..]
      ensures ok ==> cclcnt == |set_| + 1 && ep == ep0 + |set_| < ESIZE && expbuf[ep0..ep] == Codes(set_)
      ensures !ok ==> var r := ParseSet(text[pos0..], []); r.Some? ==> ep0 + |r.value.0| >= ESIZE
    {
      hide ParseSet;
      pos, ep, cclcnt, set_ := pos0, ep0, 1, "";
      while true
        invariant pos0 <= pos && pos < |text| && '\n' in text[pos..]
        invariant ep == ep0 + |set_| <= ESIZE + 1 && cclcnt == |set_| + 1
        invariant expbuf[..ep0] == old(expbuf[..ep0])
        invariant expbuf[ep0..ep] == Codes(set_)
        invariant ParseSet(text[pos0..], []) == ParseSet(text[pos..], set_)
        decreases |text| - pos
      {
        ParseSetStep(text[pos..], set_);
        if text[pos] == '\n' {
          ok := false;
          return;
        }
        expbuf[ep] := text[pos] as int;
        ep := ep + 1;
        cclcnt := cclcnt + 1;
        assert Codes(set_ + [text[pos]]) == Codes(set_) + [text[pos] as int];
        set_ := set_ + [text[pos]];
        assert text[pos..][1..] == text[pos + 1..];
        pos := pos + 1;
        if ep >= ESIZE {
          ok := false;
          return;
        }
        if text[pos] == ']' {
          assert text[pos - 1..][2..] == text[pos + 1..];
          pos := pos + 1;
          ok := true;
          return;
        }
      }
    }

    // The code of ps fills expbuf up to ep.
    ghost predicate Filled(ep: nat, ps: Pattern)
      reads expbuf
    {
      ep == |Encode(ps)| <= expbuf.Length && expbuf[..ep] == Encode(ps)
    }

    method EmitPair(ep: nat, op: int, x: int, ghost ps: Pattern, ghost e: Elem)
      requires ep + 1 < expbuf.Length && Filled(ep, ps) && EncodeElem(e) == [op, x]
      modifies expbuf
      ensures Filled(ep + 2, ps + [e])
    {
      hide Encode;
      expbuf[ep] := op;
      expbuf[ep + 1] := x;
      EncodeAppend(ps, e);
    }

    method EmitOp(ep: nat, op: int, ghost ps: Pattern, ghost e: Elem)
      requires ep < expbuf.Length && Filled(ep, ps) && EncodeElem(e) == [op]
      modifies expbuf
      ensures Filled(ep + 1, ps + [e])
    {
      hide Encode;
      expbuf[ep] := op;
      EncodeAppend(ps, e);
    }

    // A star for the last element, unless that is a group mark.
    method AddStar(ep: nat, lastep: nat, ghost ps: Pattern) returns (ok: bool)
      requires Filled(ep, ps) && ps != [] && lastep == |Encode(ps[..|ps| - 1])|
      requires ElemOk(ps[|ps| - 1]) && !ps[|ps| - 1].item.Eol?
      modifies expbuf
      ensures ok <==> ps[|ps| - 1].item.IsSingle()
      ensures ok ==> Filled(ep, ps[..|ps| - 1] + [Elem(ps[|ps| - 1].item, true)])
    {
      hide Encode, EncodeElem;
      LastOp(ps);
      LastGroup(ps);
      assert expbuf[lastep] == expbuf[..ep][lastep];
      if expbuf[lastep] == CBRA || expbuf[lastep] == CKET {
        return false;
      }
      StarEncode(ps);
      StarOp(ps[|ps| - 1]);
      ghost var code := expbuf[..ep];
      expbuf[lastep] := if expbuf[lastep] % 2 == STAR then expbuf[lastep] else expbuf[lastep] + STAR;
      assert expbuf[..ep] == code[lastep := expbuf[lastep]];
      return true;
    }

    method EmitEnd(ep: nat, ghost ps: Pattern)
      requires Buffers() && ep < ESIZE && Filled(ep, ps) && PatternOk(ps)
      modifies this`pattern, expbuf
      ensures HasCompiled() && expbuf[0] != 0 && pattern == ps
    {
      hide Encode;
      expbuf[ep] := CEOF;
      pattern := ps;
      FirstOp(ps);
      assert ps != [] ==> expbuf[..ep][0] == Encode(ps)[0];
      CodeDone(expbuf[..], ps);
    }

    lemma StartFilled()
      ensures Filled(0, [])
    {
    }

    lemma FilledSize(ep: nat, ps: Pattern)
      requires Filled(ep, ps)
      ensures ep == |Encode(ps)|
    {
    }

    // A set, after its opening bracket.
    method CompileClass(text: string, pos0: nat, ep0: nat, ghost ps: Pattern) returns (ok: bool, pos: nat, ep: nat, ghost e: Elem)
      requires Buffers() && ep0 < ESIZE && Filled(ep0, ps) && pos0 < |text| && '\n' in text[pos0..]
      modifies expbuf
      ensures ok ==> pos0 < pos < |text| && '\n' in text[pos..] && Filled(ep, ps + [e]) && ep < ESIZE && e.item.Class? && !e.starred
      ensures ok ==> e.item.negated == (text[pos0] == '^')
      ensures ok ==> ParseSet(text[if e.item.negated then pos0 + 1 else pos0..], []) == Some((e.item.set_, text[pos..]))
      ensures !ok ==>
        var r := ParseSet(text[if text[pos0] == '^' then pos0 + 1 else pos0..], []); r.Some? ==> ep0 + 2 + |r.value.0| >= ESIZE
    {
      hide Encode, ParseSet;
      expbuf[ep0] := CCL;
      expbuf[ep0 + 1] := 0;
      pos := pos0;
      var negated := text[pos] == '^';
      if negated {
        pos := pos + 1;
        expbuf[ep0] := NCCL;
      }
      assert expbuf[..ep0] == Encode(ps);
      ghost var buf := expbuf[..ep0 + 2];
      var cclcnt;
      ghost var set_;
      ok, pos, ep, cclcnt, set_ := CompileSet(text, pos, ep0 + 2);
      e := Elem(Class(set_, negated), false);
      if ok {
        expbuf[ep0 + 1] := cclcnt;
        EncodeAppend(ps, e);
        ClassCode(expbuf[..], buf, Encode(ps), ep0, ep, Codes(set_), EncodeElem(e));
      }
    }

    // The character after a backslash: a group mark, or a character that stands for itself.
    method CompileEscape(text: string, pos: nat, ep: nat, nbra0: nat, bracket: array<nat>, bracketp0: nat,
                         ghost ps0: Pattern, ghost brackets0: seq<nat>)
      returns (ok: bool, nbra: nat, bracketp: nat, ghost ps: Pattern, ghost brackets: seq<nat>)
      requires Buffers() && ep < ESIZE && Filled(ep, ps0) && pos < |text|
      requires bracket.Length == NBRA && bracket[..] == brackets0 && Brackets(ps0, nbra0, brackets0, bracketp0)
      modifies expbuf, bracket
      ensures bracket[..] == brackets
      ensures !ok <==>
        if text[pos] == '(' then NextGroup(ps0) >= NBRA else if text[pos] == ')' then OpenGroups(ps0) == [] else text[pos] == '\n'
      ensures ok ==> Filled(ep + 2, ps) && Brackets(ps, nbra, brackets, bracketp)
      ensures ok && text[pos] == '(' ==> ps == ps0 + [Elem(Open(NextGroup(ps0)), false)]
      ensures ok && text[pos] == ')' ==> ps == ps0 + [Elem(Close(Innermost(ps0)), false)]
      ensures ok && text[pos] !in {'(', ')'} ==> ps == ps0 + [Elem(Char(text[pos]), false)]
    {
      hide Filled, Brackets, NextGroup, OpenGroups, Innermost;
      nbra, bracketp, ps, brackets := nbra0, bracketp0, ps0, brackets0;
      var c := text[pos];
      BracketClose(ps, nbra, brackets, bracketp);
      BracketOpen(ps, nbra, brackets, bracketp);
      if c == '(' {
        if nbra >= NBRA {
          return false, nbra, bracketp, ps, brackets;
        }
        bracket[bracketp] := nbra;
        brackets := brackets[bracketp := nbra];
        bracketp := bracketp + 1;
        EmitPair(ep, CBRA, nbra, ps, Elem(Open(nbra), false));
        ps := ps + [Elem(Open(nbra), false)];
        nbra := nbra + 1;
      } else if c == ')' {
        if bracketp == 0 {
          return false, nbra, bracketp, ps, brackets;
        }
        bracketp := bracketp - 1;
        EmitPair(ep, CKET, bracket[bracketp], ps, Elem(Close(bracket[bracketp]), false));
        ps := ps + [Elem(Close(bracket[bracketp]), false)];
      } else {
        if c == '\n' {
          return false, nbra, bracketp, ps, brackets;
        }
        EmitPair(ep, CCHR, c as int, ps, Elem(Char(c), false));
        BracketSame(ps, Char(c), nbra, brackets, bracketp);
        ps := ps + [Elem(Char(c), false)];
      }
      ok := true;
    }

    ghost predicate HasCompiled()
      reads this, expbuf
    {
      Buffers() && expbuf[0] != 0 ==> CodeAt(expbuf[..], 0, pattern) && PatternOk(pattern)
    }

    /** compile: reads a pattern up to its delimiter eof. The newline that ends every command line stops
        it in any case. An empty pattern stands for the last one. */
    method Compile(text: string, eof: char) returns (r: Status)
      requires Buffers() && HasCompiled() && IsText(text) && '\n' in text
      modifies this`circfl, this`pattern, expbuf
      ensures Buffers() && (r != Stuck ==> HasCompiled())
      ensures text[0] == eof ==> r == (if old(expbuf[0]) == 0 then Stuck else Accepted(1)) && unchanged(this, expbuf)
      ensures text[0] != eof ==> (r.Accepted? <==> Parse(text, eof).Some? && |Encode(Parse(text, eof).value.pattern)| < ESIZE)
      ensures text[0] != eof && r.Accepted? ==>
        var parsed := Parse(text, eof).value;
        r.used <= |text| && text[r.used..] == parsed.rest && pattern == parsed.pattern && circfl == parsed.anchored && expbuf[0] != 0
      ensures r == Cleared ==> expbuf[0] == 0
    {
      hide Filled, ParseSet, ReadNext, Reading, Brackets, Innermost, Parse, ParseFrom, WellFormed, Encode, NextGroup, OpenGroups,
        PatternOk, CodeAt, IsText;
      NewlineLast(text);
      var c, pos := text[0], 1;
      if c == eof {
        if expbuf[0] == 0 {
          return Stuck;
        }
        return Accepted(1);
      }
      circfl := false;
      if c == '^' {
        c := text[1];
        pos := 2;
        circfl := true;
      }
      if c == '*' {
        StarFirst(text, eof);
        expbuf[0] := 0;
        return Cleared;
      }
      AfterAnchor(text, eof, pos - 1);
      r := CompileLoop(text, eof, pos - 1);
    }

    /** compile and execute together, as a search does: a typed pattern that is accepted is found in a line exactly
        when a part of the line is a string of its language; loc1 is the leftmost start of such a part,
        and loc2 the end of the greedy path from there. */
    method Search(text: string, eof: char, line: string) returns (r: Status, found: bool, ghost path: Path)
      requires Buffers() && HasCompiled() && IsText(text) && '\n' in text && text[0] != eof && IsText(line)
      modifies this, expbuf, braslist, braelist
      ensures r.Accepted? <==> Parse(text, eof).Some? && |Encode(Parse(text, eof).value.pattern)| < ESIZE
      ensures !r.Accepted? ==> !found
      ensures r.Accepted? ==>
        var p := Parse(text, eof).value;
        && PatternOk(p.pattern)
        && (found <==> exists s: nat, q: nat :: IsMatch(p.pattern, line, p.anchored, s, q))
        && (found ==> loc2 <= |line| && IsMatch(p.pattern, line, p.anchored, loc1, loc2))
        && (found ==> forall s: nat, q: nat :: IsMatch(p.pattern, line, p.anchored, s, q) ==> loc1 <= s)
        && (found ==> Best(p.pattern, line, -1, loc1, path) && loc2 == path[|p.pattern|])
        && (found ==> Groups(p.pattern, path, braslist[..], braelist[..]))
    {
      hide Encode, Parse, PatternOk, CodeAt, Best, NoPath, Groups, Step, In, IsText;
      path := [];
      r := Compile(text, eof);
      if !r.Accepted? {
        return r, false, [];
      }
      found, path := Execute(false, false, line);
      FindsMatch(pattern, line, circfl, found, loc1, path);
    }

    // The loop of compile, from start on.
    method CompileLoop(text: string, eof: char, start: nat) returns (r: Status)
      requires Buffers() && IsText(text) && start < |text| && '\n' in text[start..] && text[start] != '*'
      modifies this`pattern, expbuf
      ensures r != Stuck ==> HasCompiled()
      ensures r.Accepted? <==>
        var f := ParseFrom(text[start..], eof, []); f.Some? && |Encode(f.value.0)| < ESIZE
      ensures r.Accepted? ==>
        var f := ParseFrom(text[start..], eof, []).value;
        r.used <= |text| && text[r.used..] == f.1 && pattern == f.0 && expbuf[0] != 0
      ensures r == Cleared ==> expbuf[0] == 0
    {
      hide Filled, ParseSet, ReadNext, Reading, Brackets, Innermost, ParseFrom, WellFormed, Encode, NextGroup, OpenGroups, PatternOk, CodeAt;
      var ep: nat, lastep: nat, nbra: nat, bracketp: nat := 0, 0, 0, 0;
      var bracket := new nat[NBRA];
      var pos := start;
      ghost var ps: Pattern, brackets := [], bracket[..];
      StartFilled();
      StartReading(text[start..], eof);
      while true
        invariant start <= pos < |text| && '\n' in text[pos..]
        invariant Filled(ep, ps) && ep <= ESIZE + 1
        invariant ps != [] ==> lastep == |Encode(ps[..|ps| - 1])|
        invariant ps == [] ==> text[pos] != '*'
        invariant bracket[..] == brackets && Brackets(ps, nbra, brackets, bracketp)
        invariant Reading(text[pos..], eof, ps)
        invariant ParseFrom(text[start..], eof, []) == ParseFrom(text[pos..], eof, ps)
        decreases |text| - pos
      {
        ghost var text0, ps0 := text[pos..], ps;
        FilledSize(ep, ps);
        if ep >= ESIZE {
          ParseGrows(text0, eof, ps);
          expbuf[0] := 0;
          return Cleared;
        }
        var c := text[pos];
        if c == eof {
          ReadDelimiter(text0, eof, ps);
          ParseStep(text0, eof, ps);
          ReadingOk(text0, eof, ps);
          EmitEnd(ep, ps);
          assert text0[1..] == text[pos + 1..];
          return Accepted(pos + 1);
        }
        r, pos, ep, lastep, nbra, bracketp, ps, brackets :=
          CompileItem(text, eof, pos, ep, lastep, nbra, bracket, bracketp, ps, brackets);
        if r != Accepted(0) {
          return;
        }
        ParseGoes(text0, eof, ps0, text[pos..], ps);
      }
    }

    // A set, from its opening bracket, which is before pos0.
    method CompileBracket(text: string, eof: char, pos0: nat, ep0: nat, ghost ps0: Pattern,
                          ghost nbra: nat, ghost brackets: seq<nat>, ghost bracketp: nat)
      returns (ok: bool, pos: nat, ep: nat, ghost ps: Pattern)
      requires Buffers() && ep0 < ESIZE && Filled(ep0, ps0) && 0 < pos0 < |text| && '\n' in text[pos0..]
      requires text[pos0 - 1] == '[' != eof && Reading(text[pos0 - 1..], eof, ps0) && Brackets(ps0, nbra, brackets, bracketp)
      modifies expbuf
      ensures ok ==> pos0 < pos < |text| && '\n' in text[pos..] && Filled(ep, ps) && ep < ESIZE
      ensures ok ==> ps != [] && ps[..|ps| - 1] == ps0 && Brackets(ps, nbra, brackets, bracketp)
      ensures ok ==> ReadNext(text[pos0 - 1..], eof, ps0) == Item(text[pos..], ps)
      ensures !ok ==> var f := ParseFrom(text[pos0 - 1..], eof, ps0); f.Some? ==> |Encode(f.value.0)| >= ESIZE
    {
      hide Filled, ParseSet, ReadNext, Reading, ParseFrom, Encode, Brackets;
      ghost var text0 := text[pos0 - 1..];
      assert text0[1] == text[pos0] && text0[1..] == text[pos0..] && text0[2..] == text[pos0 + 1..];
      ghost var t := text[if text[pos0] == '^' then pos0 + 1 else pos0..];
      FilledSize(ep0, ps0);
      ghost var e;
      ps := ps0;
      ok, pos, ep, e := CompileClass(text, pos0, ep0, ps);
      if !ok {
        SetTooLong(text0, eof, ps, text0[1] == '^', t);
        return;
      }
      ReadSet(text0, eof, ps, e.item.set_, text[pos..]);
      assert e == Elem(Class(e.item.set_, text0[1] == '^'), false);
      BracketSame(ps, e.item, nbra, brackets, bracketp);
      ps := ps + [e];
    }

    // A star, which belongs to the item before it.
    method CompileStar(text: string, eof: char, pos0: nat, ep: nat, lastep: nat, ghost ps0: Pattern,
                       ghost nbra: nat, ghost brackets: seq<nat>, ghost bracketp: nat)
      returns (ok: bool, ghost ps: Pattern)
      requires Filled(ep, ps0) && ps0 != [] && lastep == |Encode(ps0[..|ps0| - 1])|
      requires pos0 < |text| && text[pos0] == '*' != eof && Reading(text[pos0..], eof, ps0) && Brackets(ps0, nbra, brackets, bracketp)
      modifies expbuf
      ensures ok ==> Filled(ep, ps) && Brackets(ps, nbra, brackets, bracketp)
      ensures ok ==> ps == ps0[..|ps0| - 1] + [Elem(ps0[|ps0| - 1].item, true)]
      ensures ok ==> ReadNext(text[pos0..], eof, ps0) == Item(text[pos0 + 1..], ps)
      ensures !ok ==> ParseFrom(text[pos0..], eof, ps0) == None
    {
      hide Filled, ReadNext, Reading, Brackets, ParseFrom, Encode, ElemOk;
      ghost var text0 := text[pos0..];
      assert text0[0] == '*' && text0[1..] == text[pos0 + 1..];
      ReadStar(text0, eof, ps0);
      ParseStep(text0, eof, ps0);
      ok := AddStar(ep, lastep, ps0);
      ps := ps0[..|ps0| - 1] + [Elem(ps0[|ps0| - 1].item, true)];
      BracketSame(ps0, Any, nbra, brackets, bracketp);
    }

    // One round of the loop of compile, for a character that is not the delimiter.
    method CompileItem(text: string, eof: char, pos0: nat, ep0: nat, lastep0: nat, nbra0: nat, bracket: array<nat>, bracketp0: nat,
                       ghost ps0: Pattern, ghost brackets0: seq<nat>)
      returns (r: Status, pos: nat, ep: nat, lastep: nat, nbra: nat, bracketp: nat, ghost ps: Pattern, ghost brackets: seq<nat>)
      requires Buffers() && ep0 < ESIZE && Filled(ep0, ps0) && pos0 < |text| && '\n' in text[pos0..]
      requires ps0 != [] ==> lastep0 == |Encode(ps0[..|ps0| - 1])|
      requires bracket.Length == NBRA && bracket[..] == brackets0 && Brackets(ps0, nbra0, brackets0, bracketp0)
      requires Reading(text[pos0..], eof, ps0) && text[pos0] != eof && (ps0 == [] ==> text[pos0] != '*')
      modifies expbuf, bracket
      ensures r in {Accepted(0), Cleared, Stuck}
      ensures r == Cleared ==> expbuf[0] == 0
      ensures r != Accepted(0) ==>
        var f := ParseFrom(text[pos0..], eof, ps0); f.Some? ==> |Encode(f.value.0)| >= ESIZE
      ensures r == Accepted(0) ==> pos0 < pos < |text| && '\n' in text[pos..] && Filled(ep, ps) && ep <= ESIZE + 1
      ensures r == Accepted(0) ==> ps != [] && lastep == |Encode(ps[..|ps| - 1])|
      ensures r == Accepted(0) ==> bracket[..] == brackets && Brackets(ps, nbra, brackets, bracketp)
      ensures r == Accepted(0) ==> ReadNext(text[pos0..], eof, ps0) == Item(text[pos..], ps)
    {
      hide Filled, ParseSet, ReadNext, Reading, Brackets, Innermost, ParseFrom, WellFormed, Encode, NextGroup, OpenGroups,
        PatternOk, CodeAt, ElemOk, IsText;
      ghost var text0 := text[pos0..];
      pos, ep, lastep, nbra, bracketp, ps, brackets := pos0 + 1, ep0, lastep0, nbra0, bracketp0, ps0, brackets0;
      FilledSize(ep, ps);
      var c := text[pos0];
      assert text0[0] == c && text0[1..] == text[pos..];
      if c != '*' {
        lastep := ep;
      }
      var ok := true;
      r := Cleared;
      if c == '\\' {
        ok, nbra, bracketp, ps, brackets := CompileEscape(text, pos, ep, nbra, bracket, bracketp, ps, brackets);
        EscapeRead(text, eof, pos0, ps0, ok, ps);
        ep := ep + 2;
        pos := pos + 1;
      } else if c == '*' {
        ok, ps := CompileStar(text, eof, pos0, ep, lastep, ps, nbra, brackets, bracketp);
        if !ok {
          r := Stuck;
          return;
        }
      } else if c == '[' {
        ok, pos, ep, ps := CompileBracket(text, eof, pos, ep, ps, nbra, brackets, bracketp);
        if !ok {
          expbuf[0] := 0;
          return;
        }
      } else {
        ReadPlain(text0, eof, ps);
        ok, ep, ps := CompilePlain(c, c == '$' && text[pos] == eof, ep, ps);
        if ok {
          BracketSame(ps0, ps[|ps0|].item, nbra, brackets, bracketp);
        }
      }
      if !ok {
        ParseStep(text0, eof, ps0);
        expbuf[0] := 0;
        return;
      }
      assert c != '*' ==> ps[..|ps| - 1] == ps0;
      r := Accepted(0);
    }

    // A character other than a backslash, a star or a bracket.
    method CompilePlain(c: char, last: bool, ep0: nat, ghost ps0: Pattern) returns (ok: bool, ep: nat, ghost ps: Pattern)
      requires Buffers() && ep0 < ESIZE && Filled(ep0, ps0)
      modifies expbuf
      ensures ok <==> c != '\n'
      ensures ok ==> Filled(ep, ps) && ep <= ep0 + 2
      ensures ok ==> ps == ps0 + [Elem(if c == '.' then Any else if c == '$' && last then Eol else Char(c), false)]
    {
      hide Filled;
      ok, ep, ps := true, ep0, ps0;
      if c == '.' {
        EmitOp(ep, CDOT, ps, Elem(Any, false));
        ep := ep + 1;
        ps := ps + [Elem(Any, false)];
      } else if c == '\n' {
        ok := false;
      } else if c == '$' && last {
        EmitOp(ep, CDOL, ps, Elem(Eol, false));
        ep := ep + 1;
        ps := ps + [Elem(Eol, false)];
      } else {
        EmitPair(ep, CCHR, c as int, ps, Elem(Char(c), false));
        ep := ep + 2;
        ps := ps + [Elem(Char(c), false)];
      }
    }
  }

  lemma ClassCode(code: seq<int>, buf: seq<int>, before: seq<int>, ep0: nat, ep: nat, set_: seq<int>, elem: seq<int>)
    requires |before| == ep0 && |buf| == ep0 + 2 && buf[..ep0] == before && ep == ep0 + 2 + |set_| <= |code|
    requires code[..ep0] == buf[..ep0] && code[ep0] == buf[ep0] && code[ep0 + 2..ep] == set_
    requires elem == [buf[ep0], code[ep0 + 1]] + set_
    ensures code[..ep] == before + elem
  {
    assert code[..ep] == code[..ep0] + [code[ep0], code[ep0 + 1]] + code[ep0 + 2..ep];
  }

  // What bracket and its pointer hold.
  ghost predicate Brackets(ps: Pattern, nbra: nat, bracket: seq<nat>, bracketp: nat) {
    nbra == NextGroup(ps) <= NBRA && bracketp == |OpenGroups(ps)| <= |bracket| == NBRA && bracket[..bracketp] == OpenGroups(ps)
  }

  lemma BracketOpen(ps: Pattern, nbra: nat, bracket: seq<nat>, bracketp: nat)
    requires Brackets(ps, nbra, bracket, bracketp)
    ensures bracketp <= nbra == NextGroup(ps)
    ensures nbra < NBRA ==> Brackets(ps + [Elem(Open(nbra), false)], nbra + 1, bracket[bracketp := nbra], bracketp + 1)
  {
    hide NextGroup, OpenGroups;
    OpenGroupsFew(ps);
    GroupsAdd(ps, Elem(Open(nbra), false));
  }

  lemma BracketClose(ps: Pattern, nbra: nat, bracket: seq<nat>, bracketp: nat)
    requires Brackets(ps, nbra, bracket, bracketp)
    ensures bracketp == 0 <==> OpenGroups(ps) == []
    ensures bracketp > 0 ==> bracketp <= NBRA && bracket[bracketp - 1] == Innermost(ps)
    ensures bracketp > 0 ==> Brackets(ps + [Elem(Close(Innermost(ps)), false)], nbra, bracket, bracketp - 1)
  {
    hide NextGroup, OpenGroups;
    if bracketp > 0 {
      GroupsAdd(ps, Elem(Close(Innermost(ps)), false));
    }
  }

  lemma BracketSame(ps: Pattern, item: Item, nbra: nat, bracket: seq<nat>, bracketp: nat)
    requires Brackets(ps, nbra, bracket, bracketp) && !item.IsGroup()
    ensures Brackets(ps + [Elem(item, false)], nbra, bracket, bracketp)
    ensures ps != [] && ps[|ps| - 1].item.IsSingle() ==>
      Brackets(ps[..|ps| - 1] + [Elem(ps[|ps| - 1].item, true)], nbra, bracket, bracketp)
  {
    hide NextGroup, OpenGroups;
    GroupsAdd(ps, Elem(item, false));
    if ps != [] && ps[|ps| - 1].item.IsSingle() {
      GroupsStar(ps);
    }
  }

  datatype Status = Accepted(used: nat) | Cleared | Stuck

  lemma NewlineLast(text: string)
    requires '\n' in text
    ensures text != [] && (text[0] == '^' ==> |text| > 1 && '\n' in text[1..])
  {
    if text[0] == '^' {
      var k :| 0 <= k < |text| && text[k] == '\n';
      assert text[1..][k - 1] == '\n';
    }
  }

  // A star that would repeat nothing.
  lemma StarFirst(text: string, eof: char)
    requires text != [] && (text[0] == '*' || (text[0] == '^' && |text| > 1 && text[1] == '*'))
    ensures Parse(text, eof) == None
  {
  }

  // What follows the anchor is read as the pattern.
  lemma AfterAnchor(text: string, eof: char, start: nat)
    requires text != [] && start == (if text[0] == '^' then 1 else 0) && start < |text| && text[start] != '*'
    ensures var f := ParseFrom(text[start..], eof, []);
      Parse(text, eof) == if f == None then None else Some(Parsed(text[0] == '^', f.value.0, f.value.1))
    ensures '\n' in text && text[0] != '^' ==> '\n' in text[start..]
  {
    hide ParseFrom;
    assert text[0..] == text;
  }

  lemma StartReading(text: string, eof: char)
    requires IsText(text)
    ensures Reading(text, eof, []) && Encode([]) == [] && Brackets([], 0, [0, 0, 0, 0, 0], 0)
    ensures forall bracket: seq<nat> :: |bracket| == NBRA ==> Brackets([], 0, bracket, 0)
  {
  }

  // One step of the reader, as the loop of compile takes it.
  lemma ParseStep(text: string, eof: char, ps: Pattern)
    requires Reading(text, eof, ps)
    ensures match ReadNext(text, eof, ps)
      case Failed => ParseFrom(text, eof, ps) == None
      case Finished(rest) => ParseFrom(text, eof, ps) == Some((ps, rest))
      case Item(rest, ps') => ParseFrom(text, eof, ps) == ParseFrom(rest, eof, ps') && Reading(rest, eof, ps')
  {
    hide ReadNext, WellFormed;
    if ReadNext(text, eof, ps).Item? {
      ReadNextOk(text, eof, ps);
    }
  }

  lemma ParseGoes(text: string, eof: char, ps: Pattern, rest: string, ps': Pattern)
    requires Reading(text, eof, ps) && ReadNext(text, eof, ps) == Item(rest, ps')
    ensures ParseFrom(text, eof, ps) == ParseFrom(rest, eof, ps') && Reading(rest, eof, ps')
  {
    hide ReadNext, WellFormed, Reading;
    ParseStep(text, eof, ps);
  }

  // Reading on never makes the code shorter.
  lemma {:induction false} ParseGrows(text: string, eof: char, ps: Pattern)
    requires Reading(text, eof, ps)
    ensures var r := ParseFrom(text, eof, ps); r.Some? ==> |Encode(r.value.0)| >= |Encode(ps)|
    decreases |text|
  {
    hide ReadNext, WellFormed, Encode;
    var r := ReadNext(text, eof, ps);
    if r.Item? {
      ReadNextOk(text, eof, ps);
      ParseGrows(r.rest, eof, r.pattern);
      NextLonger(text, eof, ps);
    }
  }

  lemma NextLonger(text: string, eof: char, ps: Pattern)
    requires ReadNext(text, eof, ps).Item?
    ensures |Encode(ReadNext(text, eof, ps).pattern)| >= |Encode(ps)|
  {
    hide ParseSet, NextGroup, OpenGroups, Encode;
    var ps' := ReadNext(text, eof, ps).pattern;
    if |ps'| > |ps| {
      assert ps' == ps + [ps'[|ps|]];
      EncodeAppend(ps, ps'[|ps|]);
    } else {
      StarEncode(ps);
    }
  }

  lemma FirstOp(ps: Pattern)
    ensures ps != [] ==> |Encode(ps)| > 0 && Encode(ps)[0] != 0
    ensures ps == [] ==> Encode(ps) == []
  {
  }

  lemma CodeDone(code: seq<int>, ps: Pattern)
    requires |Encode(ps)| < |code| && code[..|Encode(ps)|] == Encode(ps) && code[|Encode(ps)|] == CEOF
    ensures CodeAt(code, 0, ps)
  {
    assert code[0..0 + |Encode(ps)|] == code[..|Encode(ps)|];
  }

  lemma {:induction false} OpenGroupsFew(ps: Pattern)
    ensures |OpenGroups(ps)| <= NextGroup(ps)
    decreases |ps|
  {
    if ps != [] {
      OpenGroupsFew(ps[..|ps| - 1]);
    }
  }

  lemma GroupsAdd(ps: Pattern, e: Elem)
    ensures NextGroup(ps + [e]) == NextGroup(ps) + if e.item.Open? then 1 else 0
    ensures OpenGroups(ps + [e]) ==
      if e.item.Open? then OpenGroups(ps) + [e.item.n]
      else if e.item.Close? && OpenGroups(ps) != [] then OpenGroups(ps)[..|OpenGroups(ps)| - 1]
      else OpenGroups(ps)
  {
    assert (ps + [e])[..|ps|] == ps;
  }

  lemma GroupsStar(ps: Pattern)
    requires ps != [] && ps[|ps| - 1].item.IsSingle()
    ensures var ps' := ps[..|ps| - 1] + [Elem(ps[|ps| - 1].item, true)];
      NextGroup(ps') == NextGroup(ps) && OpenGroups(ps') == OpenGroups(ps)
  {
    var ps' := ps[..|ps| - 1] + [Elem(ps[|ps| - 1].item, true)];
    assert ps'[..|ps| - 1] == ps[..|ps| - 1];
  }

  // The last element's code ends the code.
  lemma LastOp(ps: Pattern)
    requires ps != []
    ensures var k, e := |Encode(ps[..|ps| - 1])|, ps[|ps| - 1];
      k < |Encode(ps)| && Encode(ps)[k] == EncodeElem(e)[0]
  {
    hide Encode, EncodeElem;
    EncodeAppend(ps[..|ps| - 1], ps[|ps| - 1]);
    assert ps == ps[..|ps| - 1] + [ps[|ps| - 1]];
  }

  lemma StarOp(e: Elem)
    requires e.item.IsSingle()
    ensures var op := EncodeElem(e)[0]; EncodeElem(Elem(e.item, true))[0] == if op % 2 == STAR then op else op + STAR
  {
  }

  // Whether the last element is a group mark shows in its opcode.
  lemma LastGroup(ps: Pattern)
    requires ps != [] && ElemOk(ps[|ps| - 1])
    ensures EncodeElem(ps[|ps| - 1])[0] in {CBRA, CKET} <==> ps[|ps| - 1].item.IsGroup()
  {
  }

  lemma ReadingOk(text: string, eof: char, ps: Pattern)
    requires Reading(text, eof, ps)
    ensures PatternOk(ps)
  {
    WellFormedOk(ps);
  }

  // What one step reads, by its first character.
  lemma ReadDelimiter(text: string, eof: char, ps: Pattern)
    requires text != [] && text[0] == eof
    ensures ReadNext(text, eof, ps) == Finished(text[1..])
  {
  }

  // What an escaped character is read as.
  lemma EscapeRead(text: string, eof: char, pos: nat, ps0: Pattern, ok: bool, ps: Pattern)
    requires pos + 1 < |text| && text[pos] == '\\' != eof && '\n' in text[pos..]
    requires !ok <==>
      if text[pos + 1] == '(' then NextGroup(ps0) >= NBRA else if text[pos + 1] == ')' then OpenGroups(ps0) == [] else text[pos + 1] == '\n'
    requires ok && text[pos + 1] == '(' ==> ps == ps0 + [Elem(Open(NextGroup(ps0)), false)]
    requires ok && text[pos + 1] == ')' ==> ps == ps0 + [Elem(Close(Innermost(ps0)), false)]
    requires ok && text[pos + 1] !in {'(', ')'} ==> ps == ps0 + [Elem(Char(text[pos + 1]), false)]
    ensures ReadNext(text[pos..], eof, ps0) == if ok then Item(text[pos + 2..], ps) else Failed
    ensures ok ==> ps != [] && ps[..|ps| - 1] == ps0 && pos + 2 < |text| && '\n' in text[pos + 2..]
  {
    hide ReadNext, NextGroup, OpenGroups, Innermost;
    var text0 := text[pos..];
    assert text0[1] == text[pos + 1] && text0[2..] == text[pos + 2..];
    ReadEscape(text0, eof, ps0);
    if ok {
      var k :| 0 <= k < |text0| && text0[k] == '\n';
      assert text[pos + 2..][k - 2] == '\n';
    }
  }

  lemma ReadEscape(text: string, eof: char, ps: Pattern)
    requires |text| > 1 && text[0] != eof && text[0] == '\\'
    ensures ReadNext(text, eof, ps) ==
      if text[1] == '(' then
        if NextGroup(ps) >= NBRA then Failed else Item(text[2..], ps + [Elem(Open(NextGroup(ps)), false)])
      else if text[1] == ')' then
        if OpenGroups(ps) == [] then Failed else Item(text[2..], ps + [Elem(Close(Innermost(ps)), false)])
      else
        if text[1] == '\n' then Failed else Item(text[2..], ps + [Elem(Char(text[1]), false)])
  {
  }

  lemma ReadPlain(text: string, eof: char, ps: Pattern)
    requires text != [] && text[0] != eof && text[0] !in {'\\', '*', '['}
    ensures ReadNext(text, eof, ps) ==
      if text[0] == '\n' then Failed
      else if text[0] == '.' then Item(text[1..], ps + [Elem(Any, false)])
      else if text[0] == '$' && |text| > 1 && text[1] == eof then Item(text[1..], ps + [Elem(Eol, false)])
      else Item(text[1..], ps + [Elem(Char(text[0]), false)])
  {
  }

  lemma ReadStar(text: string, eof: char, ps: Pattern)
    requires Reading(text, eof, ps) && text != [] && text[0] != eof && text[0] == '*' && ps != []
    ensures ElemOk(ps[|ps| - 1]) && !ps[|ps| - 1].item.Eol?
    ensures ReadNext(text, eof, ps) ==
      if !ps[|ps| - 1].item.IsSingle() then Failed
      else Item(text[1..], ps[..|ps| - 1] + [Elem(ps[|ps| - 1].item, true)])
  {
  }

  lemma ReadSet(text: string, eof: char, ps: Pattern, set_: string, rest: string)
    requires |text| > 1 && text[0] != eof && text[0] == '['
    requires ParseSet(if text[1] == '^' then text[2..] else text[1..], []) == Some((set_, rest))
    ensures ReadNext(text, eof, ps) == Item(rest, ps + [Elem(Class(set_, text[1] == '^'), false)])
  {
  }

  // A set that does not fit makes a pattern that does not fit.
  lemma SetTooLong(text: string, eof: char, ps: Pattern, negated: bool, t: string)
    requires Reading(text, eof, ps) && |text| > 1 && text[0] == '[' && eof != '['
    requires (text[1] == '^') == negated && t == if negated then text[2..] else text[1..]
    requires var r := ParseSet(t, []); r.Some? ==> |Encode(ps)| + 2 + |r.value.0| >= ESIZE
    ensures var r := ParseFrom(text, eof, ps); r.Some? ==> |Encode(r.value.0)| >= ESIZE
  {
    hide ParseSet, ParseFrom, Encode, WellFormed;
    ParseStep(text, eof, ps);
    var r := ParseSet(t, []);
    if r.Some? {
      var e := Elem(Class(r.value.0, negated), false);
      EncodeAppend(ps, e);
      ParseGrows(r.value.1, eof, ps + [e]);
    }
  }

  // A star only changes the last opcode.
  lemma StarEncode(ps: Pattern)
    requires ps != [] && ps[|ps| - 1].item.IsSingle()
    ensures var k, ps' := |Encode(ps[..|ps| - 1])|, ps[..|ps| - 1] + [Elem(ps[|ps| - 1].item, true)];
      k < |Encode(ps)| && Encode(ps') == Encode(ps)[k := EncodeElem(ps'[|ps| - 1])[0]]
      && Encode(ps)[k] == EncodeElem(ps[|ps| - 1])[0]
  {
    hide Encode;
    var init, e := ps[..|ps| - 1], ps[|ps| - 1];
    assert ps == init + [e];
    EncodeAppend(init, e);
    EncodeAppend(init, Elem(e.item, true));
    assert EncodeElem(Elem(e.item, true)) == EncodeElem(e)[0 := EncodeElem(Elem(e.item, true))[0]];
  }

  lemma ParseSetStep(text: string, set_: string)
    requires text != []
    ensures text[0] == '\n' ==> ParseSet(text, set_) == None
    ensures text[0] != '\n' && |text| > 1 && text[1] == ']' ==> ParseSet(text, set_) == Some((set_ + [text[0]], text[2..]))
    ensures text[0] != '\n' && !(|text| > 1 && text[1] == ']') ==> ParseSet(text, set_) == ParseSet(text[1..], set_ + [text[0]])
    ensures var r := ParseSet(text, set_); r.Some? ==> |r.value.0| > |set_|
  {
  }

  lemma BestLength(ps: Pattern, line: string, locs: int, p: nat, path: Path)
    requires Best(ps, line, locs, p, path)
    ensures |path| == |ps| + 1
  {
  }

  lemma OpensAt(ps: Pattern, i: nat)
    requires i < |ps|
    ensures ps[i].item.Open? ==> Opens(ps, ps[i].item.n)
    ensures ps[i].item.Close? ==> Closes(ps, ps[i].item.n)
  {
  }

  lemma ElemOkAt(ps: Pattern, i: nat)
    requires PatternOk(ps) && i < |ps|
    ensures ElemOk(ps[i])
  {
  }
}
