/** The resolution decision procedure of `csci561_hw3.cpp`: PL_RESOLUTION and its helpers. */
module Resolution {
  import opened Clauses

  // ---------------------------------------------------------------------------------------------
  // Specification of one resolution step

  // (i, j) is the first complementary pair in the order of PL_RESOLVE's nested loops.
  ghost predicate FirstPair(c1: Clause, c2: Clause, i: int, j: int) {
    && 0 <= i < |c1| && 0 <= j < |c2|
    && Resolvable(c1[i], c2[j])
    && (forall a, b :: 0 <= a < i && 0 <= b < |c2| ==> !Resolvable(c1[a], c2[b]))
    && (forall b :: 0 <= b < j ==> !Resolvable(c1[i], c2[b]))
  }

  ghost predicate Clashes(c1: Clause, c2: Clause) {
    exists l :: l in c1 && l.Opposite() in c2
  }

  function Without(c: Clause, i: nat): Clause
    requires i < |c|
  {
    c[..i] + c[i + 1..]
  }

  // Appends to acc, in order, the literals of c that are not there yet.
  function AddMissing(acc: Clause, c: Clause): Clause
    decreases |c|
  {
    if c == [] then acc
    else AddMissing(if c[0] in acc then acc else acc + [c[0]], c[1..])
  }

  function ResolveAt(c1: Clause, c2: Clause, i: nat, j: nat): Clause
    requires i < |c1| && j < |c2|
  {
    AddMissing(Without(c1, i), Without(c2, j))
  }

  ghost predicate IsResolvent(c1: Clause, c2: Clause, r: Clause) {
    exists i: nat, j: nat :: FirstPair(c1, c2, i, j) && r == ResolveAt(c1, c2, i, j)
  }

  lemma {:induction false} AddMissingStep(acc: Clause, c: Clause, n: nat)
    requires n < |c|
    ensures AddMissing(acc, c[..n + 1])
         == (var a := AddMissing(acc, c[..n]); if c[n] in a then a else a + [c[n]])
    decreases n
  {
    if n == 0 {
      assert c[..1] == [c[0]] && c[..1][1..] == [];
    } else {
      var acc' := if c[0] in acc then acc else acc + [c[0]];
      assert c[..n + 1][1..] == c[1..][..n] && c[..n][1..] == c[1..][..n - 1];
      AddMissingStep(acc', c[1..], n - 1);
    }
  }

  lemma {:induction false} AddMissingLiterals(acc: Clause, c: Clause)
    ensures Literals(AddMissing(acc, c)) == Literals(acc) + Literals(c)
    ensures Distinct(acc) ==> Distinct(AddMissing(acc, c))
    decreases |c|
  {
    if c == [] {
    } else {
      var acc' := if c[0] in acc then acc else acc + [c[0]];
      AddMissingLiterals(acc', c[1..]);
      assert c == [c[0]] + c[1..];
      assert Literals(acc') == Literals(acc) + {c[0]};
      assert Literals(c) == {c[0]} + Literals(c[1..]);
    }
  }

  lemma WithoutLiterals(c: Clause, i: nat)
    requires i < |c|
    ensures forall l :: l in c ==> l == c[i] || l in Without(c, i)
    ensures forall l :: l in Without(c, i) ==> l in c
    ensures Distinct(c) ==> Distinct(Without(c, i)) && Literals(Without(c, i)) == Literals(c) - {c[i]}
  {
    assert c == c[..i] + [c[i]] + c[i + 1..];
  }

  lemma ResolveAtLiterals(c1: Clause, c2: Clause, i: nat, j: nat)
    requires i < |c1| && j < |c2| && Distinct(c1) && Distinct(c2)
    ensures Literals(ResolveAt(c1, c2, i, j)) == (Literals(c1) - {c1[i]}) + (Literals(c2) - {c2[j]})
    ensures Distinct(ResolveAt(c1, c2, i, j))
  {
    AddMissingLiterals(Without(c1, i), Without(c2, j));
    WithoutLiterals(c1, i);
    WithoutLiterals(c2, j);
  }

  // Soundness of one step: a model of both parents is a model of the resolvent.
  lemma ResolventSound(m: Model, c1: Clause, c2: Clause, r: Clause)
    requires IsResolvent(c1, c2, r)
    requires HoldsClause(m, c1) && HoldsClause(m, c2)
    ensures HoldsClause(m, r)
  {
    var i: nat, j: nat :| FirstPair(c1, c2, i, j) && r == ResolveAt(c1, c2, i, j);
    AddMissingLiterals(Without(c1, i), Without(c2, j));
    WithoutLiterals(c1, i);
    WithoutLiterals(c2, j);
    var l1 :| l1 in c1 && Holds(m, l1);
    var l2 :| l2 in c2 && Holds(m, l2);
    assert l1 in Literals(r) || l2 in Literals(r);
  }

  lemma FirstPairUnique(c1: Clause, c2: Clause, i: nat, j: nat, i': nat, j': nat)
    requires FirstPair(c1, c2, i, j) && FirstPair(c1, c2, i', j')
    ensures i == i' && j == j'
  {
  }

  // ---------------------------------------------------------------------------------------------
  // The procedures

  method SameClause(c1: Clause, c2: Clause) returns (same: bool)
    ensures same <==> SameSize(c1, c2)
  {
    same := false;
    var num := 0;
    if |c1| == |c2| {
      for a := 0 to |c1|
        invariant 0 <= num <= a
        invariant num == a <==> Literals(c1[..a]) <= Literals(c2)
      {
        ghost var before := num;
        assert c1[..a + 1] == c1[..a] + [c1[a]];
        var b := 0;
        while b < |c2|
          invariant 0 <= b <= |c2|
          invariant num == before
          invariant c1[a] !in c2[..b]
        {
          if c1[a] == c2[b] {
            num := num + 1;
            break;
          }
          b := b + 1;
        }
        assert num == before + 1 <==> c1[a] in c2;
        assert Literals(c1[..a + 1]) == Literals(c1[..a]) + {c1[a]};
      }
      assert c1[..|c1|] == c1;
      if num == |c1| {
        same := true;
      }
    }
  }

  method Contain(clause: Clause, literal: Literal) returns (isContain: bool)
    ensures isContain <==> literal in clause
  {
    isContain := false;
    for i := 0 to |clause|
      invariant !isContain && literal !in clause[..i]
    {
      if clause[i] == literal {
        isContain := true;
        break;
      }
    }
  }

  // The nested loops of PL_RESOLVE that look for the first complementary pair.
  method FindPair(c1: Clause, c2: Clause) returns (isResolvable: bool, re1: nat, re2: nat)
    ensures isResolvable ==> FirstPair(c1, c2, re1, re2)
    ensures !isResolvable ==> forall a, b :: 0 <= a < |c1| && 0 <= b < |c2| ==> !Resolvable(c1[a], c2[b])
  {
    isResolvable, re1, re2 := false, 0, 0;
    while re1 < |c1|
      invariant 0 <= re1 <= |c1|
      invariant forall a, b :: 0 <= a < re1 && 0 <= b < |c2| ==> !Resolvable(c1[a], c2[b])
    {
      re2 := 0;
      while re2 < |c2|
        invariant 0 <= re2 <= |c2|
        invariant forall b :: 0 <= b < re2 ==> !Resolvable(c1[re1], c2[b])
      {
        if Resolvable(c1[re1], c2[re2]) {
          isResolvable := true;
          return;
        }
        re2 := re2 + 1;
      }
      re1 := re1 + 1;
    }
  }

  // c[..n] without its i-th literal.
  function WithoutTo(c: Clause, i: nat, n: nat): Clause
    requires i < |c| && n <= |c|
  {
    Without(c, i)[..if n <= i then n else n - 1]
  }

  lemma WithoutNext(c: Clause, i: nat, n: nat)
    requires i < |c| && n < |c|
    ensures WithoutTo(c, i, n + 1) == if n == i then WithoutTo(c, i, n) else WithoutTo(c, i, n) + [c[n]]
    ensures WithoutTo(c, i, 0) == [] && WithoutTo(c, i, |c|) == Without(c, i)
  {
  }

  lemma AddMissingNext(acc: Clause, c: Clause, i: nat, n: nat)
    requires i < |c| && n < |c|
    ensures AddMissing(acc, WithoutTo(c, i, n + 1))
         == (var a := AddMissing(acc, WithoutTo(c, i, n)); if n == i || c[n] in a then a else a + [c[n]])
  {
    hide AddMissing;
    if n != i {
      AddMissingStep(acc, Without(c, i), if n < i then n else n - 1);
    }
  }

  // The two loops of PL_RESOLVE that copy the remaining literals.
  method Merge(c1: Clause, c2: Clause, re1: nat, re2: nat) returns (resolvents: Clause)
    requires re1 < |c1| && re2 < |c2|
    ensures resolvents == ResolveAt(c1, c2, re1, re2)
  {
    hide AddMissing, Without, WithoutTo;
    resolvents := [];
    WithoutNext(c1, re1, 0);
    for it1 := 0 to |c1|
      invariant resolvents == WithoutTo(c1, re1, it1)
    {
      WithoutNext(c1, re1, it1);
      if it1 != re1 {
        resolvents := resolvents + [c1[it1]];
      }
    }
    ghost var kept := resolvents;
    WithoutNext(c2, re2, 0);
    AddNothing(kept);
    for it2 := 0 to |c2|
      invariant resolvents == AddMissing(kept, WithoutTo(c2, re2, it2))
    {
      AddMissingNext(kept, c2, re2, it2);
      if it2 != re2 {
        var present := Contain(resolvents, c2[it2]);
        if !present {
          resolvents := resolvents + [c2[it2]];
        }
      }
    }
  }

  lemma AddNothing(acc: Clause)
    ensures AddMissing(acc, []) == acc
  {
  }

  method PLResolve(c1: Clause, c2: Clause) returns (isResolvable: bool, resolvents: Clause)
    ensures isResolvable <==> Clashes(c1, c2)
    ensures isResolvable ==> IsResolvent(c1, c2, resolvents)
    ensures !isResolvable ==> resolvents == []
  {
    var re1, re2;
    isResolvable, re1, re2 := FindPair(c1, c2);
    if isResolvable {
      assert c1[re1].Opposite() == c2[re2];
      resolvents := Merge(c1, c2, re1, re2);
    } else {
      resolvents := [];
      forall l | l in c1 ensures l.Opposite() !in c2 {
        var a :| 0 <= a < |c1| && c1[a] == l;
        assert forall b :: 0 <= b < |c2| ==> !Resolvable(c1[a], c2[b]);
      }
    }
  }

  method Discard(resolvents: Clause, news: Sentence) returns (needDiscard: bool)
    ensures needDiscard <==> Tautology(resolvents) || exists c :: c in news && SameSize(c, resolvents)
  {
    needDiscard := false;
    var it1 := 0;
    while it1 < |resolvents|
      invariant 0 <= it1 <= |resolvents|
      invariant !needDiscard
      invariant forall a, b :: 0 <= a < it1 && a < b < |resolvents| ==> !Resolvable(resolvents[a], resolvents[b])
    {
      var it2 := it1 + 1;
      while it2 < |resolvents|
        invariant it1 < it2 <= |resolvents|
        invariant !needDiscard
        invariant forall b :: it1 < b < it2 ==> !Resolvable(resolvents[it1], resolvents[b])
      {
        if Resolvable(resolvents[it1], resolvents[it2]) {
          needDiscard := true;
          break;
        }
        it2 := it2 + 1;
      }
      if needDiscard {
        assert resolvents[it1].Opposite() == resolvents[it2];
        break;
      }
      it1 := it1 + 1;
    }
    if !needDiscard {
      forall l | l in resolvents ensures l.Opposite() !in resolvents {
        if l.Opposite() in resolvents {
          var a :| 0 <= a < |resolvents| && resolvents[a] == l;
          var b :| 0 <= b < |resolvents| && resolvents[b] == l.Opposite();
          assert Resolvable(resolvents[a], resolvents[b]) && Resolvable(resolvents[b], resolvents[a]);
          assert false;
        }
      }
      for it := 0 to |news|
        invariant !needDiscard
        invariant forall c :: c in news[..it] ==> !SameSize(c, resolvents)
      {
        var same := SameClause(news[it], resolvents);
        if same {
          needDiscard := true;
          break;
        }
      }
    }
  }

  // Appends to clauses those clauses of news that are not the same as one already there.
  method Unions(clauses: Sentence, news: Sentence) returns (clauses': Sentence, nothingNew: bool)
    ensures clauses <= clauses'
    ensures forall c :: c in clauses'[|clauses|..] ==> c in news && !Known(c, clauses)
    ensures forall c :: c in news ==> Known(c, clauses')
    ensures nothingNew <==> clauses' == clauses
  {
    clauses' := clauses;
    var addNum := 0;
    for i := 0 to |news|
      invariant clauses <= clauses' && |clauses'| == |clauses| + addNum
      invariant forall c :: c in clauses'[|clauses|..] ==> c in news && !Known(c, clauses)
      invariant forall c :: c in news[..i] ==> Known(c, clauses')
    {
      var isContained := false;
      for k := 0 to |clauses'|
        invariant !isContained
        invariant forall c :: c in clauses'[..k] ==> !SameSize(news[i], c)
      {
        isContained := SameClause(news[i], clauses'[k]);
        if isContained {
          assert Known(news[i], clauses');
          break;
        }
      }
      ghost var before := clauses';
      if !isContained {
        assert !Known(news[i], clauses) by {
          assert forall c :: c in clauses ==> c in clauses';
        }
        clauses' := clauses' + [news[i]];
        addNum := addNum + 1;
      }
      forall c | c in news[..i + 1] ensures Known(c, clauses') {
        if c != news[i] {
          assert c in news[..i];
          var d :| d in before && SameSize(c, d);
          assert d in clauses';
        } else if !isContained {
          assert news[i] in clauses' && SameSize(c, news[i]);
        }
      }
    }
    nothingNew := addNum == 0;
  }

  // Among duplicate-free clauses the known ones are those with a set of literals that is there.
  lemma KnownIsCovered(c: Clause, kb: Sentence)
    requires AllDistinct(kb) && Distinct(c)
    ensures Known(c, kb) <==> Covered(c, kb)
  {
    forall d | d in kb ensures SameSize(c, d) <==> Literals(c) == Literals(d) {
      SameSizeIsSetEquality(c, d);
    }
  }

  // ---------------------------------------------------------------------------------------------
  // Saturation

  // Resolving c1 with c2 brings nothing that kb does not already hold.
  ghost predicate Settled(c1: Clause, c2: Clause, kb: Sentence) {
    forall r :: IsResolvent(c1, c2, r) ==> r != [] && (Tautology(r) || Covered(r, kb))
  }

  ghost predicate Saturated(kb: Sentence, n: nat)
    requires n <= |kb|
  {
    forall a, b :: 0 <= a < b < n ==> Settled(kb[a], kb[b], kb)
  }

  ghost predicate AllDistinct(kb: Sentence) {
    forall c :: c in kb ==> Distinct(c)
  }

  ghost predicate FalseWithin(c: Clause, m: Model, dom: set<Atom>) {
    forall l :: l in c ==> l.AtomOf() in dom && !Holds(m, l)
  }

  // c, whose only literal over atom a is negative, is false in m but for that literal.
  ghost predicate Forces(c: Clause, a: Atom, m: Model, dom: set<Atom>) {
    && Literal(true, a.guest, a.seat) in c
    && forall l :: l in c && l != Literal(true, a.guest, a.seat) ==> l.AtomOf() in dom && !Holds(m, l)
  }

  ghost function AtomSet(atoms: seq<Atom>): set<Atom> {
    set a | a in atoms
  }

  // The canonical model: atoms in turn are true unless a clause forces them false.
  ghost function Canonical(kb: Sentence, atoms: seq<Atom>): Model {
    if atoms == [] then {}
    else
      var k := |atoms| - 1;
      var m := Canonical(kb, atoms[..k]);
      if exists c :: c in kb && Forces(c, atoms[k], m, AtomSet(atoms[..k])) then m else m + {atoms[k]}
  }

  ghost predicate NoRepeats(atoms: seq<Atom>) {
    forall i, j :: 0 <= i < j < |atoms| ==> atoms[i] != atoms[j]
  }

  lemma CanonicalWithin(kb: Sentence, atoms: seq<Atom>)
    ensures Canonical(kb, atoms) <= AtomSet(atoms)
  {
  }

  // The resolvent on a of a clause false but for `a` and one false but for `not a`:
  // both orders of the parents resolve on a, whatever the order of their literals.
  lemma OnlyPair(c: Clause, d: Clause, p: Literal, m: Model, r: Clause)
    requires Distinct(c) && Distinct(d)
    requires p in c && p.Opposite() in d
    requires forall l :: l in c && l != p ==> !Holds(m, l)
    requires forall l :: l in d && l != p.Opposite() ==> !Holds(m, l)
    requires p.Opposite() !in c && p !in d
    requires IsResolvent(c, d, r)
    ensures Literals(r) == (Literals(c) - {p}) + (Literals(d) - {p.Opposite()})
  {
    var i: nat, j: nat :| FirstPair(c, d, i, j) && r == ResolveAt(c, d, i, j);
    assert c[i] in c && d[j] in d;
    assert d[j] == c[i].Opposite();
    assert c[i] == p;
    ResolveAtLiterals(c, d, i, j);
  }

  lemma FirstPairExists(c1: Clause, c2: Clause)
    requires Clashes(c1, c2)
    ensures exists r :: IsResolvent(c1, c2, r)
  {
    var l :| l in c1 && l.Opposite() in c2;
    var a: nat :| a < |c1| && c1[a] == l;
    var b: nat :| b < |c2| && c2[b] == l.Opposite();
    var i := 0;
    while forall b :: 0 <= b < |c2| ==> !Resolvable(c1[i], c2[b])
      invariant 0 <= i <= a
      invariant forall x, y :: 0 <= x < i && 0 <= y < |c2| ==> !Resolvable(c1[x], c2[y])
      decreases a - i
    {
      assert Resolvable(c1[a], c2[b]);
      i := i + 1;
    }
    var j0: nat :| j0 < |c2| && Resolvable(c1[i], c2[j0]);
    var j := 0;
    while !Resolvable(c1[i], c2[j])
      invariant 0 <= j <= j0
      invariant forall y :: 0 <= y < j ==> !Resolvable(c1[i], c2[y])
      decreases j0 - j
    {
      j := j + 1;
    }
    assert FirstPair(c1, c2, i, j);
    assert IsResolvent(c1, c2, ResolveAt(c1, c2, i, j));
  }

  // A saturated set without derived empty clause has no clause falsified by the canonical model.
  lemma {:induction false} CanonicalFalsifiesNone(kb: Sentence, atoms: seq<Atom>, c: Clause)
    requires AllDistinct(kb) && Saturated(kb, |kb|)
    requires NoRepeats(atoms)
    requires c in kb && c != []
    ensures !FalseWithin(c, Canonical(kb, atoms), AtomSet(atoms))
    decreases |atoms|
  {
    hide Saturated, AllDistinct, Settled;
    var m := Canonical(kb, atoms);
    if FalseWithin(c, m, AtomSet(atoms)) {
      assert c[0] in c;
      if atoms == [] {
        assert false;
      } else {
        var k := |atoms| - 1;
        var a := atoms[k];
        var dom := AtomSet(atoms[..k]);
        var m' := Canonical(kb, atoms[..k]);
        CanonicalWithin(kb, atoms[..k]);
        assert a !in dom;
        assert AtomSet(atoms) == dom + {a} by { assert atoms == atoms[..k] + [a]; }
        var neg := Literal(true, a.guest, a.seat);
        var pos := neg.Opposite();
        assert forall l :: l in c && l.AtomOf() != a ==> l.AtomOf() in dom && !Holds(m', l);
        assert forall l: Literal :: l.AtomOf() == a ==> l == neg || l == pos;
        if neg !in c && pos !in c {
          assert FalseWithin(c, m', dom);
          CanonicalFalsifiesNone(kb, atoms[..k], c);
        } else if a in m {
          assert false;     // c itself would have forced a to be false
        } else {
          assert neg !in c;
          var d :| d in kb && Forces(d, a, m', dom);
          CanonicalClash(kb, c, d, pos, m', dom);
          var e :| e in kb && e != [] && FalseWithin(e, m', dom);
          CanonicalFalsifiesNone(kb, atoms[..k], e);
        }
      }
    }
  }

  lemma CanonicalClash(kb: Sentence, c: Clause, d: Clause, pos: Literal, m: Model, dom: set<Atom>)
    requires AllDistinct(kb) && Saturated(kb, |kb|)
    requires c in kb && d in kb && pos in c && pos.Opposite() in d
    requires pos.AtomOf() !in dom
    requires forall l :: l in c && l != pos ==> l.AtomOf() in dom && !Holds(m, l)
    requires forall l :: l in d && l != pos.Opposite() ==> l.AtomOf() in dom && !Holds(m, l)
    ensures exists e :: e in kb && e != [] && FalseWithin(e, m, dom)
  {
    assert pos.Opposite() !in c && pos !in d;
    var x :| 0 <= x < |kb| && kb[x] == c;
    var y :| 0 <= y < |kb| && kb[y] == d;
    var r: Clause;
    if x < y {
      FirstPairExists(c, d);
      r :| IsResolvent(c, d, r);
      OnlyPair(c, d, pos, m, r);
      assert Settled(kb[x], kb[y], kb);
    } else {
      assert Clashes(d, c) by { assert pos.Opposite().Opposite() == pos; }
      FirstPairExists(d, c);
      r :| IsResolvent(d, c, r);
      OnlyPair(d, c, pos.Opposite(), m, r);
      assert Settled(kb[y], kb[x], kb);
    }
    assert forall l :: l in r ==> l in Literals(r);
    assert FalseWithin(r, m, dom);
    assert !Tautology(r);
    var e :| e in kb && Literals(e) == Literals(r);
    assert r[0] in Literals(e);
    assert forall l :: l in e ==> l in Literals(e);
    assert FalseWithin(e, m, dom);
  }

  ghost function AtomsOf(kb: Sentence): set<Atom> {
    set c, l: Literal | c in kb && l in c :: l.AtomOf()
  }

  lemma Enumerate(s: set<Atom>) returns (atoms: seq<Atom>)
    ensures NoRepeats(atoms) && AtomSet(atoms) == s
    decreases s
  {
    if s == {} {
      atoms := [];
    } else {
      var a :| a in s;
      var rest := Enumerate(s - {a});
      assert forall b :: b in rest <==> b in AtomSet(rest);
      atoms := rest + [a];
    }
  }

  // Refutation completeness: what saturates without the empty clause has a model.
  lemma SaturatedSatisfiable(kb: Sentence)
    requires AllDistinct(kb) && Saturated(kb, |kb|)
    ensures exists m :: SatisfiesNonEmpty(m, kb)
  {
    var atoms := Enumerate(AtomsOf(kb));
    var m := Canonical(kb, atoms);
    forall c | c in kb && c != [] ensures HoldsClause(m, c) {
      CanonicalFalsifiesNone(kb, atoms, c);
      var l :| l in c && !(l.AtomOf() in AtomSet(atoms) && !Holds(m, l));
      assert l.AtomOf() in AtomsOf(kb);
    }
    assert SatisfiesNonEmpty(m, kb);
  }

  // ---------------------------------------------------------------------------------------------
  // The main loop

  // Only literals of lits, of which no clause repeats more than e.
  ghost predicate Within(kb: Sentence, lits: set<Literal>, e: nat) {
    forall c :: c in kb ==> Literals(c) <= lits && |c| <= |Literals(c)| + e
  }

  // Length and set of literals: two clauses of the same shape are the same for sameClause.
  ghost function Shapes(kb: Sentence): set<(nat, set<Literal>)> {
    set c | c in kb :: (|c|, Literals(c))
  }

  ghost function AllShapes(lits: set<Literal>, e: nat): set<(nat, set<Literal>)> {
    set n: nat, s: set<Literal> | n <= |lits| + e && s <= lits :: (n, s)
  }

  ghost function Length(kb: Sentence): nat {
    if kb == [] then 0 else |kb[0]| + Length(kb[1..])
  }

  lemma {:induction false} LengthBound(kb: Sentence, c: Clause)
    requires c in kb
    ensures |c| <= Length(kb)
  {
    if c != kb[0] {
      LengthBound(kb[1..], c);
    }
  }

  lemma SubsetSize<T>(a: set<T>, b: set<T>)
    requires a <= b
    ensures |a| <= |b|
  {
    assert b == a + (b - a);
  }

  lemma WithinShapes(kb: Sentence, lits: set<Literal>, e: nat)
    requires Within(kb, lits, e)
    ensures Shapes(kb) <= AllShapes(lits, e)
  {
    forall c | c in kb ensures (|c|, Literals(c)) in AllShapes(lits, e) {
      SubsetSize(Literals(c), lits);
    }
  }

  // No two clauses resolve to anything but a tautology.
  ghost predicate Quiet(kb: Sentence) {
    forall c, d, r :: c in kb && d in kb && IsResolvent(c, d, r) ==> Tautology(r)
  }

  ghost function AllLiterals(kb: Sentence): set<Literal> {
    set c, l | c in kb && l in c :: l
  }

  ghost predicate Entails(kb: Sentence, kb': Sentence) {
    forall m :: SatisfiesNonEmpty(m, kb) ==> SatisfiesNonEmpty(m, kb')
  }

  lemma SettledMonotone(c1: Clause, c2: Clause, kb: Sentence, kb': Sentence)
    requires Settled(c1, c2, kb)
    requires forall d :: d in kb ==> Covered(d, kb')
    ensures Settled(c1, c2, kb')
  {
    forall r | IsResolvent(c1, c2, r) && !Tautology(r) ensures Covered(r, kb') {
      var d :| d in kb && Literals(d) == Literals(r);
      assert Covered(d, kb');
    }
  }

  lemma PrefixCovered(kb: Sentence, kb': Sentence)
    requires kb <= kb'
    ensures forall d :: d in kb ==> Covered(d, kb')
  {
    forall d | d in kb ensures d in kb' {
      assert kb' == kb + kb'[|kb|..];
    }
  }

  lemma ResolventUnique(c1: Clause, c2: Clause, r: Clause, r': Clause)
    requires IsResolvent(c1, c2, r) && IsResolvent(c1, c2, r')
    ensures r == r'
  {
    var i: nat, j: nat :| FirstPair(c1, c2, i, j) && r == ResolveAt(c1, c2, i, j);
    var i': nat, j': nat :| FirstPair(c1, c2, i', j') && r' == ResolveAt(c1, c2, i', j');
    FirstPairUnique(c1, c2, i, j, i', j');
  }

  // Resolving does not repeat literals more often than its first parent does.
  lemma {:induction false} AddMissingLength(acc: Clause, c: Clause)
    ensures |AddMissing(acc, c)| + |Literals(acc)| == |acc| + |Literals(AddMissing(acc, c))|
    decreases |c|
  {
    if c != [] {
      var acc' := if c[0] in acc then acc else acc + [c[0]];
      AddMissingLength(acc', c[1..]);
      assert Literals(acc') == Literals(acc) + {c[0]};
    }
  }

  lemma WithoutLength(c: Clause, i: nat)
    requires i < |c|
    ensures |Literals(c)| <= |Literals(Without(c, i))| + 1
  {
    WithoutLiterals(c, i);
    SubsetSize(Literals(c), Literals(Without(c, i)) + {c[i]});
  }

  lemma ResolventWithin(kb: Sentence, c1: Clause, c2: Clause, r: Clause, lits: set<Literal>, e: nat)
    requires Within(kb, lits, e) && c1 in kb && c2 in kb && IsResolvent(c1, c2, r)
    ensures Literals(r) <= lits && |r| <= |Literals(r)| + e
    ensures AllDistinct(kb) ==> Distinct(r)
    ensures forall m :: SatisfiesNonEmpty(m, kb) ==> HoldsClause(m, r)
  {
    var i: nat, j: nat :| FirstPair(c1, c2, i, j) && r == ResolveAt(c1, c2, i, j);
    AddMissingLiterals(Without(c1, i), Without(c2, j));
    AddMissingLength(Without(c1, i), Without(c2, j));
    WithoutLiterals(c1, i);
    WithoutLiterals(c2, j);
    WithoutLength(c1, i);
    forall m | SatisfiesNonEmpty(m, kb) ensures HoldsClause(m, r) {
      ResolventSound(m, c1, c2, r);
    }
  }

  lemma NoClashNoResolvent(c1: Clause, c2: Clause)
    ensures !Clashes(c1, c2) ==> forall r :: !IsResolvent(c1, c2, r)
  {
    forall i: nat, j: nat | FirstPair(c1, c2, i, j) ensures Clashes(c1, c2) {
      assert c1[i].Opposite() == c2[j];
    }
  }

  // What one round of pairwise resolution has produced from kb so far.
  ghost predicate RoundOk(kb: Sentence, news: Sentence, lits: set<Literal>, e: nat) {
    && Within(news, lits, e) && Entails(kb, news)
    && (AllDistinct(kb) ==> AllDistinct(news))
    && (Quiet(kb) ==> news == [])
  }

  // Resolves kb[a] with kb[b]: the body of the innermost loop of PL_RESOLUTION.
  method ResolvePair(kb: Sentence, a: nat, b: nat, news: Sentence, ghost lits: set<Literal>, ghost e: nat)
    returns (emptyClause: bool, news': Sentence)
    requires a < |kb| && b < |kb|
    requires Within(kb, lits, e) && RoundOk(kb, news, lits, e)
    ensures emptyClause ==> !Quiet(kb) && forall m :: !SatisfiesNonEmpty(m, kb)
    ensures !emptyClause ==> RoundOk(kb, news', lits, e) && news <= news'
    ensures !emptyClause && AllDistinct(kb) ==> Settled(kb[a], kb[b], news')
  {
    emptyClause, news' := false, news;
    var resolved, resolvents := PLResolve(kb[a], kb[b]);
    if resolved {
      ResolventWithin(kb, kb[a], kb[b], resolvents, lits, e);
      forall r | IsResolvent(kb[a], kb[b], r) ensures r == resolvents {
        ResolventUnique(kb[a], kb[b], r, resolvents);
      }
      if |resolvents| == 0 {
        emptyClause := true;
        assert !Tautology(resolvents);
        return;
      }
      var needDiscard := Discard(resolvents, news);
      if !needDiscard {
        news' := news + [resolvents];
        assert resolvents in news';
      } else if !Tautology(resolvents) && AllDistinct(kb) {
        var c :| c in news && SameSize(c, resolvents);
        SameSizeIsSetEquality(c, resolvents);
      }
    } else {
      NoClashNoResolvent(kb[a], kb[b]);
    }
  }

  // One pass of the pair loops; offset skips the pairs that earlier passes settled.
  method Round(kb: Sentence, offset: nat, ghost lits: set<Literal>, ghost e: nat)
    returns (emptyClause: bool, news: Sentence)
    requires offset <= |kb| && Within(kb, lits, e)
    ensures emptyClause ==> !Quiet(kb) && forall m :: !SatisfiesNonEmpty(m, kb)
    ensures !emptyClause ==> RoundOk(kb, news, lits, e)
    ensures !emptyClause && AllDistinct(kb) ==>
      forall a, b :: 0 <= a < b < |kb| && offset <= b ==> Settled(kb[a], kb[b], news)
  {
    hide RoundOk, Settled, Quiet, Within;
    emptyClause, news := false, [];
    NothingYet(kb, lits, e);
    for c1 := 0 to |kb|
      invariant !emptyClause && RoundOk(kb, news, lits, e)
      invariant AllDistinct(kb) ==> forall a, b :: 0 <= a < c1 && a < b < |kb| && offset <= b ==> Settled(kb[a], kb[b], news)
    {
      var c2 := if c1 + 1 > offset then c1 + 1 else offset;
      while c2 < |kb|
        invariant !emptyClause && RoundOk(kb, news, lits, e)
        invariant c1 < c2 && offset <= c2
        invariant AllDistinct(kb) ==> forall a, b :: 0 <= a < c1 && a < b < |kb| && offset <= b ==> Settled(kb[a], kb[b], news)
        invariant AllDistinct(kb) ==> forall b :: c1 < b < c2 && b < |kb| && offset <= b ==> Settled(kb[c1], kb[b], news)
      {
        ghost var before := news;
        emptyClause, news := ResolvePair(kb, c1, c2, news, lits, e);
        if emptyClause {
          return;
        }
        PrefixCovered(before, news);
        forall a, b | 0 <= a <= c1 && a < b < |kb| && Settled(kb[a], kb[b], before)
          ensures Settled(kb[a], kb[b], news)
        {
          SettledMonotone(kb[a], kb[b], before, news);
        }
        c2 := c2 + 1;
      }
    }
  }

  lemma NothingYet(kb: Sentence, lits: set<Literal>, e: nat)
    ensures RoundOk(kb, [], lits, e)
  {
  }

  /** PL_RESOLUTION terminates on every sentence, because each further round adds a clause of a length and
      set of literals that is new, and when it says no, the non-empty clauses have no common model.  On
      duplicate-free clauses it decides whether they have one.  Where no two clauses resolve to anything
      but a tautology it says yes. */
  method PLResolution(kb0: Sentence) returns (sat: bool)
    ensures !sat ==> forall m :: !SatisfiesNonEmpty(m, kb0)
    ensures AllDistinct(kb0) ==> (sat <==> exists m :: SatisfiesNonEmpty(m, kb0))
    ensures Quiet(kb0) ==> sat
  {
    hide AllDistinct, Quiet, Settled, Within, RoundOk, Shapes, AllShapes, Known;
    var kb, offset := kb0, 0;
    ghost var lits, e := AllLiterals(kb0), Length(kb0);
    StartWithin(kb0);
    while true
      invariant 0 <= offset <= |kb|
      invariant kb0 <= kb && Within(kb, lits, e) && Entails(kb0, kb)
      invariant AllDistinct(kb0) ==> AllDistinct(kb) && Saturated(kb, offset)
      invariant Quiet(kb0) ==> kb == kb0
      decreases AllShapes(lits, e) - Shapes(kb)
    {
      ghost var before := kb;
      var emptyClause, news := Round(kb, offset, lits, e);
      if emptyClause {
        return false;
      }
      offset := |kb|;
      var nothingNew;
      kb, nothingNew := Unions(kb, news);
      AfterUnions(before, news, kb, kb0, lits, e);
      if AllDistinct(kb0) {
        NowSaturated(before, news, kb, lits, e);
      }
      if nothingNew {
        if AllDistinct(kb0) {
          SaturatedSatisfiable(kb);
          ghost var m :| SatisfiesNonEmpty(m, kb);
          assert SatisfiesNonEmpty(m, kb0);
        }
        return true;
      }
      NewShape(before, kb, lits, e);
    }
  }

  lemma StartWithin(kb: Sentence)
    ensures Within(kb, AllLiterals(kb), Length(kb)) && Saturated(kb, 0)
  {
    forall c | c in kb ensures Literals(c) <= AllLiterals(kb) && |c| <= Length(kb) {
      LengthBound(kb, c);
    }
  }

  lemma NewShape(kb: Sentence, kb': Sentence, lits: set<Literal>, e: nat)
    requires kb <= kb' && kb != kb' && Within(kb', lits, e) && forall c :: c in kb'[|kb|..] ==> !Known(c, kb)
    ensures AllShapes(lits, e) - Shapes(kb') < AllShapes(lits, e) - Shapes(kb)
  {
    var c := kb'[|kb|];
    assert c in kb'[|kb|..] && c in kb';
    WithinShapes(kb', lits, e);
    assert (|c|, Literals(c)) in Shapes(kb');
    forall d | d in kb ensures (|c|, Literals(c)) != (|d|, Literals(d)) {
      assert !SameSize(c, d);
    }
    forall d | d in kb ensures (|d|, Literals(d)) in Shapes(kb') {
      assert d in kb';
    }
  }

  lemma AfterUnions(kb: Sentence, news: Sentence, kb': Sentence, kb0: Sentence, lits: set<Literal>, e: nat)
    requires kb0 <= kb && Within(kb, lits, e) && Entails(kb0, kb) && RoundOk(kb, news, lits, e)
    requires kb <= kb' && forall c :: c in kb'[|kb|..] ==> c in news
    ensures Within(kb', lits, e) && Entails(kb0, kb')
    ensures AllDistinct(kb) ==> AllDistinct(kb')
    ensures Quiet(kb) ==> kb' == kb
  {
    assert kb' == kb + kb'[|kb|..];
    assert forall c :: c in kb' ==> c in kb || c in news;
    NoneFromNothing(kb'[|kb|..], news);
  }

  lemma NoneFromNothing(added: Sentence, news: Sentence)
    requires forall c :: c in added ==> c in news
    ensures news == [] ==> added == []
  {
    if added != [] {
      assert added[0] in added;
    }
  }

  // All pairs of the clauses of the round are settled.
  lemma NowSaturated(kb: Sentence, news: Sentence, kb': Sentence, lits: set<Literal>, e: nat)
    requires AllDistinct(kb) && AllDistinct(kb') && RoundOk(kb, news, lits, e) && kb <= kb'
    requires forall c :: c in news ==> Known(c, kb')
    requires forall a, b :: 0 <= a < b < |kb| ==> Settled(kb[a], kb[b], kb) || Settled(kb[a], kb[b], news)
    ensures Saturated(kb', |kb|)
  {
    forall c | c in news ensures Covered(c, kb') {
      KnownIsCovered(c, kb');
    }
    PrefixCovered(kb, kb');
    hide Settled, Covered;
    forall a, b | 0 <= a < b < |kb| ensures Settled(kb'[a], kb'[b], kb') {
      if Settled(kb[a], kb[b], kb) {
        SettledMonotone(kb[a], kb[b], kb, kb');
      } else {
        SettledMonotone(kb[a], kb[b], news, kb');
      }
    }
  }

  /** PL_RESOLUTION's answer is the satisfiability of the whole sentence exactly when the sentence has
      no empty clause or the answer is no. */
  lemma AnswerMeansSatisfiable(kb: Sentence)
    ensures ((exists m :: SatisfiesNonEmpty(m, kb)) <==> Satisfiable(kb))
       <==> ([] !in kb || !exists m :: SatisfiesNonEmpty(m, kb))
  {
    if [] !in kb {
      assert forall m :: SatisfiesNonEmpty(m, kb) <==> Satisfies(m, kb);
    } else {
      assert forall m :: !HoldsClause(m, []);
    }
    assert forall m :: Satisfies(m, kb) ==> SatisfiesNonEmpty(m, kb);
  }

  /** Without empty clauses the answer for duplicate-free clauses is satisfiability. */
  lemma NoEmptyClause(kb: Sentence)
    requires [] !in kb
    ensures (exists m :: SatisfiesNonEmpty(m, kb)) <==> Satisfiable(kb)
  {
    AnswerMeansSatisfiable(kb);
  }

  /** Why clauses must be free of duplicates: [p, p] and [not p, not p] have no common model, yet nothing
      but tautologies can be derived from them, so that PL_RESOLUTION says yes. */
  lemma DuplicatesHideRefutation(p: Literal)
    ensures var kb := [[p, p], [p.Opposite(), p.Opposite()]]; [] !in kb && !Satisfiable(kb) && Quiet(kb)
  {
    var c, d := [p, p], [p.Opposite(), p.Opposite()];
    forall m ensures !Satisfies(m, [c, d]) {
      assert c in [c, d] && d in [c, d];
      assert HoldsClause(m, c) ==> Holds(m, p);
      assert HoldsClause(m, d) ==> Holds(m, p.Opposite());
    }
    assert p.Opposite().Opposite() == p;
    forall x, y, r | x in [c, d] && y in [c, d] && IsResolvent(x, y, r) ensures Tautology(r) {
      var i: nat, j: nat :| FirstPair(x, y, i, j) && r == ResolveAt(x, y, i, j);
      assert x != y;
      var q := x[0];
      assert x == [q, q] && y == [q.Opposite(), q.Opposite()];
      assert Without(x, i) == [q] && Without(y, j) == [q.Opposite()];
      AddMissingLiterals([q], [q.Opposite()]);
      assert q in Literals(r) && q.Opposite() in Literals(r);
    }
  }

  /** The wrong answer itself. */
  method Misled(p: Literal) returns (sat: bool)
    ensures sat && !Satisfiable([[p, p], [p.Opposite(), p.Opposite()]])
  {
    DuplicatesHideRefutation(p);
    sat := PLResolution([[p, p], [p.Opposite(), p.Opposite()]]);
  }
}
