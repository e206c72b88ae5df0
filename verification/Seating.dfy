/** The wedding-seating instance of `csci561_hw3.cpp`: the encoder CNF_CONVERSION and its meaning. */
module Seating {
  import opened Clauses
  import Resolution

  const FRIENDS := 1
  const ENEMIES := -1

  lemma IndexInMatrix(M: nat, i: nat, j: nat)
    requires i < M && j < M
    ensures 0 <= i * M + j < M * M
  {
    assert i * M <= (M - 1) * M;
  }

  // Entry (i, j) of the relationship matrix R, stored row by row.
  function Relation(R: seq<int>, M: nat, i: nat, j: nat): int
    requires |R| == M * M && i < M && j < M
  {
    IndexInMatrix(M, i, j);
    R[i * M + j]
  }

  // ---------------------------------------------------------------------------------------------
  // What the constraints mean for a model

  ghost predicate SomeTable(m: Model, i: int, N: nat) {
    exists n :: 0 <= n < N && Atom(i, n) in m
  }

  ghost predicate NotBoth(m: Model, i: int, n: int, j: int, k: int) {
    !(Atom(i, n) in m && Atom(j, k) in m)
  }

  // Guest i is not at two tables, the lower of which is below n.
  ghost predicate OneTableBelow(m: Model, i: int, n: nat, N: nat) {
    forall a, k :: 0 <= a < n && a < k < N ==> NotBoth(m, i, a, i, k)
  }

  ghost predicate OneTable(m: Model, i: int, N: nat) {
    OneTableBelow(m, i, N, N)
  }

  ghost predicate SameAt(m: Model, i: int, j: int, n: int) {
    Atom(i, n) in m <==> Atom(j, n) in m
  }

  ghost predicate Together(m: Model, i: int, j: int, N: nat) {
    forall n :: 0 <= n < N ==> SameAt(m, i, j, n)
  }

  ghost predicate Apart(m: Model, i: int, j: int, N: nat) {
    forall n :: 0 <= n < N ==> NotBoth(m, i, n, j, n)
  }

  ghost predicate PairOk(m: Model, R: seq<int>, M: nat, N: nat, i: nat, j: nat, relation: int)
    requires |R| == M * M && i < M && j < M
  {
    Relation(R, M, i, j) == relation ==> if relation == FRIENDS then Together(m, i, j, N) else Apart(m, i, j, N)
  }

  ghost predicate PairsOk(m: Model, R: seq<int>, M: nat, N: nat, relation: int)
    requires |R| == M * M
  {
    forall i: nat, j: nat :: i <= j < M ==> PairOk(m, R, M, N, i, j, relation)
  }

  ghost predicate LegalModel(m: Model, R: seq<int>, M: nat, N: nat)
    requires |R| == M * M
  {
    && (forall i :: 0 <= i < M ==> SomeTable(m, i, N))
    && (forall i :: 0 <= i < M ==> OneTable(m, i, N))
    && PairsOk(m, R, M, N, FRIENDS)
    && PairsOk(m, R, M, N, ENEMIES)
  }

  // ---------------------------------------------------------------------------------------------
  // The encoder

  ghost predicate InRange(c: Clause, M: nat, N: nat) {
    forall l :: l in c ==> 0 <= l.guest < M && 0 <= l.seat < N
  }

  ghost predicate PairClause(c: Clause, M: nat, N: nat) {
    |c| == 2 && InRange(c, M, N)
  }

  lemma SatisfiesSnoc(cnf: Sentence, c: Clause)
    ensures forall m :: Satisfies(m, cnf + [c]) <==> Satisfies(m, cnf) && HoldsClause(m, c)
  {
    forall m ensures Satisfies(m, cnf + [c]) <==> Satisfies(m, cnf) && HoldsClause(m, c) {
      assert forall d :: d in cnf + [c] <==> d in cnf || d == c;
    }
  }

  lemma HoldsPair(m: Model, l1: Literal, l2: Literal)
    ensures HoldsClause(m, [l1, l2]) <==> Holds(m, l1) || Holds(m, l2)
  {
    assert l1 in [l1, l2] && l2 in [l1, l2];
  }

  method AddPair(cnf: Sentence, l1: Literal, l2: Literal) returns (cnf': Sentence)
    ensures forall m :: Satisfies(m, cnf') <==> Satisfies(m, cnf) && (Holds(m, l1) || Holds(m, l2))
    ensures cnf' == cnf + [[l1, l2]]
    ensures Resolution.AllDistinct(cnf) && l1 != l2 ==> Resolution.AllDistinct(cnf')
  {
    var clause := [];
    clause := clause + [l1];
    clause := clause + [l2];
    assert clause == [l1, l2];
    cnf' := cnf + [clause];
    SatisfiesSnoc(cnf, clause);
    forall m { HoldsPair(m, l1, l2); }
  }

  // Clause group (a), first half: every guest has a table.
  method SomeTableClauses(M: nat, N: nat) returns (cnf: Sentence)
    ensures forall m :: Satisfies(m, cnf) <==> forall i :: 0 <= i < M ==> SomeTable(m, i, N)
    ensures Resolution.AllDistinct(cnf)
    ensures |cnf| == M && forall c :: c in cnf ==> |c| == N && InRange(c, M, N)
  {
    cnf := [];
    for i := 0 to M
      invariant forall m :: Satisfies(m, cnf) <==> forall a :: 0 <= a < i ==> SomeTable(m, a, N)
      invariant Resolution.AllDistinct(cnf)
      invariant |cnf| == i && forall c :: c in cnf ==> |c| == N && InRange(c, M, N)
    {
      var clause: Clause := [];
      for n := 0 to N
        invariant |clause| == n && forall k :: 0 <= k < n ==> clause[k] == Literal(false, i, k)
      {
        clause := clause + [Literal(false, i, n)];
      }
      SatisfiesSnoc(cnf, clause);
      cnf := cnf + [clause];
      forall m ensures HoldsClause(m, clause) <==> SomeTable(m, i, N) {
        if SomeTable(m, i, N) {
          var n :| 0 <= n < N && Atom(i, n) in m;
          assert clause[n] in clause && Holds(m, clause[n]);
        }
      }
    }
  }

  // Clause group (a), second half: no guest has two tables.
  method OneTableClauses(M: nat, N: nat, cnf0: Sentence) returns (cnf: Sentence)
    requires Resolution.AllDistinct(cnf0)
    ensures forall m :: Satisfies(m, cnf) <==> Satisfies(m, cnf0) && forall i :: 0 <= i < M ==> OneTable(m, i, N)
    ensures Resolution.AllDistinct(cnf)
    ensures cnf0 <= cnf && (forall c :: c in cnf[|cnf0|..] ==> PairClause(c, M, N)) && (N == 0 ==> cnf == cnf0)
  {
    cnf := cnf0;
    for i := 0 to M
      invariant forall m :: Satisfies(m, cnf) <==> Satisfies(m, cnf0) && forall a :: 0 <= a < i ==> OneTable(m, a, N)
      invariant Resolution.AllDistinct(cnf)
      invariant cnf0 <= cnf && (forall c :: c in cnf[|cnf0|..] ==> PairClause(c, M, N)) && (N == 0 ==> cnf == cnf0)
    {
      ghost var row := cnf;
      for n := 0 to N
        invariant forall m :: Satisfies(m, cnf) <==> Satisfies(m, row) && OneTableBelow(m, i, n, N)
        invariant Resolution.AllDistinct(cnf)
        invariant cnf0 <= cnf && (forall c :: c in cnf[|cnf0|..] ==> PairClause(c, M, N)) && (N == 0 ==> cnf == cnf0)
      {
        ghost var start := cnf;
        for k := n + 1 to N
          invariant forall m :: Satisfies(m, cnf) <==> Satisfies(m, start) && forall b :: n < b < k ==> NotBoth(m, i, n, i, b)
          invariant Resolution.AllDistinct(cnf)
          invariant cnf0 <= cnf && (forall c :: c in cnf[|cnf0|..] ==> PairClause(c, M, N)) && (N == 0 ==> cnf == cnf0)
        {
          cnf := AddPair(cnf, Literal(true, i, n), Literal(true, i, k));
          assert forall m :: Holds(m, Literal(true, i, n)) || Holds(m, Literal(true, i, k)) <==> NotBoth(m, i, n, i, k);
        }
      }
      assert forall m :: OneTable(m, i, N) <==> OneTableBelow(m, i, N, N);
    }
  }

  // Clause group (b) for one pair of guests.
  method FriendClauses(i: nat, j: nat, ghost M: nat, N: nat, cnf0: Sentence) returns (cnf: Sentence)
    requires i < M && j < M
    requires Resolution.AllDistinct(cnf0)
    ensures forall m :: Satisfies(m, cnf) <==> Satisfies(m, cnf0) && Together(m, i, j, N)
    ensures Resolution.AllDistinct(cnf)
    ensures cnf0 <= cnf && (forall c :: c in cnf[|cnf0|..] ==> PairClause(c, M, N)) && (N == 0 ==> cnf == cnf0)
  {
    cnf := cnf0;
    for n := 0 to N
      invariant forall m :: Satisfies(m, cnf) <==> Satisfies(m, cnf0) && forall b :: 0 <= b < n ==> SameAt(m, i, j, b)
      invariant Resolution.AllDistinct(cnf)
      invariant cnf0 <= cnf && (forall c :: c in cnf[|cnf0|..] ==> PairClause(c, M, N)) && (N == 0 ==> cnf == cnf0)
    {
      cnf := AddPair(cnf, Literal(true, i, n), Literal(false, j, n));
      cnf := AddPair(cnf, Literal(true, j, n), Literal(false, i, n));
      assert forall m :: SameAt(m, i, j, n) <==>
        (Holds(m, Literal(true, i, n)) || Holds(m, Literal(false, j, n))) && (Holds(m, Literal(true, j, n)) || Holds(m, Literal(false, i, n)));
    }
  }

  // Clause group (c) for one pair of guests.
  method EnemyClauses(i: nat, j: nat, ghost M: nat, N: nat, cnf0: Sentence) returns (cnf: Sentence)
    requires i < M && j < M
    ensures forall m :: Satisfies(m, cnf) <==> Satisfies(m, cnf0) && Apart(m, i, j, N)
    ensures Resolution.AllDistinct(cnf0) && i != j ==> Resolution.AllDistinct(cnf)
    ensures cnf0 <= cnf && (forall c :: c in cnf[|cnf0|..] ==> PairClause(c, M, N)) && (N == 0 ==> cnf == cnf0)
  {
    cnf := cnf0;
    for n := 0 to N
      invariant forall m :: Satisfies(m, cnf) <==> Satisfies(m, cnf0) && forall b :: 0 <= b < n ==> NotBoth(m, i, b, j, b)
      invariant Resolution.AllDistinct(cnf0) && i != j ==> Resolution.AllDistinct(cnf)
      invariant cnf0 <= cnf && (forall c :: c in cnf[|cnf0|..] ==> PairClause(c, M, N)) && (N == 0 ==> cnf == cnf0)
    {
      cnf := AddPair(cnf, Literal(true, i, n), Literal(true, j, n));
      assert forall m :: Holds(m, Literal(true, i, n)) || Holds(m, Literal(true, j, n)) <==> NotBoth(m, i, n, j, n);
    }
  }

  method FriendGroup(R: seq<int>, M: nat, N: nat, cnf0: Sentence) returns (cnf: Sentence)
    requires |R| == M * M
    requires Resolution.AllDistinct(cnf0)
    ensures forall m :: Satisfies(m, cnf) <==> Satisfies(m, cnf0) && PairsOk(m, R, M, N, FRIENDS)
    ensures Resolution.AllDistinct(cnf)
    ensures cnf0 <= cnf && (forall c :: c in cnf[|cnf0|..] ==> PairClause(c, M, N)) && (N == 0 ==> cnf == cnf0)
  {
    cnf := cnf0;
    for i := 0 to M
      invariant forall m :: (Satisfies(m, cnf) <==>
        Satisfies(m, cnf0) && forall a: nat, b: nat :: a < i && a <= b < M ==> PairOk(m, R, M, N, a, b, FRIENDS))
      invariant Resolution.AllDistinct(cnf)
      invariant cnf0 <= cnf && (forall c :: c in cnf[|cnf0|..] ==> PairClause(c, M, N)) && (N == 0 ==> cnf == cnf0)
    {
      ghost var row := cnf;
      for j := i to M
        invariant forall m :: (Satisfies(m, cnf) <==>
          Satisfies(m, row) && forall b: nat :: i <= b < j ==> PairOk(m, R, M, N, i, b, FRIENDS))
        invariant Resolution.AllDistinct(cnf)
        invariant cnf0 <= cnf && (forall c :: c in cnf[|cnf0|..] ==> PairClause(c, M, N)) && (N == 0 ==> cnf == cnf0)
      {
        IndexInMatrix(M, i, j);
        if R[i * M + j] == 1 {
          cnf := FriendClauses(i, j, M, N, cnf);
        }
        assert forall m :: PairOk(m, R, M, N, i, j, FRIENDS) <==> (R[i * M + j] == 1 ==> Together(m, i, j, N));
      }
    }
  }

  method EnemyGroup(R: seq<int>, M: nat, N: nat, cnf0: Sentence) returns (cnf: Sentence)
    requires |R| == M * M
    ensures forall m :: Satisfies(m, cnf) <==> Satisfies(m, cnf0) && PairsOk(m, R, M, N, ENEMIES)
    ensures Resolution.AllDistinct(cnf0) && NoSelfEnemy(R, M) ==> Resolution.AllDistinct(cnf)
    ensures cnf0 <= cnf && (forall c :: c in cnf[|cnf0|..] ==> PairClause(c, M, N)) && (N == 0 ==> cnf == cnf0)
  {
    cnf := cnf0;
    for i := 0 to M
      invariant forall m :: (Satisfies(m, cnf) <==>
        Satisfies(m, cnf0) && forall a: nat, b: nat :: a < i && a <= b < M ==> PairOk(m, R, M, N, a, b, ENEMIES))
      invariant Resolution.AllDistinct(cnf0) && NoSelfEnemy(R, M) ==> Resolution.AllDistinct(cnf)
      invariant cnf0 <= cnf && (forall c :: c in cnf[|cnf0|..] ==> PairClause(c, M, N)) && (N == 0 ==> cnf == cnf0)
    {
      ghost var row := cnf;
      for j := i to M
        invariant forall m :: (Satisfies(m, cnf) <==>
          Satisfies(m, row) && forall b: nat :: i <= b < j ==> PairOk(m, R, M, N, i, b, ENEMIES))
        invariant Resolution.AllDistinct(cnf0) && NoSelfEnemy(R, M) ==> Resolution.AllDistinct(cnf)
        invariant cnf0 <= cnf && (forall c :: c in cnf[|cnf0|..] ==> PairClause(c, M, N)) && (N == 0 ==> cnf == cnf0)
      {
        IndexInMatrix(M, i, j);
        if R[i * M + j] == -1 {
          assert NoSelfEnemy(R, M) ==> Relation(R, M, i, i) != ENEMIES;
          cnf := EnemyClauses(i, j, M, N, cnf);
        }
        assert forall m :: PairOk(m, R, M, N, i, j, ENEMIES) <==> (R[i * M + j] == -1 ==> Apart(m, i, j, N));
      }
    }
  }

  // The diagonal of R is never written, so in the program it is zero.
  ghost predicate NoSelfEnemy(R: seq<int>, M: nat)
    requires |R| == M * M
  {
    forall i: nat :: i < M ==> Relation(R, M, i, i) != ENEMIES
  }

  /** CNF_CONVERSION: for every relationship matrix the models of the sentence are exactly the legal
      ones. */
  method CnfConversion(R: seq<int>, M: nat, N: nat) returns (cnf: Sentence)
    requires |R| == M * M
    ensures forall m :: Satisfies(m, cnf) <==> LegalModel(m, R, M, N)
    ensures NoSelfEnemy(R, M) ==> Resolution.AllDistinct(cnf)
    ensures EncodedShape(cnf, M, N)
    ensures N == 0 ==> |cnf| == M && forall c :: c in cnf ==> c == []
  {
    cnf := SomeTableClauses(M, N);
    ghost var cnf1 := cnf;
    cnf := OneTableClauses(M, N, cnf);
    ghost var cnf2 := cnf;
    ExtendShape(cnf1, cnf2, M, N);
    cnf := FriendGroup(R, M, N, cnf);
    ghost var cnf3 := cnf;
    ExtendShape(cnf2, cnf3, M, N);
    cnf := EnemyGroup(R, M, N, cnf);
    ExtendShape(cnf3, cnf, M, N);
  }

  ghost predicate EncodedShape(cnf: Sentence, M: nat, N: nat) {
    forall c :: c in cnf ==> (|c| == N || |c| == 2) && InRange(c, M, N)
  }

  lemma ExtendShape(cnf: Sentence, cnf': Sentence, M: nat, N: nat)
    requires EncodedShape(cnf, M, N)
    requires cnf <= cnf' && forall c :: c in cnf'[|cnf|..] ==> PairClause(c, M, N)
    ensures EncodedShape(cnf', M, N)
  {
    assert cnf' == cnf + cnf'[|cnf|..];
  }

  // ---------------------------------------------------------------------------------------------
  // Seatings

  // A table for every guest: friends share one, enemies do not.
  ghost predicate LegalSeating(s: seq<nat>, R: seq<int>, M: nat, N: nat)
    requires |R| == M * M
  {
    && |s| == M
    && (forall i :: 0 <= i < M ==> s[i] < N)
    && (forall i: nat, j: nat :: i < j < M && Relation(R, M, i, j) == FRIENDS ==> s[i] == s[j])
    && (forall i: nat, j: nat :: i < j < M && Relation(R, M, i, j) == ENEMIES ==> s[i] != s[j])
  }

  // m seats every guest where s does.
  ghost predicate Agrees(m: Model, s: seq<nat>, N: nat) {
    forall i, n :: 0 <= i < |s| && 0 <= n < N ==> (Atom(i, n) in m <==> s[i] == n)
  }

  /** A legal model is a legal seating written in atoms, and nothing else is. */
  lemma LegalModelsAreSeatings(m: Model, R: seq<int>, M: nat, N: nat)
    requires |R| == M * M && NoSelfEnemy(R, M)
    ensures LegalModel(m, R, M, N) <==> exists s :: LegalSeating(s, R, M, N) && Agrees(m, s, N)
  {
    if LegalModel(m, R, M, N) {
      var s := ReadSeating(m, R, M, N);
    }
    if exists s :: LegalSeating(s, R, M, N) && Agrees(m, s, N) {
      var s :| LegalSeating(s, R, M, N) && Agrees(m, s, N);
      forall i | 0 <= i < M ensures SomeTable(m, i, N) {
        assert Atom(i, s[i]) in m;
      }
      forall i: nat, j: nat | i <= j < M ensures PairOk(m, R, M, N, i, j, ENEMIES) {
        assert i == j ==> Relation(R, M, i, i) != ENEMIES;
      }
    }
  }

  lemma ReadSeating(m: Model, R: seq<int>, M: nat, N: nat) returns (s: seq<nat>)
    requires |R| == M * M && LegalModel(m, R, M, N)
    ensures LegalSeating(s, R, M, N) && Agrees(m, s, N)
  {
    s := [];
    for i := 0 to M
      invariant |s| == i
      invariant forall a :: 0 <= a < i ==> s[a] < N && Atom(a, s[a]) in m
    {
      assert SomeTable(m, i, N);
      var n: nat :| n < N && Atom(i, n) in m;
      s := s + [n];
    }
    forall i, n | 0 <= i < M && 0 <= n < N ensures Atom(i, n) in m <==> s[i] == n {
      assert OneTable(m, i, N);
      assert n < s[i] ==> NotBoth(m, i, n, i, s[i]);
      assert s[i] < n ==> NotBoth(m, i, s[i], i, n);
    }
    forall i: nat, j: nat | i < j < M && Relation(R, M, i, j) == FRIENDS ensures s[i] == s[j] {
      assert PairOk(m, R, M, N, i, j, FRIENDS) && SameAt(m, i, j, s[i]);
    }
    forall i: nat, j: nat | i < j < M && Relation(R, M, i, j) == ENEMIES ensures s[i] != s[j] {
      assert PairOk(m, R, M, N, i, j, ENEMIES) && NotBoth(m, i, s[i], j, s[i]);
    }
  }

  lemma SeatingHasModel(s: seq<nat>, N: nat) returns (m: Model)
    requires forall i :: 0 <= i < |s| ==> s[i] < N
    ensures Agrees(m, s, N)
  {
    m := set i | 0 <= i < |s| :: Atom(i, s[i]);
  }

  /** Encoding and resolution together, as an experiment runs them: with at least one table, the
      answer is whether the guests can be seated.  With no table at all every clause of group (a) is
      empty, resolution never looks at an empty clause, and the answer is always yes. */
  method DecideSeating(R: seq<int>, M: nat, N: nat) returns (sat: bool)
    requires |R| == M * M && NoSelfEnemy(R, M)
    ensures sat <==> N == 0 || exists s :: LegalSeating(s, R, M, N)
  {
    var cnf := CnfConversion(R, M, N);
    sat := Resolution.PLResolution(cnf);
    if N == 0 {
      assert SatisfiesNonEmpty({}, cnf);
    } else {
      assert forall c :: c in cnf ==> c != [];
      forall m ensures SatisfiesNonEmpty(m, cnf) <==> LegalModel(m, R, M, N) {
        assert SatisfiesNonEmpty(m, cnf) <==> Satisfies(m, cnf);
      }
      if sat {
        ghost var m :| SatisfiesNonEmpty(m, cnf);
        LegalModelsAreSeatings(m, R, M, N);
      }
      if s :| LegalSeating(s, R, M, N) {
        ghost var m := SeatingHasModel(s, N);
        LegalModelsAreSeatings(m, R, M, N);
        assert SatisfiesNonEmpty(m, cnf);
      }
    }
  }
}
