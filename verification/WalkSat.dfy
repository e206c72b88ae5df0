/** WALK_SAT of `csci561_hw3.cpp`: local search over an array of truth values, flipped in place.
    Every random choice is left open. */
module WalkSat {
  import opened Clauses
  import opened Seating

  ghost predicate WellFormed(clauses: Sentence, M: nat, N: nat) {
    forall c :: c in clauses ==> c != [] && InRange(c, M, N)
  }

  lemma CellInRange(M: nat, N: nat, i: nat, n: nat)
    requires i < M && n < N
    ensures 0 <= i * N + n < M * N
  {
    assert i * N <= (M - 1) * N;
  }

  function Cell(M: nat, N: nat, i: int, n: int): nat
    requires 0 <= i < M && 0 <= n < N
    ensures Cell(M, N, i, n) < M * N
  {
    CellInRange(M, N, i, n);
    i * N + n
  }

  // The set of true atoms that the array stands for.
  ghost function ModelOf(a: seq<bool>, M: nat, N: nat): Model
    requires |a| == M * N
  {
    set i, n | 0 <= i < M && 0 <= n < N && a[Cell(M, N, i, n)] :: Atom(i, n)
  }

  ghost function Count(m: Model, clauses: Sentence): nat {
    if clauses == [] then 0
    else Count(m, clauses[..|clauses| - 1]) + if HoldsClause(m, clauses[|clauses| - 1]) then 1 else 0
  }

  // The model with the truth value of atom a inverted.
  ghost function Flipped(m: Model, a: Atom): Model {
    if a in m then m - {a} else m + {a}
  }

  lemma {:induction false} CountPositive(m: Model, clauses: Sentence, c: Clause)
    requires c in clauses && HoldsClause(m, c)
    ensures Count(m, clauses) > 0
  {
    var n := |clauses| - 1;
    if clauses[n] != c {
      assert clauses == clauses[..n] + [clauses[n]];
      CountPositive(m, clauses[..n], c);
    }
  }

  lemma FlipSatisfies(m: Model, c: Clause, l: Literal)
    requires l in c && !HoldsClause(m, c)
    ensures HoldsClause(Flipped(m, l.AtomOf()), c)
  {
    assert !Holds(m, l);
    assert Holds(Flipped(m, l.AtomOf()), l);
  }

  lemma MultipleBound(k: int, N: nat)
    ensures k >= 1 ==> k * N >= N
    ensures k <= -1 ==> k * N + N <= 0
  {
  }

  lemma CellInjective(M: nat, N: nat, i: int, n: int, i': int, n': int)
    requires 0 <= i < M && 0 <= n < N && 0 <= i' < M && 0 <= n' < N
    requires Cell(M, N, i, n) == Cell(M, N, i', n')
    ensures i == i' && n == n'
  {
    assert (i' - i) * N == n - n';
    MultipleBound(i' - i, N);
  }

  method Flip(model: array<bool>, ghost M: nat, N: nat, i: nat, n: nat)
    requires model.Length == M * N && i < M && n < N
    modifies model
    ensures ModelOf(model[..], M, N) == Flipped(old(ModelOf(model[..], M, N)), Atom(i, n))
    ensures model[..] == old(model[..])[Cell(M, N, i, n) := !old(model[..])[Cell(M, N, i, n)]]
  {
    CellInRange(M, N, i, n);
    var index := i * N + n;
    if model[index] == true {
      model[index] := false;
    } else {
      model[index] := true;
    }
    assert model[..] == old(model[..])[index := !old(model[..])[index]];
    forall a, b | 0 <= a < M && 0 <= b < N && Cell(M, N, a, b) == index ensures a == i && b == n {
      CellInjective(M, N, a, b, i, n);
    }
  }

  method LiteralHolds(model: array<bool>, ghost M: nat, N: nat, l: Literal) returns (holds: bool)
    requires model.Length == M * N && 0 <= l.guest < M && 0 <= l.seat < N
    ensures holds == Holds(ModelOf(model[..], M, N), l)
  {
    CellInRange(M, N, l.guest, l.seat);
    var index := l.guest * N + l.seat;
    assert index == Cell(M, N, l.guest, l.seat);
    holds := if !l.negative then model[index] == true else model[index] == false;
  }

  // Whether all clauses hold; if not, an arbitrary one that does not.
  method Satisfy(model: array<bool>, ghost M: nat, N: nat, clauses: Sentence)
    returns (isSatisfy: bool, clauseNotSatisfy: Clause)
    requires model.Length == M * N && WellFormed(clauses, M, N)
    ensures isSatisfy <==> Satisfies(ModelOf(model[..], M, N), clauses)
    ensures !isSatisfy ==> clauseNotSatisfy in clauses && !HoldsClause(ModelOf(model[..], M, N), clauseNotSatisfy)
  {
    ghost var m := ModelOf(model[..], M, N);
    isSatisfy, clauseNotSatisfy := true, [];
    var failing: seq<int> := [];
    for clauseIndex := 0 to |clauses|
      invariant forall k :: 0 <= k < |failing| ==> 0 <= failing[k] < clauseIndex && !HoldsClause(m, clauses[failing[k]])
      invariant isSatisfy <==> failing == []
      invariant failing == [] ==> forall c :: c in clauses[..clauseIndex] ==> HoldsClause(m, c)
    {
      var clause := clauses[clauseIndex];
      var numNotSatisfy := 0;
      var k := 0;
      while k < |clause|
        invariant 0 <= k == numNotSatisfy <= |clause|
        invariant forall l :: l in clause[..k] ==> !Holds(m, l)
      {
        assert clause in clauses && clause[k] in clause;
        var holds := LiteralHolds(model, M, N, clause[k]);
        if holds {
          break;
        }
        numNotSatisfy := numNotSatisfy + 1;
        k := k + 1;
      }
      if numNotSatisfy == |clause| {
        assert clause[..k] == clause;
        isSatisfy := false;
        failing := failing + [clauseIndex];
      } else {
        assert clause[k] in clause && Holds(m, clause[k]);
      }
    }
    if |failing| != 0 {
      var rands :| 0 <= rands < |failing|;
      clauseNotSatisfy := clauses[failing[rands]];
    }
  }

  method CountSatisfy(model: array<bool>, ghost M: nat, N: nat, clauses: Sentence) returns (numSatisfy: int)
    requires model.Length == M * N && WellFormed(clauses, M, N)
    ensures numSatisfy == Count(ModelOf(model[..], M, N), clauses)
  {
    ghost var m := ModelOf(model[..], M, N);
    numSatisfy := 0;
    for c := 0 to |clauses|
      invariant numSatisfy == Count(m, clauses[..c])
    {
      var clause := clauses[c];
      assert clauses[..c + 1][..c] == clauses[..c];
      ghost var found := false;
      var k := 0;
      while k < |clause|
        invariant 0 <= k <= |clause| && !found
        invariant numSatisfy == Count(m, clauses[..c])
        invariant forall l :: l in clause[..k] ==> !Holds(m, l)
      {
        assert clause in clauses && clause[k] in clause;
        var holds := LiteralHolds(model, M, N, clause[k]);
        if holds {
          numSatisfy := numSatisfy + 1;
          found := true;
          break;
        }
        k := k + 1;
      }
      assert found ==> clause[k] in clause && Holds(m, clause[k]);
      assert !found ==> clause[..k] == clause;
    }
    assert clauses[..|clauses|] == clauses;
  }

  // A literal of the clause whose flip satisfies the most clauses, the first one on ties.
  ghost predicate Best(m: Model, clauses: Sentence, failing: Clause, k: nat) {
    && k < |failing|
    && (forall j :: 0 <= j < |failing| ==>
          Count(Flipped(m, failing[j].AtomOf()), clauses) <= Count(Flipped(m, failing[k].AtomOf()), clauses))
    && (forall j :: 0 <= j < k ==>
          Count(Flipped(m, failing[j].AtomOf()), clauses) < Count(Flipped(m, failing[k].AtomOf()), clauses))
  }

  // The min-conflicts step.
  method BestLiteral(model: array<bool>, ghost M: nat, N: nat, clauses: Sentence, failing: Clause)
    returns (best: nat)
    requires model.Length == M * N && WellFormed(clauses, M, N)
    requires failing in clauses && !HoldsClause(ModelOf(model[..], M, N), failing)
    modifies model
    ensures model[..] == old(model[..])
    ensures Best(ModelOf(model[..], M, N), clauses, failing, best)
  {
    ghost var start := model[..];
    ghost var m := ModelOf(start, M, N);
    best := 0;
    var currentMaxSatisfy := 0;
    for it := 0 to |failing|
      invariant model[..] == start
      invariant it == 0 ==> currentMaxSatisfy == 0
      invariant it > 0 ==> best < it && currentMaxSatisfy == Count(Flipped(m, failing[best].AtomOf()), clauses)
      invariant forall k :: 0 <= k < it ==> Count(Flipped(m, failing[k].AtomOf()), clauses) <= currentMaxSatisfy
      invariant it > 0 ==> forall k :: 0 <= k < best ==> Count(Flipped(m, failing[k].AtomOf()), clauses) < currentMaxSatisfy
    {
      assert failing[it] in failing;
      Flip(model, M, N, failing[it].guest, failing[it].seat);
      var count := CountSatisfy(model, M, N, clauses);
      FlipSatisfies(m, failing, failing[it]);
      CountPositive(Flipped(m, failing[it].AtomOf()), clauses, failing);
      if count > currentMaxSatisfy {
        currentMaxSatisfy := count;
        best := it;
      }
      Flip(model, M, N, failing[it].guest, failing[it].seat);
      assert model[..] == start;
    }
  }

  // One round: an atom of a failing clause is flipped, in a min-conflicts step the best one.
  ghost predicate Flips(m: Model, m': Model, clauses: Sentence, minConflicts: bool) {
    exists c: Clause, k: nat :: c in clauses && !HoldsClause(m, c) && k < |c| && m' == Flipped(m, c[k].AtomOf())
      && (minConflicts ==> Best(m, clauses, c, k))
  }

  // The models visited one after the other, none of which but the last may satisfy the clauses.
  ghost predicate Walk(models: seq<Model>, clauses: Sentence, steps: seq<bool>) {
    && 0 < |models| <= |steps| + 1
    && forall k :: 0 <= k < |models| - 1 ==>
         !Satisfies(models[k], clauses) && Flips(models[k], models[k + 1], clauses, steps[k])
  }

  lemma WalkOn(models: seq<Model>, clauses: Sentence, steps: seq<bool>, c: Clause, k: nat)
    requires Walk(models, clauses, steps) && |models| <= |steps|
    requires var m := models[|models| - 1];
      c in clauses && !HoldsClause(m, c) && k < |c| && (steps[|models| - 1] ==> Best(m, clauses, c, k))
    ensures Walk(models + [Flipped(models[|models| - 1], c[k].AtomOf())], clauses, steps)
  {
    hide HoldsClause, Flipped, Best;
    var m := models[|models| - 1];
    var m' := Flipped(m, c[k].AtomOf());
    assert Flips(m, m', clauses, steps[|models| - 1]);
    assert !Satisfies(m, clauses);
  }

  /** WALK_SAT, for any initial model, any choice of failing clauses and any outcome of the coin, which says for each
      round whether it is a min-conflicts step: it stops at the first model that satisfies all clauses, and
      answers with the number of flips made; -1 means that the initial model and all those after up to
      maxFlips flips fail. */
  method WalkSat(model: array<bool>, M: nat, N: nat, clauses: Sentence, maxFlips: int, steps: seq<bool>)
    returns (flips: int, ghost models: seq<Model>)
    requires model.Length == M * N && WellFormed(clauses, M, N) && |steps| == if maxFlips < 0 then 0 else maxFlips + 1
    modifies model
    ensures Walk(models, clauses, steps) && models[|models| - 1] == ModelOf(model[..], M, N)
    ensures if flips == -1 then |models| == |steps| + 1 else 0 <= flips <= maxFlips && |models| == flips + 1
    ensures flips != -1 ==> Satisfies(ModelOf(model[..], M, N), clauses)
  {
    hide HoldsClause, Satisfies, Flipped, Best, ModelOf;
    for k := 0 to model.Length {
      model[k] := *;
    }
    models := [ModelOf(model[..], M, N)];
    var i := 0;
    while i <= maxFlips
      invariant 0 <= i <= |steps|
      invariant |models| == i + 1 && models[i] == ModelOf(model[..], M, N) && Walk(models, clauses, steps)
    {
      var done, failing := Satisfy(model, M, N, clauses);
      if done {
        return i, models;
      }
      ghost var m := ModelOf(model[..], M, N);
      var chosen: nat;
      if steps[i] {
        chosen := BestLiteral(model, M, N, clauses, failing);
      } else {
        chosen :| chosen < |failing|;
      }
      assert failing[chosen] in failing;
      WalkOn(models, clauses, steps, failing, chosen);
      Flip(model, M, N, failing[chosen].guest, failing[chosen].seat);
      models := models + [ModelOf(model[..], M, N)];
      i := i + 1;
    }
    flips := -1;
  }

  /** Encoding and local search together: an answer other than -1 is a legal seating, the first that the search came
      by; with -1 none of the models before the last flip stood for one. */
  method SearchSeating(R: seq<int>, M: nat, N: nat, maxFlips: int, steps: seq<bool>)
    returns (flips: int, model: array<bool>, ghost models: seq<Model>)
    requires |R| == M * M && NoSelfEnemy(R, M) && N > 0 && |steps| == if maxFlips < 0 then 0 else maxFlips + 1
    ensures model.Length == M * N && models != [] && models[|models| - 1] == ModelOf(model[..], M, N)
    ensures if flips == -1 then |models| == |steps| + 1 else 0 <= flips <= maxFlips && |models| == flips + 1
    ensures flips != -1 ==> exists s :: LegalSeating(s, R, M, N) && Agrees(ModelOf(model[..], M, N), s, N)
    ensures forall k :: 0 <= k < |models| - 1 ==> !exists s :: LegalSeating(s, R, M, N) && Agrees(models[k], s, N)
  {
    model := new bool[M * N];
    var cnf := CnfConversion(R, M, N);
    flips, models := WalkSat(model, M, N, cnf, maxFlips, steps);
    LegalModelsAreSeatings(ModelOf(model[..], M, N), R, M, N);
    forall k | 0 <= k < |models| - 1 ensures !exists s :: LegalSeating(s, R, M, N) && Agrees(models[k], s, N) {
      LegalModelsAreSeatings(models[k], R, M, N);
    }
  }
}
