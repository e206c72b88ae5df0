/** Propositional clauses over the seating atoms X(guest, seat), as `csci561_hw3.cpp` stores them:
    a clause is a vector of literals, a sentence a vector of clauses.  A model is the set of the
    atoms that are true in it. */
module Clauses {
  datatype Atom = Atom(guest: int, seat: int)

  datatype Literal = Literal(negative: bool, guest: int, seat: int) {
    function AtomOf(): Atom {
      Atom(guest, seat)
    }

    // The literal of the same atom and the opposite sign.
    function Opposite(): Literal {
      Literal(!negative, guest, seat)
    }
  }

  type Clause = seq<Literal>
  type Sentence = seq<Clause>
  type Model = set<Atom>

  predicate Resolvable(l1: Literal, l2: Literal) {
    l1.guest == l2.guest && l1.seat == l2.seat && l1.negative != l2.negative
  }

  predicate Holds(m: Model, l: Literal) {
    (l.AtomOf() in m) != l.negative
  }

  predicate HoldsClause(m: Model, c: Clause) {
    exists l :: l in c && Holds(m, l)
  }

  ghost predicate Satisfies(m: Model, kb: Sentence) {
    forall c :: c in kb ==> HoldsClause(m, c)
  }

  ghost predicate Satisfiable(kb: Sentence) {
    exists m :: Satisfies(m, kb)
  }

  // Like Satisfies, but blind to empty clauses, which resolution never looks at.
  ghost predicate SatisfiesNonEmpty(m: Model, kb: Sentence) {
    forall c :: c in kb && c != [] ==> HoldsClause(m, c)
  }

  ghost predicate Tautology(c: Clause) {
    exists l :: l in c && l.Opposite() in c
  }

  ghost predicate Distinct(c: Clause) {
    forall i, j :: 0 <= i < j < |c| ==> c[i] != c[j]
  }

  ghost function Literals(c: Clause): set<Literal> {
    set l | l in c
  }

  // What `sameClause` decides.
  ghost predicate SameSize(c1: Clause, c2: Clause) {
    |c1| == |c2| && Literals(c1) <= Literals(c2)
  }

  ghost predicate Known(c: Clause, kb: Sentence) {
    exists d :: d in kb && SameSize(c, d)
  }

  ghost predicate Covered(c: Clause, kb: Sentence) {
    exists d :: d in kb && Literals(d) == Literals(c)
  }

  lemma LiteralsSize(c: Clause)
    ensures |Literals(c)| <= |c|
    ensures Distinct(c) ==> |Literals(c)| == |c|
  {
    if c == [] {
    } else {
      var d := c[..|c| - 1];
      LiteralsSize(d);
      assert c == d + [c[|c| - 1]];
      assert Literals(c) == Literals(d) + {c[|c| - 1]};
    }
  }

  lemma SubsetSameSize<T>(a: set<T>, b: set<T>)
    requires a <= b && |b| <= |a|
    ensures a == b
  {
    assert |b - a| == |b| - |a|;
  }

  // On duplicate-free clauses the length-and-containment test decides equality of literal sets.
  lemma SameSizeIsSetEquality(c1: Clause, c2: Clause)
    requires Distinct(c1) && Distinct(c2)
    ensures SameSize(c1, c2) <==> Literals(c1) == Literals(c2)
  {
    LiteralsSize(c1);
    LiteralsSize(c2);
    if SameSize(c1, c2) {
      SubsetSameSize(Literals(c1), Literals(c2));
    }
  }
}
