/** The uniform-cost search of `CS561-HW1/csci561_hw1.cpp`, with its sorted open list and its closed list. */
module UniformCost {
  // graph_arc, with the cost that is searched for; nodes are known by name
  datatype Arc = Arc(to: nat, cost: int)
  type Graph = map<nat, seq<Arc>>

  // fcost
  datatype Entry = Entry(name: nat, cost: int)

  // Arcs lead to nodes of the graph, cost nothing negative, and do not return to their own node.
  ghost predicate GraphOk(g: Graph) {
    forall x, i :: x in g && 0 <= i < |g[x]| ==> g[x][i].to in g && g[x][i].cost >= 0 && g[x][i].to != x
  }

  // ---------------------------------------------------------------------------------------------
  // Walks and distances

  function EndOf(start: nat, walk: seq<Arc>): nat {
    if walk == [] then start else walk[|walk| - 1].to
  }

  ghost predicate IsWalk(g: Graph, start: nat, walk: seq<Arc>) {
    start in g &&
    (walk == [] ||
     (IsWalk(g, start, walk[..|walk| - 1]) && EndOf(start, walk[..|walk| - 1]) in g
      && walk[|walk| - 1] in g[EndOf(start, walk[..|walk| - 1])]))
  }

  function CostOf(walk: seq<Arc>): int {
    if walk == [] then 0 else CostOf(walk[..|walk| - 1]) + walk[|walk| - 1].cost
  }

  // Some walk from start to x costs c.
  ghost predicate Achieved(g: Graph, start: nat, x: nat, c: int) {
    exists walk :: IsWalk(g, start, walk) && EndOf(start, walk) == x && CostOf(walk) == c
  }

  // c is the least cost of a walk from start to x.
  ghost predicate IsDistance(g: Graph, start: nat, x: nat, c: int) {
    Achieved(g, start, x, c) &&
    forall walk :: IsWalk(g, start, walk) && EndOf(start, walk) == x ==> c <= CostOf(walk)
  }

  lemma Extend(g: Graph, start: nat, x: nat, c: int, a: Arc)
    requires Achieved(g, start, x, c) && x in g && a in g[x]
    ensures Achieved(g, start, a.to, c + a.cost)
  {
    var walk :| IsWalk(g, start, walk) && EndOf(start, walk) == x && CostOf(walk) == c;
    assert (walk + [a])[..|walk|] == walk;
    assert IsWalk(g, start, walk + [a]);
  }

  // ---------------------------------------------------------------------------------------------
  // The lists

  ghost predicate Sorted(s: seq<Entry>) {
    forall i, j :: 0 <= i < j < |s| ==> s[i].cost <= s[j].cost
  }

  ghost predicate Once(s: seq<Entry>) {
    forall i, j :: 0 <= i < j < |s| ==> s[i].name != s[j].name
  }

  ghost predicate Has(s: seq<Entry>, x: nat) {
    exists i :: 0 <= i < |s| && s[i].name == x
  }

  // exist_list
  method ExistList(s: seq<Entry>, target: nat) returns (r: bool)
    ensures r <==> Has(s, target)
  {
    for i := 0 to |s|
      invariant forall k :: 0 <= k < i ==> s[k].name != target
    {
      if s[i].name == target {
        return true;
      }
    }
    return false;
  }

  lemma InsertedSorted(s: seq<Entry>, k: nat, e: Entry)
    requires Sorted(s) && k <= |s|
    requires (forall j :: 0 <= j < k ==> s[j].cost <= e.cost) && (k < |s| ==> e.cost <= s[k].cost)
    ensures Sorted(s[..k] + [e] + s[k..])
  {
  }

  lemma InsertedOnce(s: seq<Entry>, k: nat, e: Entry)
    requires Once(s) && !Has(s, e.name) && k <= |s|
    ensures Once(s[..k] + [e] + s[k..])
  {
  }

  lemma InsertedIn(s: seq<Entry>, k: nat, e: Entry)
    requires k <= |s|
    ensures forall f :: f in s[..k] + [e] + s[k..] <==> f in s || f == e
  {
    assert s == s[..k] + s[k..];
  }

  // sort_insert_list: before the first entry that is dearer.
  method SortInsert(s: seq<Entry>, child: nat, cost: int) returns (r: seq<Entry>)
    requires Sorted(s)
    ensures Sorted(r) && (!Has(s, child) && Once(s) ==> Once(r))
    ensures forall e :: e in r <==> e in s || e == Entry(child, cost)
    ensures exists k :: 0 <= k <= |s| && r == s[..k] + [Entry(child, cost)] + s[k..]
  {
    hide Sorted, Once, Has;
    var k := 0;
    while k < |s| && cost >= s[k].cost
      invariant 0 <= k <= |s| && forall j :: 0 <= j < k ==> s[j].cost <= cost
    {
      k := k + 1;
    }
    InsertedSorted(s, k, Entry(child, cost));
    if !Has(s, child) && Once(s) {
      InsertedOnce(s, k, Entry(child, cost));
    }
    InsertedIn(s, k, Entry(child, cost));
    r := s[..k] + [Entry(child, cost)] + s[k..];
  }

  lemma ErasedAt(s: seq<Entry>, i: nat)
    requires i < |s|
    ensures var r := s[..i] + s[i + 1..]; |r| == |s| - 1 && forall k :: 0 <= k < |r| ==> r[k] == if k < i then s[k] else s[k + 1]
    ensures var r := s[..i] + s[i + 1..]; forall k :: 0 <= k < |s| && k != i ==> s[k] in r
  {
    var r := s[..i] + s[i + 1..];
    forall k | 0 <= k < |s| && k != i ensures s[k] in r {
      assert r[if k < i then k else k - 1] == s[k];
    }
  }

  lemma Erased(s: seq<Entry>, i: nat)
    requires i < |s| && Once(s)
    ensures var r := s[..i] + s[i + 1..];
      Once(r) && !Has(r, s[i].name) && (Sorted(s) ==> Sorted(r)) && forall e :: e in r <==> e in s && e.name != s[i].name
  {
    ErasedAt(s, i);
    var r := s[..i] + s[i + 1..];
    forall e | e in r ensures e in s && e.name != s[i].name {
      var k :| 0 <= k < |r| && r[k] == e;
      assert e == s[if k < i then k else k + 1];
    }
  }

  // The entries of s, with a new one for the child in place of any old one.
  ghost predicate Replaced(s: seq<Entry>, r: seq<Entry>, child: nat, cost: int) {
    forall e :: e in r <==> (e in s && e.name != child) || e == Entry(child, cost)
  }

  // replace_insert_list on one list: a dearer entry for the child gives way to a cheaper one.
  method ReplaceInsert(s: seq<Entry>, child: nat, cost: int) returns (r: seq<Entry>)
    requires Sorted(s) && Once(s)
    ensures Sorted(r) && Once(r)
    ensures !Has(s, child) ==> r == s
    ensures forall e :: e in s && e.name == child ==> if e.cost <= cost then r == s else Replaced(s, r, child, cost)
  {
    for i := 0 to |s|
      invariant forall k :: 0 <= k < i ==> s[k].name != child
    {
      if s[i].name == child {
        assert forall e :: e in s && e.name == child ==> e == s[i];
        if s[i].cost > cost {
          Erased(s, i);
          r := SortInsert(s[..i] + s[i + 1..], child, cost);
          return r;
        }
        return s;
      }
    }
    return s;
  }

  // replace_insert_list on two lists: a closed entry that is dearer is opened again.
  method Reopen(open: seq<Entry>, closed: seq<Entry>, child: nat, cost: int) returns (open': seq<Entry>, closed': seq<Entry>)
    requires Sorted(open) && Once(closed)
    ensures !Has(closed, child) ==> open' == open && closed' == closed
    ensures forall e :: e in closed && e.name == child ==>
      if e.cost <= cost then open' == open && closed' == closed
      else Sorted(open') && !Has(closed', child) && forall f :: f in open' <==> f in open || f == Entry(child, cost)
  {
    open', closed' := open, closed;
    for i := 0 to |closed|
      invariant open' == open && closed' == closed
      invariant forall k :: 0 <= k < i ==> closed[k].name != child
    {
      if closed[i].name == child {
        assert forall e :: e in closed && e.name == child ==> e == closed[i];
        if closed[i].cost > cost {
          Erased(closed, i);
          closed' := closed[..i] + closed[i + 1..];
          open' := SortInsert(open, child, cost);
        }
        break;
      }
    }
  }

  // ---------------------------------------------------------------------------------------------
  // The search

  // What the closed and open lists say, while the first arcs of the node cur are being followed; the
  // cost last is that of the node taken out last.
  ghost predicate SearchOk(g: Graph, start: nat, open: seq<Entry>, closed: seq<Entry>, last: int) {
    && Sorted(open) && Once(open) && Sorted(closed) && Once(closed)
    && (forall e :: e in open ==> e.name in g && e.cost >= last && Achieved(g, start, e.name, e.cost) && !Has(closed, e.name))
    && (forall e :: e in closed ==> e.name in g && e.cost <= last && IsDistance(g, start, e.name, e.cost))
  }

  // An arc from a node of cost c is accounted for: its end is closed, or open at no more than the cost
  // through the arc.
  ghost predicate Relaxed(open: seq<Entry>, closed: seq<Entry>, c: int, a: Arc) {
    Has(closed, a.to) || exists e :: e in open && e.name == a.to && e.cost <= c + a.cost
  }

  ghost predicate AllRelaxed(g: Graph, open: seq<Entry>, closed: seq<Entry>) {
    forall e, i :: e in closed && e.name in g && 0 <= i < |g[e.name]| ==> Relaxed(open, closed, e.cost, g[e.name][i])
  }

  ghost predicate Started(start: nat, open: seq<Entry>, closed: seq<Entry>) {
    Has(closed, start) || (closed == [] && open == [Entry(start, 0)])
  }

  /** Every walk from the start ends in a closed node, which is as near as the walk says, or runs over an
      open node that is no further. */
  lemma {:induction false} Frontier(g: Graph, start: nat, open: seq<Entry>, closed: seq<Entry>, last: int, walk: seq<Arc>)
    requires GraphOk(g) && SearchOk(g, start, open, closed, last) && AllRelaxed(g, open, closed) && Started(start, open, closed)
    requires IsWalk(g, start, walk)
    ensures Has(closed, EndOf(start, walk)) || exists e :: e in open && e.cost <= CostOf(walk)
    decreases |walk|
  {
    hide Sorted, Once, Achieved;
    if walk != [] {
      var w, a := walk[..|walk| - 1], walk[|walk| - 1];
      var x := EndOf(start, w);
      Frontier(g, start, open, closed, last, w);
      var i :| 0 <= i < |g[x]| && g[x][i] == a;
      assert a.cost >= 0;
      if Has(closed, x) {
        var k :| 0 <= k < |closed| && closed[k].name == x;
        assert closed[k] in closed && closed[k].cost <= CostOf(w);
        assert Relaxed(open, closed, closed[k].cost, a);
      }
    }
  }

  /** The open node of least cost is at its distance. */
  lemma FirstIsDistance(g: Graph, start: nat, open: seq<Entry>, closed: seq<Entry>, last: int)
    requires GraphOk(g) && SearchOk(g, start, open, closed, last) && AllRelaxed(g, open, closed) && Started(start, open, closed)
    requires open != []
    ensures IsDistance(g, start, open[0].name, open[0].cost)
  {
    hide Achieved, IsWalk;
    var y := open[0];
    assert y in open;
    forall walk | IsWalk(g, start, walk) && EndOf(start, walk) == y.name ensures y.cost <= CostOf(walk) {
      Frontier(g, start, open, closed, last, walk);
      var e :| e in open && e.cost <= CostOf(walk);
      var k :| 0 <= k < |open| && open[k] == e;
    }
  }

  lemma NoneLeft(g: Graph, start: nat, closed: seq<Entry>, last: int, walk: seq<Arc>)
    requires GraphOk(g) && SearchOk(g, start, [], closed, last) && AllRelaxed(g, [], closed) && Started(start, [], closed)
    requires IsWalk(g, start, walk)
    ensures Has(closed, EndOf(start, walk))
  {
    Frontier(g, start, [], closed, last, walk);
  }

  // Every open node is still open, at no greater cost.
  ghost predicate NoWorse(open: seq<Entry>, open': seq<Entry>) {
    forall e :: e in open ==> exists f :: f in open' && f.name == e.name && f.cost <= e.cost
  }

  lemma RelaxedStays(open: seq<Entry>, open': seq<Entry>, closed: seq<Entry>, c: int, a: Arc)
    requires NoWorse(open, open') && Relaxed(open, closed, c, a)
    ensures Relaxed(open', closed, c, a)
  {
    if !Has(closed, a.to) {
      var e :| e in open && e.name == a.to && e.cost <= c + a.cost;
      var f :| f in open' && f.name == e.name && f.cost <= e.cost;
    }
  }

  // While cur is expanded: the arcs of closed nodes are accounted for, and the first n arcs of cur.
  ghost predicate Expanding(g: Graph, start: nat, open: seq<Entry>, closed: seq<Entry>, cur: Entry, n: nat) {
    && SearchOk(g, start, open, closed + [cur], cur.cost) && Has(closed + [cur], start) && cur.name in g
    && (forall e, i :: e in closed && e.name in g && 0 <= i < |g[e.name]| ==> Relaxed(open, closed + [cur], e.cost, g[e.name][i]))
    && (n <= |g[cur.name]| && forall i :: 0 <= i < n ==> Relaxed(open, closed + [cur], cur.cost, g[cur.name][i]))
  }

  lemma AppendHas(s: seq<Entry>, e: Entry)
    ensures forall x :: Has(s + [e], x) <==> Has(s, x) || e.name == x
    ensures forall f :: f in s + [e] <==> f in s || f == e
  {
    forall x | Has(s, x) ensures Has(s + [e], x) {
      var k :| 0 <= k < |s| && s[k].name == x;
      assert (s + [e])[k].name == x;
    }
    assert (s + [e])[|s|] == e;
  }

  lemma ExpandStart(g: Graph, start: nat, open: seq<Entry>, closed: seq<Entry>, last: int)
    requires GraphOk(g) && SearchOk(g, start, open, closed, last) && AllRelaxed(g, open, closed) && Started(start, open, closed)
    requires open != []
    ensures Expanding(g, start, open[1..], closed, open[0], 0)
    ensures !Has(closed, open[0].name)
  {
    hide Achieved, IsDistance;
    FirstIsDistance(g, start, open, closed, last);
    var cur, rest := open[0], open[1..];
    assert cur in open;
    AppendHas(closed, cur);
    assert open == [cur] + rest;
    assert forall e :: e in open <==> e == cur || e in rest;
    forall e | e in rest ensures e.cost >= cur.cost && e.name != cur.name {
      var k :| 0 <= k < |rest| && rest[k] == e;
      assert open[k + 1] == e;
    }
    assert forall e :: e in closed ==> e.cost <= last;
    forall e, i | e in closed && e.name in g && 0 <= i < |g[e.name]|
      ensures Relaxed(rest, closed + [cur], e.cost, g[e.name][i])
    {
      assert Relaxed(open, closed, e.cost, g[e.name][i]);
    }
  }

  // Following one more arc of cur.
  lemma ExpandArc(g: Graph, start: nat, open: seq<Entry>, closed: seq<Entry>, cur: Entry, n: nat, open': seq<Entry>)
    requires GraphOk(g) && Expanding(g, start, open, closed, cur, n) && n < |g[cur.name]|
    requires Sorted(open') && Once(open') && NoWorse(open, open')
    requires Relaxed(open', closed + [cur], cur.cost, g[cur.name][n])
    requires forall e :: e in open' && e !in open ==>
      e == Entry(g[cur.name][n].to, cur.cost + g[cur.name][n].cost) && !Has(closed + [cur], g[cur.name][n].to)
    ensures Expanding(g, start, open', closed, cur, n + 1)
  {
    hide IsDistance, Has, Sorted, Once, Relaxed, Achieved;
    var a := g[cur.name][n];
    assert cur in closed + [cur] by {
      assert (closed + [cur])[|closed|] == cur;
    }
    DistanceAchieved(g, start, cur.name, cur.cost);
    Extend(g, start, cur.name, cur.cost, a);
    forall e, i | e in closed && e.name in g && 0 <= i < |g[e.name]|
      ensures Relaxed(open', closed + [cur], e.cost, g[e.name][i])
    {
      RelaxedStays(open, open', closed + [cur], e.cost, g[e.name][i]);
    }
    forall i | 0 <= i < n ensures Relaxed(open', closed + [cur], cur.cost, g[cur.name][i]) {
      RelaxedStays(open, open', closed + [cur], cur.cost, g[cur.name][i]);
    }
  }

  lemma DistanceAchieved(g: Graph, start: nat, x: nat, c: int)
    requires IsDistance(g, start, x, c)
    ensures Achieved(g, start, x, c)
  {
  }

  lemma ExpandEnd(g: Graph, start: nat, open: seq<Entry>, closed: seq<Entry>, cur: Entry)
    requires cur.name in g && Expanding(g, start, open, closed, cur, |g[cur.name]|)
    ensures SearchOk(g, start, open, closed + [cur], cur.cost) && AllRelaxed(g, open, closed + [cur]) && Started(start, open, closed + [cur])
  {
    hide SearchOk, Relaxed;
  }

  lemma SearchStart(g: Graph, start: nat)
    requires start in g
    ensures SearchOk(g, start, [Entry(start, 0)], [], 0) && AllRelaxed(g, [Entry(start, 0)], []) && Started(start, [Entry(start, 0)], [])
  {
    assert IsWalk(g, start, []);
    assert Achieved(g, start, start, 0);
  }

  ghost function Names(s: seq<Entry>): set<nat> {
    set e | e in s :: e.name
  }

  lemma {:induction false} OnceSize(s: seq<Entry>)
    requires Once(s)
    ensures |Names(s)| == |s|
    decreases |s|
  {
    if s != [] {
      var t, e := s[..|s| - 1], s[|s| - 1];
      OnceSize(t);
      assert s == t + [e];
      assert Names(s) == Names(t) + {e.name};
      assert e.name !in Names(t);
    }
  }

  // There is room for one more closed node.
  lemma ClosedFits(g: Graph, start: nat, open: seq<Entry>, closed: seq<Entry>, last: int)
    requires SearchOk(g, start, open, closed, last) && open != []
    ensures |closed| < |g| && open[0].name in g
  {
    hide IsDistance, Achieved;
    var x := open[0];
    assert x in open;
    OnceSize(closed);
    forall y | y in Names(closed) ensures y in g.Keys - {x.name} {
      var e :| e in closed && e.name == y;
      var k :| 0 <= k < |closed| && closed[k] == e;
      assert Has(closed, y);
    }
    assert Names(closed) <= g.Keys - {x.name};
    SubsetSize(Names(closed), g.Keys - {x.name});
  }

  lemma SubsetSize(a: set<nat>, b: set<nat>)
    requires a <= b
    ensures |a| <= |b|
  {
    assert b == a + (b - a);
  }

  lemma SearchEnd(g: Graph, start: nat, closed: seq<Entry>, last: int)
    requires GraphOk(g) && SearchOk(g, start, [], closed, last) && AllRelaxed(g, [], closed) && Started(start, [], closed)
    ensures Once(closed) && Sorted(closed) && forall e :: e in closed ==> IsDistance(g, start, e.name, e.cost)
    ensures forall x :: Has(closed, x) <==> exists walk :: IsWalk(g, start, walk) && EndOf(start, walk) == x
  {
    hide Sorted, Once, IsWalk;
    forall walk | IsWalk(g, start, walk) ensures Has(closed, EndOf(start, walk)) {
      NoneLeft(g, start, closed, last, walk);
    }
    forall x | Has(closed, x) ensures exists walk :: IsWalk(g, start, walk) && EndOf(start, walk) == x {
      var k :| 0 <= k < |closed| && closed[k].name == x;
      assert closed[k] in closed;
    }
  }

  /** uniform_cost_search: the closed list ends up with every node that can be reached, once, at its
      distance, in the order of distances. */
  method Search(g: Graph, start: nat, target: nat) returns (closed: seq<Entry>)
    requires GraphOk(g)
    ensures start !in g || start == target ==> closed == []
    ensures start in g && start != target ==> Once(closed) && Sorted(closed)
    ensures start in g && start != target ==> forall e :: e in closed ==> IsDistance(g, start, e.name, e.cost)
    ensures start in g && start != target ==>
      forall x :: Has(closed, x) <==> exists walk :: IsWalk(g, start, walk) && EndOf(start, walk) == x
  {
    hide Has, Sorted, Once, SearchOk, AllRelaxed, Started, Expanding, IsDistance, GraphOk, IsWalk;
    closed := [];
    if start !in g || start == target {
      return;
    }
    var open := [Entry(start, 0)];
    ghost var last := 0;
    SearchStart(g, start);
    while open != []
      invariant SearchOk(g, start, open, closed, last) && AllRelaxed(g, open, closed) && Started(start, open, closed)
      decreases |g| - |closed|
    {
      var cur := open[0];
      ClosedFits(g, start, open, closed, last);
      ExpandStart(g, start, open, closed, last);
      open := open[1..];
      var children := g[cur.name];
      ghost var closed0 := closed;
      for n := 0 to |children|
        invariant Expanding(g, start, open, closed, cur, n) && closed == closed0
      {
        open, closed := FollowArc(g, start, open, closed, cur, n);
      }
      ExpandEnd(g, start, open, closed, cur);
      closed := closed + [cur];
      last := cur.cost;
    }
    SearchEnd(g, start, closed, last);
  }

  // One arc of the node that is expanded. The arc never makes a closed node cheaper, so nothing is ever
  // opened again.
  method FollowArc(g: Graph, start: nat, open: seq<Entry>, closed: seq<Entry>, cur: Entry, n: nat)
    returns (open': seq<Entry>, closed': seq<Entry>)
    requires GraphOk(g) && Expanding(g, start, open, closed, cur, n) && cur.name in g && n < |g[cur.name]|
    ensures Expanding(g, start, open', closed, cur, n + 1) && closed' == closed
  {
    hide Achieved, IsDistance, Sorted, Once, Has, Relaxed, Replaced, Expanding, NoWorse;
    var a := g[cur.name][n];
    var inOpen := ExistList(open, a.to);
    var inClosed := ExistList(closed, a.to);
    var cost := cur.cost + a.cost;
    open', closed' := open, closed;
    ArcParts(g, start, open, closed, cur, n);
    if !inOpen && !inClosed {
      open' := SortInsert(open, a.to, cost);
      InsertBetter(open, open', closed + [cur], cur.cost, a);
      AppendHas(closed, cur);
    } else if inOpen {
      open' := ReplaceInsert(open, a.to, cost);
      ReplaceBetter(open, open', closed + [cur], cur.cost, a);
    } else if inClosed {
      open', closed' := Reopen(open, closed, a.to, cost);
      NeverReopened(closed, closed + [cur], open, cur.cost, a);
    }
    ExpandArc(g, start, open, closed, cur, n, open');
  }

  lemma ArcParts(g: Graph, start: nat, open: seq<Entry>, closed: seq<Entry>, cur: Entry, n: nat)
    requires GraphOk(g) && Expanding(g, start, open, closed, cur, n) && n < |g[cur.name]|
    ensures Sorted(open) && Once(open) && Once(closed) && g[cur.name][n].to != cur.name && g[cur.name][n].cost >= 0
    ensures forall e :: e in open ==> !Has(closed + [cur], e.name)
    ensures forall e :: e in closed ==> e.cost <= cur.cost
  {
    hide Achieved, IsDistance, Relaxed;
    AppendHas(closed, cur);
    assert forall i :: 0 <= i < |closed| ==> (closed + [cur])[i] == closed[i];
  }

  lemma InsertBetter(open: seq<Entry>, open': seq<Entry>, known: seq<Entry>, c: int, a: Arc)
    requires forall e :: e in open' <==> e in open || e == Entry(a.to, c + a.cost)
    ensures NoWorse(open, open') && Relaxed(open', known, c, a)
  {
    assert Entry(a.to, c + a.cost) in open';
  }

  lemma ReplaceBetter(open: seq<Entry>, open': seq<Entry>, known: seq<Entry>, c: int, a: Arc)
    requires Has(open, a.to) && forall e :: e in open ==> !Has(known, e.name)
    requires forall e :: e in open && e.name == a.to ==> if e.cost <= c + a.cost then open' == open else Replaced(open, open', a.to, c + a.cost)
    requires Once(open)
    ensures NoWorse(open, open') && Relaxed(open', known, c, a) && !Has(known, a.to)
    ensures forall e :: e in open' ==> e in open || e == Entry(a.to, c + a.cost)
  {
    var k :| 0 <= k < |open| && open[k].name == a.to;
    assert open[k] in open;
    assert forall e :: e in open && e.name == a.to ==> e == open[k];
  }

  /** A closed node is no dearer than the way to it through the node that is expanded. */
  lemma NeverReopened(closed: seq<Entry>, known: seq<Entry>, open: seq<Entry>, c: int, a: Arc)
    requires Has(closed, a.to) && a.cost >= 0 && forall e :: e in closed ==> e in known && e.cost <= c
    ensures Relaxed(open, known, c, a) && NoWorse(open, open)
    ensures exists e :: e in closed && e.name == a.to && e.cost <= c + a.cost
  {
    var k :| 0 <= k < |closed| && closed[k].name == a.to;
    assert closed[k] in closed && closed[k] in known;
    var j :| 0 <= j < |known| && known[j] == closed[k];
  }
}
