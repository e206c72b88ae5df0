/** The A* search of `CS561-HW2/main.py`: a tree search over the paths of a graph, without a closed set. */
module AStar {
  import opened Wrappers

  // names are only compared
  type Name = nat
  type Graph = map<Name, map<Name, real>>

  // Node; the ancestors and the node itself are a path from the start.
  datatype Node = Node(name: Name, cost: real, utility: real, ancestors: seq<Name>) {
    function Path(): seq<Name> {
      ancestors + [name]
    }
  }

  // ---------------------------------------------------------------------------------------------
  // Paths

  // graph[x], of a dictionary that is empty by default
  function Edges(graph: Graph, x: Name): map<Name, real> {
    if x in graph then graph[x] else map[]
  }

  // heuristics[x], of a dictionary that is 0.0 by default
  function Estimate(heuristics: map<Name, real>, x: Name): real {
    if x in heuristics then heuristics[x] else 0.0
  }

  predicate Distinct(p: seq<Name>) {
    forall i, j :: 0 <= i < j < |p| ==> p[i] != p[j]
  }

  // A path that visits no name twice.
  predicate IsPath(graph: Graph, p: seq<Name>) {
    p != [] && Distinct(p) && forall i :: 0 <= i < |p| - 1 ==> p[i + 1] in Edges(graph, p[i])
  }

  predicate Connects(graph: Graph, p: seq<Name>, x: Name, y: Name) {
    IsPath(graph, p) && p[0] == x && p[|p| - 1] == y
  }

  function Cost(graph: Graph, p: seq<Name>): real
    requires IsPath(graph, p)
    decreases |p|
  {
    if |p| == 1 then 0.0
    else
      PathPrefix(graph, p, |p| - 1);
      Cost(graph, p[..|p| - 1]) + Edges(graph, p[|p| - 2])[p[|p| - 1]]
  }

  lemma PathPrefix(graph: Graph, p: seq<Name>, k: nat)
    requires IsPath(graph, p) && 0 < k <= |p|
    ensures IsPath(graph, p[..k])
  {
  }

  lemma PathSuffix(graph: Graph, p: seq<Name>, k: nat)
    requires IsPath(graph, p) && k < |p|
    ensures IsPath(graph, p[k..])
  {
  }

  // The cost of a path is that of its beginning and its rest.
  lemma {:induction false} CostSplit(graph: Graph, p: seq<Name>, k: nat)
    requires IsPath(graph, p) && k < |p|
    ensures IsPath(graph, p[..k + 1]) && IsPath(graph, p[k..])
    ensures Cost(graph, p) == Cost(graph, p[..k + 1]) + Cost(graph, p[k..])
    decreases |p|
  {
    hide IsPath, Cost;
    PathPrefix(graph, p, k + 1);
    PathSuffix(graph, p, k);
    var tail := p[k..];
    if k == |p| - 1 {
      assert p[..k + 1] == p;
      CostOfOne(graph, tail);
    } else {
      var q := p[..|p| - 1];
      CostLast(graph, p);
      CostLast(graph, tail);
      CostSplit(graph, q, k);
      assert q[..k + 1] == p[..k + 1];
      assert tail[..|tail| - 1] == q[k..];
    }
  }

  lemma CostOfOne(graph: Graph, p: seq<Name>)
    requires IsPath(graph, p) && |p| == 1
    ensures Cost(graph, p) == 0.0
  {
  }

  lemma CostLast(graph: Graph, p: seq<Name>)
    requires IsPath(graph, p) && |p| > 1
    ensures IsPath(graph, p[..|p| - 1]) && p[|p| - 1] in Edges(graph, p[|p| - 2])
    ensures Cost(graph, p) == Cost(graph, p[..|p| - 1]) + Edges(graph, p[|p| - 2])[p[|p| - 1]]
  {
    PathPrefix(graph, p, |p| - 1);
  }

  // The heuristic never exceeds the cost of reaching the goal, and is 0 at the goal.
  ghost predicate Admissible(graph: Graph, heuristics: map<Name, real>, goal: Name) {
    && Estimate(heuristics, goal) == 0.0
    && forall x: Name, p :: Connects(graph, p, x, goal) ==> Estimate(heuristics, x) <= Cost(graph, p)
  }

  ghost predicate NoSelfLoops(graph: Graph) {
    forall x :: x in graph ==> x !in graph[x]
  }

  // ---------------------------------------------------------------------------------------------
  // The search tree

  ghost predicate NodeOk(graph: Graph, heuristics: map<Name, real>, start: Name, n: Node) {
    && Connects(graph, n.Path(), start, n.name)
    && n.cost == Cost(graph, n.Path()) && n.utility == n.cost + Estimate(heuristics, n.name)
  }

  // Every path to the goal still has a beginning on the heap.
  ghost predicate Open(graph: Graph, start: Name, goal: Name, h: seq<Node>) {
    forall p :: Connects(graph, p, start, goal) ==> Begun(h, p)
  }

  ghost predicate Begun(h: seq<Node>, p: seq<Name>) {
    exists i, k :: 0 <= i < |h| && 0 < k <= |p| && h[i].Path() == p[..k]
  }

  // A node that is popped has the least utility on the heap.
  predicate Least(h: seq<Node>, i: nat) {
    i < |h| && forall j :: 0 <= j < |h| ==> h[i].utility <= h[j].utility
  }

  lemma {:induction false} LeastExists(h: seq<Node>) returns (i: nat)
    requires h != []
    ensures Least(h, i)
    decreases |h|
  {
    if |h| == 1 {
      i := 0;
    } else {
      var j := LeastExists(h[..|h| - 1]);
      i := if h[j].utility <= h[|h| - 1].utility then j else |h| - 1;
      assert forall k :: 0 <= k < |h| - 1 ==> h[..|h| - 1][k] == h[k];
    }
  }

  lemma BegunAt(h: seq<Node>, p: seq<Name>)
    requires Begun(h, p)
    ensures exists i, k :: 0 <= i < |h| && 0 < k <= |p| && h[i].Path() == p[..k]
  {
  }

  lemma ConnectsEnd(graph: Graph, p: seq<Name>, x: Name, y: Name, k: nat)
    requires Connects(graph, p, x, y) && k < |p|
    ensures Connects(graph, p[k..], p[k], y)
  {
    PathSuffix(graph, p, k);
  }

  /** When a goal node is popped, no path to the goal is cheaper. */
  lemma PoppedIsBest(graph: Graph, heuristics: map<Name, real>, start: Name, goal: Name, h: seq<Node>, i: nat, p: seq<Name>)
    requires forall j :: 0 <= j < |h| ==> NodeOk(graph, heuristics, start, h[j])
    requires Open(graph, start, goal, h) && Admissible(graph, heuristics, goal) && Least(h, i)
    requires Connects(graph, p, start, goal)
    ensures h[i].cost + Estimate(heuristics, h[i].name) <= Cost(graph, p)
    ensures h[i].name == goal ==> h[i].cost <= Cost(graph, p)
  {
    hide Cost, IsPath, Begun;
    BegunAt(h, p);
    var j, k :| 0 <= j < |h| && 0 < k <= |p| && h[j].Path() == p[..k];
    CostSplit(graph, p, k - 1);
    ConnectsEnd(graph, p, start, goal, k - 1);
    assert h[j].Path()[k - 1] == h[j].name == p[k - 1];
    assert Connects(graph, p[k - 1..], h[j].name, goal);
    assert NodeOk(graph, heuristics, start, h[j]);
  }

  // The cost so far and the estimate together do not exceed the cost of any path to the goal.
  ghost predicate Promising(graph: Graph, heuristics: map<Name, real>, start: Name, goal: Name, n: Node) {
    forall p :: Connects(graph, p, start, goal) ==> n.cost + Estimate(heuristics, n.name) <= Cost(graph, p)
  }

  lemma NoneBetter(graph: Graph, heuristics: map<Name, real>, start: Name, goal: Name, h: seq<Node>, i: nat)
    requires forall j :: 0 <= j < |h| ==> NodeOk(graph, heuristics, start, h[j])
    requires Open(graph, start, goal, h) && Admissible(graph, heuristics, goal) && Least(h, i)
    ensures Promising(graph, heuristics, start, goal, h[i])
    ensures h[i].name == goal ==> forall p :: Connects(graph, p, start, goal) ==> h[i].cost <= Cost(graph, p)
  {
    hide Cost, IsPath, NodeOk, Open, Admissible;
    forall p | Connects(graph, p, start, goal)
      ensures h[i].cost + Estimate(heuristics, h[i].name) <= Cost(graph, p)
      ensures h[i].name == goal ==> h[i].cost <= Cost(graph, p)
    {
      PoppedIsBest(graph, heuristics, start, goal, h, i, p);
    }
  }

  // ---------------------------------------------------------------------------------------------
  // Termination: a node weighs more than all its children together

  ghost function Vertices(graph: Graph, start: Name): set<Name> {
    {start} + graph.Keys + set x, y | x in graph && y in graph[x] :: y
  }

  ghost function Power(b: nat, m: nat): nat {
    if m == 0 then 1 else b * Power(b, m - 1)
  }

  // How much the subtree of a node with a path of length len can hold, among n vertices.
  ghost function Weight(n: nat, len: nat): nat {
    if len >= n then 1 else Power(n + 1, n - len)
  }

  ghost function Load(n: nat, h: seq<Node>): nat {
    if h == [] then 0 else Load(n, h[..|h| - 1]) + Weight(n, |h[|h| - 1].Path()|)
  }

  lemma {:induction false} LoadRemove(n: nat, h: seq<Node>, i: nat)
    requires i < |h|
    ensures Load(n, h[..i] + h[i + 1..]) + Weight(n, |h[i].Path()|) == Load(n, h)
    decreases |h|
  {
    hide Weight;
    var r := h[..i] + h[i + 1..];
    if i == |h| - 1 {
      assert r == h[..|h| - 1];
    } else {
      var init := h[..|h| - 1];
      LoadRemove(n, init, i);
      assert r[..|r| - 1] == init[..i] + init[i + 1..];
      assert r[|r| - 1] == h[|h| - 1];
    }
  }

  // Children weigh 1 / (n + 1) of their parent.
  lemma ChildWeight(n: nat, len: nat)
    requires len < n
    ensures Weight(n, len) == (n + 1) * Weight(n, len + 1)
  {
  }

  lemma FewerThanParent(n: nat, k: nat, w: nat)
    requires k <= n && w > 0
    ensures k * w < (n + 1) * w
  {
    assert (n + 1) * w == k * w + (n + 1 - k) * w;
    assert (n + 1 - k) * w >= w by {
      assert (n + 1 - k) * w == w + (n - k) * w;
    }
  }

  lemma {:induction false} PowerPositive(b: nat, m: nat)
    requires b > 0
    ensures Power(b, m) > 0
    decreases m
  {
    if m > 0 {
      PowerPositive(b, m - 1);
    }
  }

  lemma WeightPositive(n: nat, len: nat)
    ensures Weight(n, len) > 0
  {
    if len < n {
      PowerPositive(n + 1, n - len);
    }
  }

  // A path without repetitions is no longer than there are vertices.
  lemma PathBound(graph: Graph, start: Name, p: seq<Name>)
    requires IsPath(graph, p) && p[0] == start
    ensures |p| <= |Vertices(graph, start)|
  {
    forall i | 0 <= i < |p| ensures p[i] in Vertices(graph, start) {
      if i > 0 {
        assert p[i - 1 + 1] in Edges(graph, p[i - 1]);
      }
    }
    DistinctSize(p);
    SubsetSize(NamesOf(p), Vertices(graph, start));
  }

  ghost function NamesOf(p: seq<Name>): set<Name> {
    set x | x in p
  }

  lemma {:induction false} DistinctSize(p: seq<Name>)
    requires Distinct(p)
    ensures |NamesOf(p)| == |p|
    decreases |p|
  {
    if p != [] {
      var q, x := p[..|p| - 1], p[|p| - 1];
      DistinctSize(q);
      assert NamesOf(p) == NamesOf(q) + {x};
      assert x !in q;
    }
  }

  lemma SubsetSize(a: set<Name>, b: set<Name>)
    requires a <= b
    ensures |a| <= |b|
  {
    assert b == a + (b - a);
  }

  lemma EdgesBound(graph: Graph, start: Name, x: Name)
    ensures |Edges(graph, x).Keys| <= |Vertices(graph, start)|
  {
    SubsetSize(Edges(graph, x).Keys, Vertices(graph, start));
  }

  // ---------------------------------------------------------------------------------------------
  // The search

  // The child of a node along an edge.
  lemma ChildOk(graph: Graph, heuristics: map<Name, real>, start: Name, n: Node, x: Name, child: Node)
    requires NodeOk(graph, heuristics, start, n) && NoSelfLoops(graph) && x in Edges(graph, n.name) && x !in n.ancestors
    requires child == Node(x, n.cost + Edges(graph, n.name)[x], n.cost + Edges(graph, n.name)[x] + Estimate(heuristics, x), n.Path())
    ensures NodeOk(graph, heuristics, start, child)
    ensures |child.Path()| <= |Vertices(graph, start)|
  {
    var p, q := n.Path(), child.Path();
    assert q[..|q| - 1] == p && q[|q| - 1] == x && q[|q| - 2] == n.name == p[|p| - 1];
    forall i, j | 0 <= i < j < |q| ensures q[i] != q[j] {
      if j == |q| - 1 && i < |p| - 1 {
        assert q[i] == n.ancestors[i];
      }
    }
    forall i | 0 <= i < |q| - 1 ensures q[i + 1] in Edges(graph, q[i]) {
      if i < |p| - 1 {
        assert q[i] == p[i] && q[i + 1] == p[i + 1];
      }
    }
    PathBound(graph, start, q);
  }

  // While a node is expanded: a path has a beginning on the heap, or goes through the node to a child
  // that is still to come.
  ghost predicate Pending(graph: Graph, start: Name, goal: Name, h: seq<Node>, n: Node, names: set<Name>) {
    forall p :: Connects(graph, p, start, goal) ==> Begun(h, p) || Through(p, n, names)
  }

  ghost predicate Through(p: seq<Name>, n: Node, names: set<Name>) {
    |n.Path()| < |p| && p[..|n.Path()|] == n.Path() && p[|n.Path()|] in names
  }

  lemma ExpandStart(graph: Graph, start: Name, goal: Name, h: seq<Node>, i: nat, r: seq<Node>)
    requires Open(graph, start, goal, h) && i < |h| && r == h[..i] + h[i + 1..] && h[i].name != goal
    ensures Pending(graph, start, goal, r, h[i], Edges(graph, h[i].name).Keys)
  {
    var n := h[i];
    forall p | Connects(graph, p, start, goal) ensures Begun(r, p) || Through(p, n, Edges(graph, n.name).Keys) {
      var j, k :| 0 <= j < |h| && 0 < k <= |p| && h[j].Path() == p[..k];
      if j == i {
        assert p[k - 1] == n.Path()[k - 1] == n.name;
        assert k < |p| && p[k - 1 + 1] in Edges(graph, p[k - 1]);
      } else {
        var j' := if j < i then j else j - 1;
        assert r[j'] == h[j];
      }
    }
  }

  lemma ExpandOne(graph: Graph, start: Name, goal: Name, h: seq<Node>, n: Node, names: set<Name>, x: Name, h': seq<Node>)
    requires Pending(graph, start, goal, h, n, names)
    requires if x in n.ancestors then h' == h else exists c: Node :: h' == h + [c] && c.Path() == n.Path() + [x]
    ensures Pending(graph, start, goal, h', n, names - {x})
  {
    forall p | Connects(graph, p, start, goal) ensures Begun(h', p) || Through(p, n, names - {x}) {
      if Begun(h, p) {
        var j, k :| 0 <= j < |h| && 0 < k <= |p| && h[j].Path() == p[..k];
        assert h'[j] == h[j];
      } else if p[|n.Path()|] == x {
        var l := |n.Path()|;
        assert forall j :: 0 <= j < |n.ancestors| ==> p[j] == p[..l][j] == n.ancestors[j];
        assert p[..l + 1] == n.Path() + [x];
        assert h'[|h|].Path() == p[..l + 1];
      }
    }
  }

  /** astar: a goal node, of least cost when the heuristic is admissible, or None when the goal cannot be
      reached; then, too, no node is expanded whose estimate exceeds the least cost. The heap is a bag from
      which some node of least utility is taken. */
  method Search(graph: Graph, start: Name, goal: Name, heuristics: map<Name, real>)
    returns (r: Option<Node>, ghost expanded: seq<Node>)
    requires NoSelfLoops(graph)
    ensures r == None <==> forall p :: !Connects(graph, p, start, goal)
    ensures r.Some? ==> Connects(graph, r.value.Path(), start, goal) && r.value.cost == Cost(graph, r.value.Path())
    ensures r.Some? && Admissible(graph, heuristics, goal) ==>
      forall p :: Connects(graph, p, start, goal) ==> r.value.cost <= Cost(graph, p)
    ensures Admissible(graph, heuristics, goal) ==> forall n :: n in expanded ==> Promising(graph, heuristics, start, goal, n)
  {
    hide NodeOk, Open, Connects, Cost, Pending, Load, Weight, NoSelfLoops, Admissible, Vertices, Promising;
    expanded := [];
    var node := Node(start, 0.0, 0.0, []);
    node := node.(utility := node.utility + Estimate(heuristics, start));
    var h := [node];
    ghost var n := |Vertices(graph, start)|;
    StartOk(graph, heuristics, start, goal, node);
    while h != []
      invariant forall j :: 0 <= j < |h| ==> NodeOk(graph, heuristics, start, h[j])
      invariant Open(graph, start, goal, h)
      invariant Admissible(graph, heuristics, goal) ==> forall n :: n in expanded ==> Promising(graph, heuristics, start, goal, n)
      decreases Load(n, h)
    {
      ghost var least := LeastExists(h);
      var i: nat :| i < |h| && Least(h, i);
      node := h[i];
      if Admissible(graph, heuristics, goal) {
        NoneBetter(graph, heuristics, start, goal, h, i);
      }
      if node.name == goal {
        NodeParts(graph, heuristics, start, node);
        return Some(node), expanded;
      }
      expanded := expanded + [node];
      ghost var h0, len := h, |node.Path()|;
      h := h[..i] + h[i + 1..];
      LoadRemove(n, h0, i);
      ExpandStart(graph, start, goal, h0, i, h);
      NodeParts(graph, heuristics, start, node);
      EdgesBound(graph, start, node.name);
      var edges := Edges(graph, node.name);
      var names := edges.Keys;
      ghost var rest, w := h, if len < n then Weight(n, len + 1) else 0;
      while names != {}
        invariant names <= edges.Keys
        invariant forall j :: 0 <= j < |h| ==> NodeOk(graph, heuristics, start, h[j])
        invariant Pending(graph, start, goal, h, node, names)
        invariant Load(n, h) + |names| * w <= Load(n, rest) + |edges.Keys| * w
        decreases names
      {
        var name :| name in names;
        ghost var h1 := h;
        if name !in node.ancestors {
          var child := Node(name, node.cost + edges[name], node.cost + edges[name], node.ancestors + [node.name]);
          child := child.(utility := child.utility + Estimate(heuristics, name));
          h := h + [child];
          ChildOk(graph, heuristics, start, node, name, child);
          LoadAdd(n, h1, child);
          assert child.Path() == node.Path() + [name];
        }
        ExpandOne(graph, start, goal, h1, node, names, name, h);
        OneFewer(|names|, w);
        names := names - {name};
      }
      Lighter(n, len, |edges.Keys|, w, Load(n, rest), Load(n, h), Load(n, h0));
      ExpandEnd(graph, start, goal, h, node);
    }
    NothingOpen(graph, start, goal);
    return None, expanded;
  }

  lemma StartOk(graph: Graph, heuristics: map<Name, real>, start: Name, goal: Name, node: Node)
    requires node == Node(start, 0.0, Estimate(heuristics, start), [])
    ensures NodeOk(graph, heuristics, start, node) && Open(graph, start, goal, [node])
  {
    forall p | Connects(graph, p, start, goal) ensures Begun([node], p) {
      assert [node][0].Path() == p[..1];
    }
  }

  lemma NodeParts(graph: Graph, heuristics: map<Name, real>, start: Name, n: Node)
    requires NodeOk(graph, heuristics, start, n)
    ensures Connects(graph, n.Path(), start, n.name) && IsPath(graph, n.Path()) && n.cost == Cost(graph, n.Path())
    ensures |n.Path()| <= |Vertices(graph, start)|
  {
    PathBound(graph, start, n.Path());
  }

  lemma LoadAdd(n: nat, h: seq<Node>, c: Node)
    ensures Load(n, h + [c]) == Load(n, h) + Weight(n, |c.Path()|)
  {
    assert (h + [c])[..|h|] == h;
  }

  lemma OneFewer(k: nat, w: nat)
    requires k > 0
    ensures (k - 1) * w == k * w - w
  {
  }

  lemma Lighter(n: nat, len: nat, k: nat, w: nat, rest: nat, now: nat, before: nat)
    requires w == (if len < n then Weight(n, len + 1) else 0) && k <= n && rest + Weight(n, len) == before
    requires now <= rest + k * w
    ensures now < before
  {
    hide Weight;
    WeightPositive(n, len);
    if len < n {
      WeightPositive(n, len + 1);
      ChildWeight(n, len);
      FewerThanParent(n, k, w);
    } else {
      assert k * w == 0;
    }
  }

  lemma ExpandEnd(graph: Graph, start: Name, goal: Name, h: seq<Node>, n: Node)
    requires Pending(graph, start, goal, h, n, {})
    ensures Open(graph, start, goal, h)
  {
  }

  lemma NothingOpen(graph: Graph, start: Name, goal: Name)
    requires Open(graph, start, goal, [])
    ensures forall p :: !Connects(graph, p, start, goal)
  {
  }
}
