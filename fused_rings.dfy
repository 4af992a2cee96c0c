/** FusedRings: groups the SSSR rings of a molecule into fused ring systems.
    Two rings are linked when they share at least two atoms (a bond); the
    link graph on ring indices is built pair by pair, its connected
    components are collected, and each component becomes the union of its
    rings' atoms. A ring linked to no other ring belongs to no component. */
module FusedRings {
  import opened Common

  /** An edge `add_edge(i, j)` of the link graph, always with i < j. */
  type Edge = (nat, nat)

  // ---------------------------------------------------------------------
  // Walks in an undirected graph given by its edge set
  // ---------------------------------------------------------------------

  ghost predicate Adjacent(edges: set<Edge>, x: nat, y: nat)
  {
    (x, y) in edges || (y, x) in edges
  }

  /** p is a walk from x to y: consecutive nodes are joined by an edge. */
  ghost predicate Walk(edges: set<Edge>, p: seq<nat>, x: nat, y: nat)
    decreases |p|
  {
    |p| > 0 && p[0] == x &&
    if |p| == 1 then x == y else Adjacent(edges, p[0], p[1]) && Walk(edges, p[1..], p[1], y)
  }

  /** y can be reached from x along edges (every node reaches itself). */
  ghost predicate Reach(edges: set<Edge>, x: nat, y: nat)
  {
    exists p :: Walk(edges, p, x, y)
  }

  /** The nodes of the graph: the endpoints of its edges, as networkx adds them. */
  function Nodes(edges: set<Edge>): set<nat>
  {
    (set e | e in edges :: e.0) + (set e | e in edges :: e.1)
  }

  lemma ReachSelf(edges: set<Edge>, x: nat)
    ensures Reach(edges, x, x)
  {
    assert Walk(edges, [x], x, x);
  }

  lemma ReachEdge(edges: set<Edge>, x: nat, y: nat)
    requires Adjacent(edges, x, y)
    ensures Reach(edges, x, y)
  {
    assert Walk(edges, [y], y, y);
    assert [x, y][1..] == [y];
    assert Walk(edges, [x, y], x, y);
  }

  /** A walk to y followed by a walk from y is a walk. */
  lemma {:induction false} WalkAppend(edges: set<Edge>, p: seq<nat>, x: nat, y: nat, q: seq<nat>, z: nat)
    requires Walk(edges, p, x, y) && Walk(edges, q, y, z)
    ensures Walk(edges, p + q[1..], x, z)
    decreases |p|
  {
    if |p| == 1 {
      assert p + q[1..] == q;
    } else {
      WalkAppend(edges, p[1..], p[1], y, q, z);
      assert (p + q[1..])[1..] == p[1..] + q[1..];
    }
  }

  lemma ReachTransitive(edges: set<Edge>, x: nat, y: nat, z: nat)
    requires Reach(edges, x, y) && Reach(edges, y, z)
    ensures Reach(edges, x, z)
  {
    var p :| Walk(edges, p, x, y);
    var q :| Walk(edges, q, y, z);
    WalkAppend(edges, p, x, y, q, z);
  }

  /** Every walk can be walked backwards. */
  lemma {:induction false} WalkBack(edges: set<Edge>, p: seq<nat>, x: nat, y: nat)
    requires Walk(edges, p, x, y)
    ensures Reach(edges, y, x)
    decreases |p|
  {
    if |p| == 1 {
      ReachSelf(edges, x);
    } else {
      WalkBack(edges, p[1..], p[1], y);
      ReachEdge(edges, p[1], x);
      ReachTransitive(edges, y, p[1], x);
    }
  }

  lemma ReachSymmetric(edges: set<Edge>, x: nat, y: nat)
    requires Reach(edges, x, y)
    ensures Reach(edges, y, x)
  {
    var p :| Walk(edges, p, x, y);
    WalkBack(edges, p, x, y);
  }

  // ---------------------------------------------------------------------
  // Connected components
  // ---------------------------------------------------------------------

  /** The nodes one edge away from some node of s. */
  function Neighbours(edges: set<Edge>, s: set<nat>): (n: set<nat>)
    ensures n <= Nodes(edges)
  {
    (set e | e in edges && e.0 in s :: e.1) + (set e | e in edges && e.1 in s :: e.0)
  }

  /** A walk that starts in a set closed under Neighbours never leaves it. */
  lemma {:induction false} ClosedSetHoldsWalk(edges: set<Edge>, s: set<nat>, p: seq<nat>, x: nat, y: nat)
    requires Neighbours(edges, s) <= s
    requires Walk(edges, p, x, y) && x in s
    ensures y in s
    decreases |p|
  {
    if |p| > 1 {
      if (x, p[1]) in edges {
        assert p[1] in (set e | e in edges && e.0 in s :: e.1);
      } else {
        assert p[1] in (set e | e in edges && e.1 in s :: e.0);
      }
      ClosedSetHoldsWalk(edges, s, p[1..], p[1], y);
    }
  }

  /** A neighbour of a node reachable from x is reachable from x. */
  lemma NeighboursReached(edges: set<Edge>, x: nat, s: set<nat>, z: nat)
    requires forall y :: y in s ==> Reach(edges, x, y)
    requires z in Neighbours(edges, s)
    ensures Reach(edges, x, z)
  {
    if e :| e in edges && e.0 in s && e.1 == z {
      ReachEdge(edges, e.0, z);
      ReachTransitive(edges, x, e.0, z);
    } else {
      var e :| e in edges && e.1 in s && e.0 == z;
      ReachEdge(edges, e.1, z);
      ReachTransitive(edges, x, e.1, z);
    }
  }

  /** The breadth-first search of networkx's `connected_components`: the
      set of nodes reachable from x, grown one layer of neighbours at a time. */
  method Component(edges: set<Edge>, x: nat) returns (c: set<nat>)
    ensures forall y :: y in c <==> Reach(edges, x, y)
    ensures x in c && c <= Nodes(edges) + {x}
  {
    c := {x};
    ReachSelf(edges, x);
    while !(Neighbours(edges, c) <= c)
      invariant x in c && c <= Nodes(edges) + {x}
      invariant forall y :: y in c ==> Reach(edges, x, y)
      decreases Nodes(edges) + {x} - c
    {
      forall z | z in Neighbours(edges, c)
        ensures Reach(edges, x, z)
      {
        NeighboursReached(edges, x, c, z);
      }
      c := c + Neighbours(edges, c);
    }
    forall y | Reach(edges, x, y)
      ensures y in c
    {
      var p :| Walk(edges, p, x, y);
      ClosedSetHoldsWalk(edges, c, p, x, y);
    }
  }

  /** `groups` lists the connected components of the graph: each is a
      non-empty set of nodes closed under reachability, two of them never
      share a node, and every node lies in one of them. */
  ghost predicate IsComponentList(edges: set<Edge>, groups: seq<set<nat>>)
  {
    && (forall k, l :: 0 <= k < l < |groups| ==> groups[k] !! groups[l])
    && (forall k :: 0 <= k < |groups| ==> groups[k] != {} && groups[k] <= Nodes(edges))
    && (forall k, x, y :: 0 <= k < |groups| && x in groups[k] ==> (y in groups[k] <==> Reach(edges, x, y)))
    && Nodes(edges) <= Union(groups)
  }

  /** All the nodes of the groups. */
  function Union(groups: seq<set<nat>>): (u: set<nat>)
    ensures forall k :: 0 <= k < |groups| ==> groups[k] <= u
  {
    if groups == [] then {} else Union(groups[..|groups| - 1]) + groups[|groups| - 1]
  }

  /** A node of the union lies in one of the groups. */
  lemma {:induction false} InUnion(groups: seq<set<nat>>, x: nat) returns (k: nat)
    requires x in Union(groups)
    ensures k < |groups| && x in groups[k]
  {
    var n := |groups| - 1;
    if x in groups[n] {
      k := n;
    } else {
      k := InUnion(groups[..n], x);
    }
  }

  /** The groups found so far, each the component of its root. */
  ghost predicate RootedGroups(edges: set<Edge>, groups: seq<set<nat>>, roots: seq<nat>)
  {
    && |roots| == |groups|
    && (forall k :: 0 <= k < |groups| ==> roots[k] in Nodes(edges) && groups[k] <= Nodes(edges))
    && (forall k, y :: 0 <= k < |groups| ==> (y in groups[k] <==> Reach(edges, roots[k], y)))
  }

  /** A component holds its members' components: reaching from any member
      is reaching from the root. */
  lemma SameComponent(edges: set<Edge>, r: nat, x: nat, y: nat)
    requires Reach(edges, r, x)
    ensures Reach(edges, x, y) <==> Reach(edges, r, y)
  {
    ReachSymmetric(edges, r, x);
    if Reach(edges, x, y) {
      ReachTransitive(edges, r, x, y);
    }
    if Reach(edges, r, y) {
      ReachTransitive(edges, x, r, y);
    }
  }

  /** The state of the search after some components are found: `rest` is
      the uncovered nodes, the groups are disjoint rooted components outside
      `rest`, and `owner` names the group of every covered node. */
  ghost predicate Covering(edges: set<Edge>, rest: set<nat>, groups: seq<set<nat>>, roots: seq<nat>, owner: map<nat, nat>)
  {
    && rest <= Nodes(edges)
    && RootedGroups(edges, groups, roots)
    && (forall k, l :: 0 <= k < l < |groups| ==> groups[k] !! groups[l])
    && (forall k :: 0 <= k < |groups| ==> groups[k] !! rest && roots[k] in groups[k])
    && (forall y :: y in Nodes(edges) && y !in rest ==> y in owner && owner[y] < |groups| && y in groups[owner[y]])
  }

  /** The owner map after the members of c join group k. */
  function Own(owner: map<nat, nat>, c: set<nat>, k: nat): map<nat, nat>
  {
    map y | y in owner.Keys + c :: if y in c then k else owner[y]
  }

  /** The component of an uncovered node meets no group found so far. */
  lemma NewComponentDisjoint(edges: set<Edge>, groups: seq<set<nat>>, roots: seq<nat>, x: nat, c: set<nat>, k: nat)
    requires RootedGroups(edges, groups, roots)
    requires 0 <= k < |groups| && x !in groups[k]
    requires forall y :: y in c <==> Reach(edges, x, y)
    ensures groups[k] !! c
  {
    if z :| z in groups[k] && z in c {
      ReachSymmetric(edges, x, z);
      ReachTransitive(edges, roots[k], z, x);
    }
  }

  lemma AddKeepsRooted(edges: set<Edge>, groups: seq<set<nat>>, roots: seq<nat>, x: nat, c: set<nat>)
    requires RootedGroups(edges, groups, roots)
    requires x in Nodes(edges)
    requires forall y :: y in c <==> Reach(edges, x, y)
    requires c <= Nodes(edges) + {x}
    ensures RootedGroups(edges, groups + [c], roots + [x])
  {
    var groups', roots' := groups + [c], roots + [x];
    assert forall k :: 0 <= k < |groups| ==> groups'[k] == groups[k] && roots'[k] == roots[k];
  }

  lemma AddKeepsDisjoint(edges: set<Edge>, rest: set<nat>, groups: seq<set<nat>>, roots: seq<nat>, x: nat, c: set<nat>)
    requires RootedGroups(edges, groups, roots)
    requires forall k, l :: 0 <= k < l < |groups| ==> groups[k] !! groups[l]
    requires forall k :: 0 <= k < |groups| ==> groups[k] !! rest && roots[k] in groups[k]
    requires x in rest && x in c
    requires forall y :: y in c <==> Reach(edges, x, y)
    ensures forall k, l :: 0 <= k < l < |groups + [c]| ==> (groups + [c])[k] !! (groups + [c])[l]
    ensures forall k :: 0 <= k < |groups + [c]| ==> (groups + [c])[k] !! (rest - c) && (roots + [x])[k] in (groups + [c])[k]
  {
    forall k | 0 <= k < |groups|
      ensures groups[k] !! c
    {
      NewComponentDisjoint(edges, groups, roots, x, c, k);
    }
  }

  lemma AddKeepsOwner(edges: set<Edge>, rest: set<nat>, groups: seq<set<nat>>, owner: map<nat, nat>, c: set<nat>)
    requires forall y :: y in Nodes(edges) && y !in rest ==> y in owner && owner[y] < |groups| && y in groups[owner[y]]
    ensures var owner', groups' := Own(owner, c, |groups|), groups + [c];
      forall y :: y in Nodes(edges) && y !in rest - c ==> y in owner' && owner'[y] < |groups'| && y in groups'[owner'[y]]
  {
  }

  /** Adding the component of an uncovered node keeps the search state. */
  lemma AddComponent(edges: set<Edge>, rest: set<nat>, groups: seq<set<nat>>, roots: seq<nat>, owner: map<nat, nat>, x: nat, c: set<nat>)
    requires Covering(edges, rest, groups, roots, owner)
    requires x in rest
    requires forall y :: y in c <==> Reach(edges, x, y)
    requires x in c && c <= Nodes(edges) + {x}
    ensures Covering(edges, rest - c, groups + [c], roots + [x], Own(owner, c, |groups|))
  {
    AddKeepsRooted(edges, groups, roots, x, c);
    AddKeepsDisjoint(edges, rest, groups, roots, x, c);
    AddKeepsOwner(edges, rest, groups, owner, c);
  }

  /** `networkx.connected_components`: take a node not yet covered, add its
      component, until every node is covered. */
  method ConnectedComponents(edges: set<Edge>) returns (groups: seq<set<nat>>)
    ensures IsComponentList(edges, groups)
  {
    var rest := Nodes(edges);
    groups := [];
    ghost var roots: seq<nat> := [];
    ghost var owner: map<nat, nat> := map[];
    while rest != {}
      invariant Covering(edges, rest, groups, roots, owner)
      decreases rest
    {
      var x :| x in rest;
      var c := Component(edges, x);
      AddComponent(edges, rest, groups, roots, owner, x, c);
      owner := Own(owner, c, |groups|);
      groups := groups + [c];
      roots := roots + [x];
      rest := rest - c;
    }
    CoveringComplete(edges, groups, roots, owner);
  }

  /** Once no node is uncovered, the groups are the components. */
  lemma CoveringComplete(edges: set<Edge>, groups: seq<set<nat>>, roots: seq<nat>, owner: map<nat, nat>)
    requires Covering(edges, {}, groups, roots, owner)
    ensures IsComponentList(edges, groups)
  {
    forall k, x, y | 0 <= k < |groups| && x in groups[k]
      ensures y in groups[k] <==> Reach(edges, x, y)
    {
      SameComponent(edges, roots[k], x, y);
    }
    forall x | x in Nodes(edges)
      ensures x in Union(groups)
    {
      assert x in groups[owner[x]];
    }
  }

  // ---------------------------------------------------------------------
  // The link graph and the fused ring systems
  // ---------------------------------------------------------------------

  /** Rings i and j are fused when they share at least two atoms. */
  predicate Linked(rings: seq<Ring>, i: nat, j: nat)
    requires i < |rings| && j < |rings|
  {
    |rings[i] * rings[j]| >= 2
  }

  /** The pairs (i, j), i < j, before (n, m) in the order the source visits
      them (by i, then by j) whose rings are fused. */
  ghost function LinksBefore(rings: seq<Ring>, n: nat, m: nat): set<Edge>
  {
    set i: nat, j: nat | i < j < |rings| && (i < n || (i == n && j < m)) && Linked(rings, i, j) :: (i, j)
  }

  /** The edges of the link graph: every fused pair of rings. */
  ghost function LinkEdges(rings: seq<Ring>): (edges: set<Edge>)
    ensures forall e :: e in edges <==> e.0 < e.1 < |rings| && Linked(rings, e.0, e.1)
  {
    LinksBefore(rings, |rings|, 0)
  }

  /** The graph `G` of `FusedRings.calculate`: `add_edge(i, j)` for each
      pair i < j whose rings share at least two atoms. */
  method LinkGraph(rings: seq<Ring>) returns (edges: set<Edge>)
    ensures edges == LinkEdges(rings)
  {
    var l := |rings|;
    edges := {};
    var i := 0;
    while i < l
      invariant i <= l
      invariant edges == LinksBefore(rings, i, 0)
    {
      var j := i + 1;
      assert LinksBefore(rings, i, j) == LinksBefore(rings, i, 0);
      while j < l
        invariant i < j <= l
        invariant edges == LinksBefore(rings, i, j)
      {
        if |rings[i] * rings[j]| >= 2 {
          edges := edges + {(i, j)};
        }
        assert LinksBefore(rings, i, j + 1) == LinksBefore(rings, i, j) + (if Linked(rings, i, j) then {(i, j)} else {});
        j := j + 1;
      }
      assert LinksBefore(rings, i + 1, 0) == LinksBefore(rings, i, j);
      i := i + 1;
    }
  }

  /** The atoms of the rings whose indices are in g. */
  function RingUnion(rings: seq<Ring>, g: set<nat>): (u: Ring)
    ensures forall a :: a in u <==> exists i :: i in g && i < |rings| && a in rings[i]
  {
    set i, a | i in g && i < |rings| && a in rings[i] :: a
  }

  /** `FusedRings.calculate`: no fused systems below two rings; otherwise
      one atom set per connected component of the link graph, the union of
      that component's rings. `groups` is the component list behind the
      result, in the order networkx yields it. */
  method Calculate(rings: seq<Ring>) returns (fused: seq<Ring>, ghost groups: seq<set<nat>>)
    ensures |rings| < 2 ==> fused == []
    ensures IsComponentList(LinkEdges(rings), groups)
    ensures |fused| == |groups|
    ensures forall k :: 0 <= k < |groups| ==> fused[k] == RingUnion(rings, groups[k])
  {
    if |rings| < 2 {
      FewRingsNoLinks(rings);
      return [], [];
    }
    var edges := LinkGraph(rings);
    var components := ConnectedComponents(edges);
    groups := components;
    fused := seq(|components|, k requires 0 <= k < |components| => RingUnion(rings, components[k]));
  }

  lemma FewRingsNoLinks(rings: seq<Ring>)
    requires |rings| < 2
    ensures LinkEdges(rings) == {}
    ensures IsComponentList(LinkEdges(rings), [])
  {
    if e :| e in LinkEdges(rings) {
      assert false;
    }
  }

  // ---------------------------------------------------------------------
  // What the result promises
  // ---------------------------------------------------------------------

  /** With fewer than two rings there is no fused system, whatever order
      the components come in. */
  lemma FewRingsNoGroups(rings: seq<Ring>, groups: seq<set<nat>>)
    requires |rings| < 2
    requires IsComponentList(LinkEdges(rings), groups)
    ensures groups == []
  {
    FewRingsNoLinks(rings);
    EmptyGraphNoGroups(LinkEdges(rings), groups);
  }

  lemma EmptyGraphNoGroups(edges: set<Edge>, groups: seq<set<nat>>)
    requires edges == {}
    requires IsComponentList(edges, groups)
    ensures groups == []
  {
    if |groups| > 0 {
      assert false;
    }
  }

  /** Every node of the graph is the end of some edge. */
  lemma NodeHasEdge(edges: set<Edge>, x: nat) returns (e: Edge)
    requires x in Nodes(edges)
    ensures e in edges && (e.0 == x || e.1 == x)
  {
    if e' :| e' in edges && e'.0 == x {
      e := e';
    } else {
      e :| e in edges && e.1 == x;
    }
  }

  /** Both ends of an edge lie in one component. */
  lemma EdgeInOneGroup(edges: set<Edge>, groups: seq<set<nat>>, i: nat, j: nat) returns (k: nat)
    requires IsComponentList(edges, groups)
    requires (i, j) in edges
    ensures k < |groups| && i in groups[k] && j in groups[k]
  {
    assert i in Nodes(edges);
    k := InUnion(groups, i);
    ReachEdge(edges, i, j);
  }

  /** A node on no edge lies in no component. */
  lemma IsolatedInNoGroup(edges: set<Edge>, groups: seq<set<nat>>, i: nat)
    requires IsComponentList(edges, groups)
    requires forall e :: e in edges ==> e.0 != i && e.1 != i
    ensures forall k :: 0 <= k < |groups| ==> i !in groups[k]
  {
    if i in Nodes(edges) {
      var e := NodeHasEdge(edges, i);
    }
  }

  /** Without self-loops, every component has at least two nodes. */
  lemma GroupHasTwoNodes(edges: set<Edge>, groups: seq<set<nat>>, k: nat)
    requires IsComponentList(edges, groups)
    requires forall e :: e in edges ==> e.0 != e.1
    requires k < |groups|
    ensures |groups[k]| >= 2
  {
    var x :| x in groups[k];
    var e := NodeHasEdge(edges, x);
    var y := if e.0 == x then e.1 else e.0;
    ReachEdge(edges, x, y);
    assert y in groups[k] && x != y;
    assert groups[k] == {x, y} + (groups[k] - {x, y});
  }

  lemma SameMembers(a: set<nat>, b: set<nat>)
    requires forall y :: y in a <==> y in b
    ensures a == b
  {
  }

  /** The component list is determined by the graph up to order: any two
      lists networkx could yield hold the same groups. */
  lemma GroupsUnique(edges: set<Edge>, groups: seq<set<nat>>, others: seq<set<nat>>)
    requires IsComponentList(edges, groups) && IsComponentList(edges, others)
    ensures forall g :: g in groups ==> g in others
  {
    forall g | g in groups
      ensures g in others
    {
      var k :| 0 <= k < |groups| && groups[k] == g;
      var x :| x in g;
      assert x in Nodes(edges);
      var l := InUnion(others, x);
      assert forall y :: y in g <==> Reach(edges, x, y);
      assert forall y :: y in others[l] <==> Reach(edges, x, y);
      SameMembers(g, others[l]);
    }
  }

  /** Two rings that share at least two atoms end up in the same system. */
  lemma LinkedRingsGrouped(rings: seq<Ring>, groups: seq<set<nat>>, i: nat, j: nat)
    requires IsComponentList(LinkEdges(rings), groups)
    requires i < j < |rings| && Linked(rings, i, j)
    ensures exists k :: 0 <= k < |groups| && i in groups[k] && j in groups[k]
  {
    var k := EdgeInOneGroup(LinkEdges(rings), groups, i, j);
  }

  /** A ring fused to no other ring belongs to no system. */
  lemma UnlinkedRingExcluded(rings: seq<Ring>, groups: seq<set<nat>>, i: nat)
    requires IsComponentList(LinkEdges(rings), groups)
    requires i < |rings|
    requires forall j :: 0 <= j < |rings| && j != i ==> !Linked(rings, i, j)
    ensures forall k :: 0 <= k < |groups| ==> i !in groups[k]
  {
    forall e | e in LinkEdges(rings)
      ensures e.0 != i && e.1 != i
    {
      assert Linked(rings, e.0, e.1);
      assert rings[e.1] * rings[e.0] == rings[e.0] * rings[e.1];
      assert Linked(rings, e.1, e.0);
    }
    IsolatedInNoGroup(LinkEdges(rings), groups, i);
  }

  /** Every system is made of at least two rings. */
  lemma GroupHasTwoRings(rings: seq<Ring>, groups: seq<set<nat>>, k: nat)
    requires IsComponentList(LinkEdges(rings), groups)
    requires k < |groups|
    ensures |groups[k]| >= 2
  {
    GroupHasTwoNodes(LinkEdges(rings), groups, k);
  }

  /** Every system gathers input rings that are fused to each other,
      directly or through a chain of fused rings. */
  lemma GroupIsConnected(rings: seq<Ring>, groups: seq<set<nat>>, k: nat, i: nat, j: nat)
    requires IsComponentList(LinkEdges(rings), groups)
    requires k < |groups| && i in groups[k] && j in groups[k]
    ensures i < |rings| && Reach(LinkEdges(rings), i, j)
  {
    assert i in Nodes(LinkEdges(rings));
    var e := NodeHasEdge(LinkEdges(rings), i);
  }

  /** Every fused system is an atom set of the molecule, and holds every
      atom of each ring in its group. */
  lemma FusedSystemsInMolecule(mol: Molecule, rings: seq<Ring>, groups: seq<set<nat>>, k: nat)
    requires RingsIn(mol, rings)
    requires k < |groups|
    ensures RingIn(mol, RingUnion(rings, groups[k]))
    ensures forall i :: i in groups[k] && i < |rings| ==> rings[i] <= RingUnion(rings, groups[k])
  {
  }
}
