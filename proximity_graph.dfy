/** The first half of `ProximityManager.checkUserProximity`: the neighbour graph built from
    squared distances and its connected components, found with a stack work-list. */
module ProximityGraph {
  import opened Common
  import opened Strings

  /** The `userPositions` Map: its keys in insertion order and the position of each key. */
  datatype Positions = Positions(order: seq<UserId>, at: map<UserId, Pos>)

  /** What a JavaScript Map guarantees: each key once, and exactly the keys that have values. */
  predicate WellFormed(ps: Positions) {
    Distinct(ps.order) && ps.at.Keys == Members(ps.order)
  }

  function DistSq(p: Pos, q: Pos): int {
    var dx := p.x - q.x;
    var dy := p.y - q.y;
    dx * dx + dy * dy
  }

  /** The proximity distance is twice the collision distance; the test compares squares. */
  function ProximitySq(collisionDistance: int): int {
    (collisionDistance * 2) * (collisionDistance * 2)
  }

  /** Two different users are neighbours when their squared distance is at most the square of
      the proximity distance (the bound itself included). */
  predicate Adjacent(ps: Positions, cd: int, u: UserId, v: UserId) {
    u in ps.at && v in ps.at && u != v && DistSq(ps.at[u], ps.at[v]) <= ProximitySq(cd)
  }

  lemma AdjacentSymmetric(ps: Positions, cd: int, u: UserId, v: UserId)
    ensures Adjacent(ps, cd, u, v) <==> Adjacent(ps, cd, v, u)
  {
    if u in ps.at && v in ps.at {
      var p, q := ps.at[u], ps.at[v];
      assert (p.x - q.x) * (p.x - q.x) == (q.x - p.x) * (q.x - p.x);
      assert (p.y - q.y) * (p.y - q.y) == (q.y - p.y) * (q.y - p.y);
    }
  }

  /** The neighbour set of `u` built by the inner `forEach`, restricted to the keys in `s`,
      in the order in which `s` lists them. */
  function NeighboursIn(ps: Positions, cd: int, u: UserId, s: seq<UserId>): seq<UserId> {
    if s == [] then []
    else
      var v := s[|s| - 1];
      NeighboursIn(ps, cd, u, s[..|s| - 1]) + (if Adjacent(ps, cd, u, v) then [v] else [])
  }

  /** The neighbour set holds exactly the keys adjacent to `u`, each once. */
  lemma {:induction false} NeighboursInMembers(ps: Positions, cd: int, u: UserId, s: seq<UserId>)
    ensures forall v :: v in NeighboursIn(ps, cd, u, s) <==> v in s && Adjacent(ps, cd, u, v)
    ensures Distinct(s) ==> Distinct(NeighboursIn(ps, cd, u, s))
  {
    if s != [] {
      var init := s[..|s| - 1];
      assert s == init + [s[|s| - 1]];
      NeighboursInMembers(ps, cd, u, init);
      if Distinct(s) {
        assert Distinct(init) by {
          forall a, b | 0 <= a < b < |init| ensures init[a] != init[b] { assert init[a] == s[a] && init[b] == s[b]; }
        }
        assert s[|s| - 1] !in init by {
          forall k | 0 <= k < |init| ensures init[k] != s[|s| - 1] { assert init[k] == s[k]; }
        }
      }
    }
  }

  function Neighbours(ps: Positions, cd: int, u: UserId): seq<UserId> {
    NeighboursIn(ps, cd, u, ps.order)
  }

  /** The keys of `proximityGraph`: the users of `s` that have at least one neighbour. */
  function NodesIn(ps: Positions, cd: int, s: seq<UserId>): seq<UserId> {
    if s == [] then []
    else
      var v := s[|s| - 1];
      NodesIn(ps, cd, s[..|s| - 1]) + (if |Neighbours(ps, cd, v)| > 0 then [v] else [])
  }

  /** The graph keeps exactly the users with at least one neighbour, each once. */
  lemma {:induction false} NodesInMembers(ps: Positions, cd: int, s: seq<UserId>)
    ensures forall v :: v in NodesIn(ps, cd, s) <==> v in s && |Neighbours(ps, cd, v)| > 0
    ensures Distinct(s) ==> Distinct(NodesIn(ps, cd, s))
  {
    if s != [] {
      var init := s[..|s| - 1];
      assert s == init + [s[|s| - 1]];
      NodesInMembers(ps, cd, init);
      if Distinct(s) {
        assert Distinct(init) by {
          forall a, b | 0 <= a < b < |init| ensures init[a] != init[b] { assert init[a] == s[a] && init[b] == s[b]; }
        }
        assert s[|s| - 1] !in init by {
          forall k | 0 <= k < |init| ensures init[k] != s[|s| - 1] { assert init[k] == s[k]; }
        }
      }
    }
  }

  function Nodes(ps: Positions, cd: int): seq<UserId> {
    NodesIn(ps, cd, ps.order)
  }

  /** A user is a graph node exactly when some other user is within the proximity distance. */
  lemma NodeIffNeighbour(ps: Positions, cd: int, u: UserId, v: UserId)
    requires WellFormed(ps) && Adjacent(ps, cd, u, v)
    ensures u in Nodes(ps, cd) && v in Nodes(ps, cd)
  {
    AdjacentSymmetric(ps, cd, u, v);
    NeighboursInMembers(ps, cd, u, ps.order);
    NeighboursInMembers(ps, cd, v, ps.order);
    NodesInMembers(ps, cd, ps.order);
    assert v in Neighbours(ps, cd, u);
    assert u in Neighbours(ps, cd, v);
  }

  /** The `proximityGraph` Map: each user with a neighbour, to its neighbour set. */
  function GraphOf(ps: Positions, cd: int): map<UserId, seq<UserId>> {
    map u | u in Nodes(ps, cd) :: Neighbours(ps, cd, u)
  }

  /** Every node of the graph is a user with a position. */
  lemma GraphNodesPositioned(ps: Positions, cd: int)
    requires WellFormed(ps)
    ensures forall u :: u in GraphOf(ps, cd) ==> u in ps.at
  {
    NodesInMembers(ps, cd, ps.order);
  }

  /** The two nested `forEach` loops of `checkUserProximity` that build the graph; `nodes` is
      the insertion order of its keys. */
  method BuildProximityGraph(ps: Positions, cd: int) returns (nodes: seq<UserId>, graph: map<UserId, seq<UserId>>)
    requires WellFormed(ps)
    ensures nodes == Nodes(ps, cd) && graph == GraphOf(ps, cd)
  {
    nodes, graph := [], map[];
    var i := 0;
    while i < |ps.order|
      invariant 0 <= i <= |ps.order|
      invariant BuiltSoFar(ps, cd, ps.order[..i], nodes, graph)
    {
      var userId := ps.order[i];
      var neighbours := CollectNeighbours(ps, cd, userId);
      BuildStep(ps, cd, i, nodes, graph);
      if |neighbours| > 0 {
        nodes := nodes + [userId];
        graph := graph[userId := neighbours];
      }
      i := i + 1;
    }
    assert ps.order[..|ps.order|] == ps.order;
    GraphOfKeysValues(ps, cd, graph);
  }

  /** The graph built from the users of `s`: their nodes in order, and each node to its
      neighbour set. */
  ghost predicate BuiltSoFar(ps: Positions, cd: int, s: seq<UserId>, nodes: seq<UserId>,
                             graph: map<UserId, seq<UserId>>) {
    && nodes == NodesIn(ps, cd, s)
    && graph.Keys == Members(nodes)
    && forall u :: u in graph ==> graph[u] == Neighbours(ps, cd, u)
  }

  /** One turn of the outer loop: the user is added with its neighbours when it has any. */
  lemma BuildStep(ps: Positions, cd: int, i: int, nodes: seq<UserId>, graph: map<UserId, seq<UserId>>)
    requires 0 <= i < |ps.order| && BuiltSoFar(ps, cd, ps.order[..i], nodes, graph)
    ensures var v := ps.order[i];
      |Neighbours(ps, cd, v)| > 0 ==>
        BuiltSoFar(ps, cd, ps.order[..i + 1], nodes + [v], graph[v := Neighbours(ps, cd, v)])
    ensures var v := ps.order[i];
      |Neighbours(ps, cd, v)| == 0 ==> BuiltSoFar(ps, cd, ps.order[..i + 1], nodes, graph)
  {
    var v := ps.order[i];
    NodesInStep(ps, cd, ps.order, i);
    if |Neighbours(ps, cd, v)| > 0 {
      AddNode(ps, cd, nodes, graph, v);
    }
  }

  lemma AddNode(ps: Positions, cd: int, nodes: seq<UserId>, graph: map<UserId, seq<UserId>>, v: UserId)
    requires graph.Keys == Members(nodes)
    requires forall u :: u in graph ==> graph[u] == Neighbours(ps, cd, u)
    ensures graph[v := Neighbours(ps, cd, v)].Keys == Members(nodes + [v])
    ensures forall u :: u in graph[v := Neighbours(ps, cd, v)] ==>
      graph[v := Neighbours(ps, cd, v)][u] == Neighbours(ps, cd, u)
  {
    MembersAppend(nodes, v);
  }

  lemma NodesInStep(ps: Positions, cd: int, s: seq<UserId>, i: int)
    requires 0 <= i < |s|
    ensures NodesIn(ps, cd, s[..i + 1]) ==
            NodesIn(ps, cd, s[..i]) + (if |Neighbours(ps, cd, s[i])| > 0 then [s[i]] else [])
  {
    assert s[..i + 1][..i] == s[..i];
  }

  /** A map with the nodes as keys and each node's neighbour set as value is the graph. */
  lemma GraphOfKeysValues(ps: Positions, cd: int, graph: map<UserId, seq<UserId>>)
    requires graph.Keys == Members(Nodes(ps, cd))
    requires forall u :: u in graph ==> graph[u] == Neighbours(ps, cd, u)
    ensures graph == GraphOf(ps, cd)
  {
  }

  /** The inner `forEach`: every other user within the proximity distance of `userId1`. */
  method CollectNeighbours(ps: Positions, cd: int, userId1: UserId) returns (neighbours: seq<UserId>)
    requires WellFormed(ps) && userId1 in ps.at
    ensures neighbours == Neighbours(ps, cd, userId1)
  {
    var proximitySq := ProximitySq(cd);
    var position1 := ps.at[userId1];
    neighbours := [];
    var j := 0;
    while j < |ps.order|
      invariant 0 <= j <= |ps.order|
      invariant neighbours == NeighboursIn(ps, cd, userId1, ps.order[..j])
    {
      var userId2 := ps.order[j];
      assert ps.order[..j + 1] == ps.order[..j] + [userId2];
      if userId1 != userId2 {
        var position2 := ps.at[userId2];
        if DistSq(position1, position2) <= proximitySq {
          neighbours := neighbours + [userId2];
        }
      }
      j := j + 1;
    }
    assert ps.order[..|ps.order|] == ps.order;
  }

  /** `v` is in the neighbour set of `u`. */
  predicate Edge(graph: map<UserId, seq<UserId>>, u: UserId, v: UserId) {
    u in graph && v in graph[u]
  }

  /** The edges of the built graph are exactly the pairs of users within the proximity
      distance, and every neighbour is itself a key. */
  lemma EdgeIffAdjacent(ps: Positions, cd: int, u: UserId, v: UserId)
    requires WellFormed(ps)
    ensures Edge(GraphOf(ps, cd), u, v) <==> Adjacent(ps, cd, u, v)
    ensures Edge(GraphOf(ps, cd), u, v) ==> v in GraphOf(ps, cd)
  {
    NeighboursInMembers(ps, cd, u, ps.order);
    NodesInMembers(ps, cd, ps.order);
    if Adjacent(ps, cd, u, v) {
      assert v in Neighbours(ps, cd, u);
      AdjacentSymmetric(ps, cd, u, v);
      NeighboursInMembers(ps, cd, v, ps.order);
      assert u in Neighbours(ps, cd, v);
    }
  }

  /** The shape `checkUserProximity` gives its graph: symmetric, no self-loops, no key with an
      empty neighbour set, no neighbour that is not a key. */
  ghost predicate ProperGraph(graph: map<UserId, seq<UserId>>) {
    && (forall u, v :: Edge(graph, u, v) ==> v in graph && Edge(graph, v, u) && u != v)
    && (forall u :: u in graph ==> |graph[u]| > 0)
  }

  lemma BuiltGraphProper(ps: Positions, cd: int)
    requires WellFormed(ps)
    ensures ProperGraph(GraphOf(ps, cd))
  {
    var graph := GraphOf(ps, cd);
    forall u, v | Edge(graph, u, v) ensures v in graph && Edge(graph, v, u) && u != v {
      EdgeIffAdjacent(ps, cd, u, v);
      AdjacentSymmetric(ps, cd, u, v);
      EdgeIffAdjacent(ps, cd, v, u);
    }
    NodesInMembers(ps, cd, ps.order);
  }

  /** A walk: each user is in the neighbour set of the one before. */
  ghost predicate IsWalk(graph: map<UserId, seq<UserId>>, p: seq<UserId>) {
    |p| > 0 && forall k :: 0 <= k < |p| - 1 ==> Edge(graph, p[k], p[k + 1])
  }

  ghost predicate Reachable(graph: map<UserId, seq<UserId>>, u: UserId, v: UserId) {
    exists p :: IsWalk(graph, p) && p[0] == u && p[|p| - 1] == v
  }

  lemma WalkExtend(graph: map<UserId, seq<UserId>>, p: seq<UserId>, n: UserId)
    requires IsWalk(graph, p) && Edge(graph, p[|p| - 1], n)
    ensures IsWalk(graph, p + [n])
  {
    var q := p + [n];
    forall k | 0 <= k < |q| - 1 ensures Edge(graph, q[k], q[k + 1]) {
      if k < |p| - 1 { assert q[k] == p[k] && q[k + 1] == p[k + 1]; }
    }
  }

  lemma WalkReverse(graph: map<UserId, seq<UserId>>, p: seq<UserId>) returns (r: seq<UserId>)
    requires ProperGraph(graph) && IsWalk(graph, p)
    ensures IsWalk(graph, r) && r[0] == p[|p| - 1] && r[|r| - 1] == p[0]
  {
    r := seq(|p|, k requires 0 <= k < |p| => p[|p| - 1 - k]);
    forall k | 0 <= k < |r| - 1 ensures Edge(graph, r[k], r[k + 1]) {
      var m := |p| - 2 - k;
      assert Edge(graph, p[m], p[m + 1]);
    }
  }

  lemma WalkConcat(graph: map<UserId, seq<UserId>>, p: seq<UserId>, q: seq<UserId>) returns (r: seq<UserId>)
    requires IsWalk(graph, p) && IsWalk(graph, q) && p[|p| - 1] == q[0]
    ensures IsWalk(graph, r) && r[0] == p[0] && r[|r| - 1] == q[|q| - 1]
  {
    r := p + q[1..];
    forall k | 0 <= k < |r| - 1 ensures Edge(graph, r[k], r[k + 1]) {
      if k < |p| - 1 {
        assert r[k] == p[k] && r[k + 1] == p[k + 1];
      } else {
        var m := k - (|p| - 1);
        assert r[k] == q[m] && r[k + 1] == q[m + 1];
      }
    }
  }

  /** `walks` records, for each user of `group`, a walk to it from `root`. */
  ghost predicate WalksFrom(graph: map<UserId, seq<UserId>>, walks: map<UserId, seq<UserId>>, root: UserId, group: seq<UserId>) {
    forall u :: u in group ==> u in walks && IsWalk(graph, walks[u]) && walks[u][0] == root && walks[u][|walks[u]| - 1] == u
  }

  /** Every user of a group is reachable from every other. */
  ghost predicate Connected(graph: map<UserId, seq<UserId>>, g: seq<UserId>) {
    forall u, v :: u in g && v in g ==> Reachable(graph, u, v)
  }

  /** No user of a group has a neighbour outside it. */
  ghost predicate Closed(graph: map<UserId, seq<UserId>>, g: seq<UserId>) {
    forall u, v :: u in g && Edge(graph, u, v) ==> v in g
  }

  /** A walk that starts inside a closed group never leaves it. */
  lemma {:induction false} ClosedKeepsWalk(graph: map<UserId, seq<UserId>>, g: seq<UserId>, p: seq<UserId>)
    requires Closed(graph, g) && IsWalk(graph, p) && p[0] in g
    ensures p[|p| - 1] in g
  {
    if |p| > 1 {
      var q := p[..|p| - 1];
      assert IsWalk(graph, q) by {
        forall k | 0 <= k < |q| - 1 ensures Edge(graph, q[k], q[k + 1]) {
          assert q[k] == p[k] && q[k + 1] == p[k + 1];
        }
      }
      ClosedKeepsWalk(graph, g, q);
      assert Edge(graph, p[|p| - 2], p[|p| - 1]);
    }
  }

  /** The users placed in some group. */
  ghost function Covered(groups: seq<seq<UserId>>): set<UserId> {
    if groups == [] then {}
    else Covered(groups[..|groups| - 1]) + Members(groups[|groups| - 1])
  }

  lemma {:induction false} CoveredMember(groups: seq<seq<UserId>>, u: UserId)
    ensures u in Covered(groups) <==> exists k :: 0 <= k < |groups| && u in groups[k]
  {
    if groups != [] {
      var init := groups[..|groups| - 1];
      CoveredMember(init, u);
      if u in Covered(init) {
        var k :| 0 <= k < |init| && u in init[k];
        assert groups[k] == init[k];
      }
      if exists k :: 0 <= k < |groups| && u in groups[k] {
        var k :| 0 <= k < |groups| && u in groups[k];
        if k < |init| { assert init[k] == groups[k]; }
      }
    }
  }

  /** Groups found so far: each sorted, of two or more users, closed and connected; no user
      in two groups. */
  ghost predicate GroupsSoFar(graph: map<UserId, seq<UserId>>, groups: seq<seq<UserId>>) {
    && (forall k :: 0 <= k < |groups| ==> |groups[k]| >= 2 && Sorted(groups[k]))
    && (forall k :: 0 <= k < |groups| ==> Closed(graph, groups[k]) && Connected(graph, groups[k]))
    && (forall a, b, u :: 0 <= a < b < |groups| && u in groups[a] ==> u !in groups[b])
  }

  /** A partition of the graph's keys into its connected components. */
  ghost predicate IsComponentPartition(graph: map<UserId, seq<UserId>>, groups: seq<seq<UserId>>) {
    GroupsSoFar(graph, groups) && Covered(groups) == graph.Keys
  }

  /** The second loop of `checkUserProximity`: a depth-first work-list search from every graph
      key not yet visited, in key order, keeping each component sorted. The contract fixes
      the set of groups, not their order in `groups`. */
  method FindGroups(nodes: seq<UserId>, graph: map<UserId, seq<UserId>>) returns (groups: seq<seq<UserId>>)
    requires ProperGraph(graph) && graph.Keys == Members(nodes)
    ensures IsComponentPartition(graph, groups)
  {
    var visited: set<UserId> := {};
    groups := [];
    var i := 0;
    while i < |nodes|
      invariant 0 <= i <= |nodes|
      invariant visited == Covered(groups)
      invariant forall k :: 0 <= k < i ==> nodes[k] in visited
      invariant visited <= graph.Keys
      invariant GroupsSoFar(graph, groups)
    {
      var userId := nodes[i];
      if userId !in visited {
        groups, visited := AddComponent(graph, groups, visited, userId);
      }
      i := i + 1;
    }
    forall u | u in graph ensures u in Covered(groups) {
      var k :| 0 <= k < |nodes| && nodes[k] == u;
    }
  }

  /** The body of `proximityGraph.forEach` for a key not yet visited: explore its component,
      then keep it sorted when it has two or more users (which it always has). */
  method AddComponent(graph: map<UserId, seq<UserId>>, groups0: seq<seq<UserId>>, visited0: set<UserId>, userId: UserId)
    returns (groups: seq<seq<UserId>>, visited: set<UserId>)
    requires ProperGraph(graph)
    requires GroupsSoFar(graph, groups0) && visited0 == Covered(groups0) && visited0 <= graph.Keys
    requires userId in graph && userId !in visited0
    ensures GroupsSoFar(graph, groups) && visited == Covered(groups) && visited <= graph.Keys
    ensures visited0 <= visited && userId in visited
  {
    var group, walks := ExploreFrom(graph, groups0, visited0, userId);
    visited := visited0 + Members(group);
    groups := groups0;
    if |group| >= 2 {
      var sorted := Sort(group);
      SortKeepsMembers(group);
      SortedGroupKeepsInvariant(graph, groups0, group, sorted, walks, userId);
      groups := groups0 + [sorted];
    }
  }

  /** The `while (toVisit.length > 0)` loop: pops a user and pushes its unvisited neighbours. */
  method ExploreFrom(graph: map<UserId, seq<UserId>>, ghost groups: seq<seq<UserId>>,
                     visited0: set<UserId>, root: UserId)
    returns (group: seq<UserId>, ghost walks: map<UserId, seq<UserId>>)
    requires ProperGraph(graph)
    requires GroupsSoFar(graph, groups) && visited0 == Covered(groups) && visited0 <= graph.Keys
    requires root in graph && root !in visited0
    ensures Distinct(group) && root in group && |group| >= 2
    ensures forall u :: u in group ==> u in graph && u !in visited0
    ensures Closed(graph, group)
    ensures WalksFrom(graph, walks, root, group)
  {
    group := [root];
    var toVisit := [root];
    var visited := visited0 + {root};
    walks := map[root := [root]];
    while |toVisit| > 0
      invariant SearchInvariant(graph, visited0, root, visited, group, toVisit, walks)
      decreases |graph.Keys - visited| + |toVisit|
    {
      visited, group, toVisit, walks := ExploreNext(graph, visited0, root, visited, group, toVisit, walks);
    }
    SearchDone(graph, groups, visited0, root, visited, group, walks);
  }

  /** One round of the search: pop the last user of the work-list and push its neighbours
      that have not been seen yet. */
  method ExploreNext(graph: map<UserId, seq<UserId>>, ghost visited0: set<UserId>, ghost root: UserId,
                     seen: set<UserId>, group0: seq<UserId>, toVisit0: seq<UserId>,
                     ghost walks0: map<UserId, seq<UserId>>)
    returns (visited: set<UserId>, group: seq<UserId>, toVisit: seq<UserId>, ghost walks: map<UserId, seq<UserId>>)
    requires ProperGraph(graph) && |toVisit0| > 0
    requires SearchInvariant(graph, visited0, root, seen, group0, toVisit0, walks0)
    ensures SearchInvariant(graph, visited0, root, visited, group, toVisit, walks)
    ensures |graph.Keys - visited| + |toVisit| < |graph.Keys - seen| + |toVisit0|
  {
    var current := toVisit0[|toVisit0| - 1];
    PopLast(toVisit0);
    var rest := toVisit0[..|toVisit0| - 1];
    assert current in group0 && current in walks0 && current in graph;
    NeighboursAreKeys(graph, current);
    ghost var added, newWalks;
    visited, group, toVisit, added, newWalks :=
      VisitNeighbours(graph[current], seen, group0, rest, walks0[current], graph.Keys);
    SearchStep(graph, visited0, root, seen, group0, rest, walks0, current, added, newWalks);
    SearchMeasure(graph.Keys, seen, rest, current, added);
    walks := walks0 + newWalks;
  }

  lemma NeighboursAreKeys(graph: map<UserId, seq<UserId>>, u: UserId)
    requires ProperGraph(graph) && u in graph
    ensures forall k :: 0 <= k < |graph[u]| ==> graph[u][k] in graph.Keys
  {
    forall k | 0 <= k < |graph[u]| ensures graph[u][k] in graph.Keys {
      assert Edge(graph, u, graph[u][k]);
    }
  }

  /** With the work-list empty, the group is a whole component of two or more users. */
  lemma SearchDone(graph: map<UserId, seq<UserId>>, groups: seq<seq<UserId>>, visited0: set<UserId>, root: UserId,
                   visited: set<UserId>, group: seq<UserId>, walks: map<UserId, seq<UserId>>)
    requires ProperGraph(graph) && GroupsSoFar(graph, groups) && visited0 == Covered(groups)
    requires SearchInvariant(graph, visited0, root, visited, group, [], walks)
    ensures Distinct(group) && root in group && |group| >= 2
    ensures forall u :: u in group ==> u in graph && u !in visited0
    ensures Closed(graph, group)
    ensures WalksFrom(graph, walks, root, group)
  {
    ComponentClosed(graph, groups, group);
    var w := graph[root][0];
    assert Edge(graph, root, w);
    var i :| 0 <= i < |group| && group[i] == root;
    var j :| 0 <= j < |group| && group[j] == w;
    assert i != j;
  }

  /** What holds of the search state at the top of the `while (toVisit.length > 0)` loop:
      `visited` is the earlier groups plus this group, the group lists each user once, every
      user of the group off the work-list has all its neighbours visited, and each user of the
      group is reached from `root` by a recorded walk. */
  ghost predicate SearchInvariant(graph: map<UserId, seq<UserId>>, visited0: set<UserId>, root: UserId,
                                  visited: set<UserId>, group: seq<UserId>, toVisit: seq<UserId>,
                                  walks: map<UserId, seq<UserId>>) {
    && visited == visited0 + Members(group)
    && visited <= graph.Keys
    && Distinct(group) && root in group
    && (forall u :: u in group ==> u in graph && u !in visited0)
    && (forall u :: u in toVisit ==> u in group)
    && (forall u, v :: u in group && u !in toVisit && Edge(graph, u, v) ==> v in visited)
    && WalksFrom(graph, walks, root, group)
  }

  /** One round of the search keeps `SearchInvariant`, once `current` has been popped and its
      unvisited neighbours `added` pushed. */
  lemma SearchStep(graph: map<UserId, seq<UserId>>, visited0: set<UserId>, root: UserId,
                   visited: set<UserId>, group: seq<UserId>, toVisit: seq<UserId>,
                   walks: map<UserId, seq<UserId>>, current: UserId,
                   added: seq<UserId>, newWalks: map<UserId, seq<UserId>>)
    requires ProperGraph(graph)
    requires SearchInvariant(graph, visited0, root, visited, group, toVisit + [current], walks)
    requires Distinct(added) && forall u :: u in added ==> u !in visited && u in graph[current]
    requires forall u :: u in added ==> u in newWalks && newWalks[u] == walks[current] + [u]
    requires newWalks.Keys == Members(added)
    requires forall k :: 0 <= k < |graph[current]| ==> graph[current][k] in visited + Members(added)
    ensures SearchInvariant(graph, visited0, root, visited + Members(added), group + added, toVisit + added,
                            walks + newWalks)
  {
    var visited', group' := visited + Members(added), group + added;
    assert current in group;
    MembersConcat(group, added);
    DistinctConcat(group, added);
    forall u | u in group' ensures u in graph && u !in visited0 {
      if u in added { assert Edge(graph, current, u); }
    }
    SearchStepClosed(graph, visited0, root, visited, group, toVisit, walks, current, added, newWalks);
    SearchStepWalks(graph, visited0, root, visited, group, toVisit, walks, current, added, newWalks);
  }

  /** After the round, every user of the group off the work-list has all its neighbours
      visited: `current` because all of its neighbours now are. */
  lemma SearchStepClosed(graph: map<UserId, seq<UserId>>, visited0: set<UserId>, root: UserId,
                   visited: set<UserId>, group: seq<UserId>, toVisit: seq<UserId>,
                   walks: map<UserId, seq<UserId>>, current: UserId,
                   added: seq<UserId>, newWalks: map<UserId, seq<UserId>>)
    requires ProperGraph(graph)
    requires SearchInvariant(graph, visited0, root, visited, group, toVisit + [current], walks)
    requires Distinct(added) && forall u :: u in added ==> u !in visited && u in graph[current]
    requires forall u :: u in added ==> u in newWalks && newWalks[u] == walks[current] + [u]
    requires newWalks.Keys == Members(added)
    requires forall k :: 0 <= k < |graph[current]| ==> graph[current][k] in visited + Members(added)
    ensures forall u, v :: u in group + added && u !in toVisit + added && Edge(graph, u, v) ==>
      v in visited + Members(added)
  {
    MembersConcat(group, added);
    forall u, v | u in group + added && u !in toVisit + added && Edge(graph, u, v)
      ensures v in visited + Members(added)
    {
      if u == current {
        var k :| 0 <= k < |graph[current]| && graph[current][k] == v;
      } else {
        assert u !in toVisit + [current];
      }
    }
  }

  /** After the round, each user of the group still has a walk from `root`. */
  lemma SearchStepWalks(graph: map<UserId, seq<UserId>>, visited0: set<UserId>, root: UserId,
                   visited: set<UserId>, group: seq<UserId>, toVisit: seq<UserId>,
                   walks: map<UserId, seq<UserId>>, current: UserId,
                   added: seq<UserId>, newWalks: map<UserId, seq<UserId>>)
    requires ProperGraph(graph)
    requires SearchInvariant(graph, visited0, root, visited, group, toVisit + [current], walks)
    requires Distinct(added) && forall u :: u in added ==> u !in visited && u in graph[current]
    requires forall u :: u in added ==> u in newWalks && newWalks[u] == walks[current] + [u]
    requires newWalks.Keys == Members(added)
    requires forall k :: 0 <= k < |graph[current]| ==> graph[current][k] in visited + Members(added)
    ensures WalksFrom(graph, walks + newWalks, root, group + added)
  {
    var walks' := walks + newWalks;
    assert current in group;
    forall u | u in group + added
      ensures u in walks' && IsWalk(graph, walks'[u]) && walks'[u][0] == root && walks'[u][|walks'[u]| - 1] == u
    {
      if u in added {
        assert Edge(graph, current, u);
        WalkExtend(graph, walks[current], u);
      } else {
        assert u in group;
        assert u !in newWalks;
      }
    }
  }

  /** `neighbors.forEach(...)` inside the search: each neighbour not yet visited is marked
      visited, added to the group and pushed on the work-list; `added` lists those users, and
      `newWalks` extends the walk to `current` by one step to each of them. */
  method VisitNeighbours(neighbours: seq<UserId>, visited0: set<UserId>, group0: seq<UserId>, toVisit0: seq<UserId>,
                         ghost walk: seq<UserId>, ghost keys: set<UserId>)
    returns (visited: set<UserId>, group: seq<UserId>, toVisit: seq<UserId>,
             ghost added: seq<UserId>, ghost newWalks: map<UserId, seq<UserId>>)
    requires visited0 <= keys && forall k :: 0 <= k < |neighbours| ==> neighbours[k] in keys
    ensures group == group0 + added && toVisit == toVisit0 + added
    ensures visited == visited0 + Members(added)
    ensures forall k :: 0 <= k < |neighbours| ==> neighbours[k] in visited
    ensures Distinct(added) && forall u :: u in added ==> u !in visited0 && u in neighbours && u in keys
    ensures forall u :: u in added ==> u in newWalks && newWalks[u] == walk + [u]
    ensures visited <= keys && newWalks.Keys == Members(added)
  {
    visited, group, toVisit, added, newWalks := visited0, group0, toVisit0, [], map[];
    var j := 0;
    while j < |neighbours|
      invariant 0 <= j <= |neighbours|
      invariant group == group0 + added && toVisit == toVisit0 + added
      invariant visited == visited0 + Members(added) && visited <= keys
      invariant forall k :: 0 <= k < j ==> neighbours[k] in visited
      invariant Distinct(added) && forall u :: u in added ==> u !in visited0 && u in neighbours && u in keys
      invariant forall u :: u in added ==> u in newWalks && newWalks[u] == walk + [u]
      invariant newWalks.Keys == Members(added)
    {
      var neighbour := neighbours[j];
      if neighbour !in visited {
        AppendAssoc(group0, added, neighbour);
        AppendAssoc(toVisit0, added, neighbour);
        MembersAppend(added, neighbour);
        DistinctAppend(added, neighbour);
        visited := visited + {neighbour};
        group := group + [neighbour];
        toVisit := toVisit + [neighbour];
        added := added + [neighbour];
        newWalks := newWalks[neighbour := walk + [neighbour]];
      }
      j := j + 1;
    }
  }

  /** The search's measure drops by one in each round: `current` is popped and each pushed
      user leaves the unvisited keys. */
  lemma SearchMeasure(keys: set<UserId>, visited: set<UserId>, toVisit: seq<UserId>, current: UserId, added: seq<UserId>)
    requires Distinct(added) && forall u :: u in added ==> u in keys && u !in visited
    ensures |keys - (visited + Members(added))| + |toVisit + added| < |keys - visited| + |toVisit + [current]|
  {
    RemainingAfter(keys, visited, added);
  }

  /** Marking `added` visited leaves `|added|` fewer keys unvisited. */
  lemma RemainingAfter(keys: set<UserId>, visited: set<UserId>, added: seq<UserId>)
    requires Distinct(added) && forall u :: u in added ==> u in keys && u !in visited
    ensures |keys - (visited + Members(added))| == |keys - visited| - |added|
  {
    DistinctMembersCount(added);
    RemoveDisjoint(keys, visited, Members(added));
  }

  /** Taking away a part `a` of the unvisited keys leaves `|a|` fewer. */
  lemma RemoveDisjoint(keys: set<UserId>, visited: set<UserId>, a: set<UserId>)
    requires a <= keys && a !! visited
    ensures |keys - (visited + a)| == |keys - visited| - |a|
  {
    var rest := keys - (visited + a);
    assert keys - visited == rest + a;
    assert rest !! a;
  }

  /** A sequence without repeats has as many members as elements. */
  lemma {:induction false} DistinctMembersCount(s: seq<UserId>)
    requires Distinct(s)
    ensures |Members(s)| == |s|
  {
    if s != [] {
      var init, n := s[..|s| - 1], s[|s| - 1];
      DistinctInit(s);
      DistinctMembersCount(init);
      assert s == init + [n];
      MembersAppend(init, n);
    }
  }

  lemma PopLast(s: seq<UserId>)
    requires |s| > 0
    ensures s == s[..|s| - 1] + [s[|s| - 1]]
  {
  }

  lemma AppendAssoc(a: seq<UserId>, b: seq<UserId>, x: UserId)
    ensures a + (b + [x]) == (a + b) + [x]
  {
  }

  /** A group every member of which has all its neighbours in the group or in earlier groups
      is closed, since the earlier groups are closed and edges go both ways. */
  lemma ComponentClosed(graph: map<UserId, seq<UserId>>, groups: seq<seq<UserId>>, group: seq<UserId>)
    requires ProperGraph(graph) && GroupsSoFar(graph, groups)
    requires forall u :: u in group ==> u !in Covered(groups)
    requires forall u, v :: u in group && Edge(graph, u, v) ==> v in Covered(groups) || v in group
    ensures Closed(graph, group)
  {
    forall u, v | u in group && Edge(graph, u, v) ensures v in group {
      if v in Covered(groups) {
        CoveredMember(groups, v);
        var k :| 0 <= k < |groups| && v in groups[k];
        assert Edge(graph, v, u);
        CoveredMember(groups, u);
        assert false;
      }
    }
  }

  /** `sort()` keeps the elements and, on a duplicate-free array, sorts strictly. */
  lemma SortKeepsMembers(s: seq<UserId>)
    ensures Distinct(s) ==> Sorted(Sort(s))
    ensures |Sort(s)| == |s| && forall u :: u in Sort(s) <==> u in s
  {
    forall u ensures u in Sort(s) <==> u in s {
      assert u in Sort(s) <==> u in multiset(Sort(s));
    }
  }

  /** Sorting a freshly explored component keeps the invariant of the outer loop. */
  lemma SortedGroupKeepsInvariant(graph: map<UserId, seq<UserId>>, groups: seq<seq<UserId>>, group: seq<UserId>,
                                  sorted: seq<UserId>, walks: map<UserId, seq<UserId>>, root: UserId)
    requires ProperGraph(graph) && GroupsSoFar(graph, groups)
    requires Distinct(group) && |group| >= 2
    requires forall u :: u in group ==> u !in Covered(groups)
    requires Closed(graph, group)
    requires WalksFrom(graph, walks, root, group)
    requires Sorted(sorted) && |sorted| == |group| && forall u :: u in sorted <==> u in group
    ensures GroupsSoFar(graph, groups + [sorted])
    ensures Covered(groups + [sorted]) == Covered(groups) + Members(group)
  {
    var all := groups + [sorted];
    forall u, v | u in sorted && v in sorted ensures Reachable(graph, u, v) {
      var back := WalkReverse(graph, walks[u]);
      var r := WalkConcat(graph, back, walks[v]);
    }
    forall a, b, u | 0 <= a < b < |all| && u in all[a] ensures u !in all[b] {
      if b == |groups| {
        assert all[a] == groups[a];
        CoveredMember(groups, u);
      } else {
        assert all[a] == groups[a] && all[b] == groups[b];
      }
    }
    assert all[..|all| - 1] == groups;
  }

  /** A connected group that meets a closed group lies inside it. */
  lemma ConnectedInsideClosed(graph: map<UserId, seq<UserId>>, g: seq<UserId>, h: seq<UserId>, x: UserId)
    requires Connected(graph, g) && Closed(graph, h) && x in g && x in h
    ensures forall y :: y in g ==> y in h
  {
    forall y | y in g ensures y in h {
      assert Reachable(graph, x, y);
      var p :| IsWalk(graph, p) && p[0] == x && p[|p| - 1] == y;
      ClosedKeepsWalk(graph, h, p);
    }
  }

  /** Two partitions into connected components have the same groups: the outcome of the search
      does not depend on the order in which it visits the keys. */
  lemma PartitionUnique(graph: map<UserId, seq<UserId>>, g1: seq<seq<UserId>>, g2: seq<seq<UserId>>)
    requires IsComponentPartition(graph, g1) && IsComponentPartition(graph, g2)
    ensures forall g :: g in g2 ==> g in g1
  {
    forall g | g in g2 ensures g in g1 {
      var k :| 0 <= k < |g2| && g2[k] == g;
      assert |g| >= 2 && Sorted(g) && Closed(graph, g) && Connected(graph, g);
      var x := g[0];
      CoveredMember(g2, x);
      CoveredMember(g1, x);
      var m :| 0 <= m < |g1| && x in g1[m];
      var h := g1[m];
      assert Sorted(h) && Closed(graph, h) && Connected(graph, h);
      ConnectedInsideClosed(graph, g, h, x);
      ConnectedInsideClosed(graph, h, g, x);
      SortedUnique(g, h);
    }
  }
}
