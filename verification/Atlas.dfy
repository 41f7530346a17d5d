/** The Atlas subgraph query: a recursive common table expression that
    enumerates the paths leaving a root node, then keeps one row for each node.

    The edge table is a sequence of rows, so parallel edges and cycles are
    ordinary inputs. Each recursive round is a function from the working set to
    the next one, as `UNION ALL` evaluates it. */
module Atlas {
  import opened Text

  /** A row of the edge table; `id` is its primary key, so rows are distinct. */
  datatype Edge = Edge(id: int, from: int, to: int, edgeType: string)

  datatype Node = Node(projectId: int, kind: string, slug: string, title: string, description: string)

  /** One row of the recursive relation `bfs`. */
  datatype PathRow = PathRow(nodeId: int, depth: int, viaEdgeType: string, viaFromNodeId: int, visited: seq<int>)

  /** One row of the result. */
  datatype SubgraphRow = SubgraphRow(
    id: int, kind: string, slug: string, title: string, description: string,
    depth: int, viaEdgeType: string, viaFromNodeId: int)

  // ---------------------------------------------------------------- the query

  function Anchor(root: int): PathRow {
    PathRow(root, 0, "", 0, [root])
  }

  predicate Joins(b: PathRow, e: Edge, maxDepth: int) {
    e.from == b.nodeId && b.depth < maxDepth && e.to !in b.visited
  }

  function Extend(b: PathRow, e: Edge): PathRow {
    PathRow(e.to, b.depth + 1, e.edgeType, e.from, b.visited + [e.to])
  }

  /** The rows the join makes from `b` and the first `m` edges. */
  function Extensions(edges: seq<Edge>, b: PathRow, maxDepth: int, m: nat): seq<PathRow>
    requires m <= |edges|
  {
    if m == 0 then []
    else Extensions(edges, b, maxDepth, m - 1)
         + if Joins(b, edges[m - 1], maxDepth) then [Extend(b, edges[m - 1])] else []
  }

  /** One recursive round: the working set joined with the edge table. */
  function Round(edges: seq<Edge>, working: seq<PathRow>, maxDepth: int): seq<PathRow> {
    if working == [] then []
    else Round(edges, working[..|working| - 1], maxDepth)
         + Extensions(edges, working[|working| - 1], maxDepth, |edges|)
  }

  /** The working set after `k` rounds. */
  function Level(edges: seq<Edge>, root: int, maxDepth: int, k: nat): seq<PathRow> {
    if k == 0 then [Anchor(root)] else Round(edges, Level(edges, root, maxDepth, k - 1), maxDepth)
  }

  /** Rounds are taken until one is empty. The recursion needs no depth cap: it
      ends because a non-empty round `k` needs more than `k` reachable nodes. */
  function Recurse(edges: seq<Edge>, root: int, maxDepth: int, working: seq<PathRow>, k: nat): seq<PathRow>
    requires Distinct(edges) && working == Level(edges, root, maxDepth, k)
    decreases |Reachable(edges, root)| - k
  {
    if working == [] then []
    else
      RecursionStops(edges, root, maxDepth, k);
      working + Recurse(edges, root, maxDepth, Round(edges, working, maxDepth), k + 1)
  }

  function Bfs(edges: seq<Edge>, root: int, maxDepth: int): seq<PathRow>
    requires Distinct(edges)
  {
    Recurse(edges, root, maxDepth, [Anchor(root)], 0)
  }

  function JoinNode(b: PathRow, n: Node): SubgraphRow {
    SubgraphRow(b.nodeId, n.kind, n.slug, n.title, n.description, b.depth, b.viaEdgeType, b.viaFromNodeId)
  }

  predicate Keeps(nodes: map<int, Node>, projectId: int, b: PathRow) {
    b.nodeId in nodes && nodes[b.nodeId].projectId == projectId && b.depth > 0
  }

  /** `bfs` joined with the node table; only here does the project matter. */
  function Joined(nodes: map<int, Node>, projectId: int, rows: seq<PathRow>): seq<SubgraphRow> {
    if rows == [] then []
    else Joined(nodes, projectId, rows[..|rows| - 1])
         + var b := rows[|rows| - 1];
           if Keeps(nodes, projectId, b) then [JoinNode(b, nodes[b.nodeId])] else []
  }

  /** `ORDER BY depth ASC, via_edge_type ASC` within one node id. */
  predicate OrderLeq(a: SubgraphRow, b: SubgraphRow) {
    a.depth < b.depth || (a.depth == b.depth && Leq(a.viaEdgeType, b.viaEdgeType))
  }

  ghost predicate AscendingIds(out: seq<SubgraphRow>) {
    forall i, j :: 0 <= i < j < |out| ==> out[i].id < out[j].id
  }

  /** `out` holds a row for the node of `c` that is not ordered after `c`. */
  ghost predicate Covers(out: seq<SubgraphRow>, c: SubgraphRow) {
    exists r :: r in out && r.id == c.id && OrderLeq(r, c)
  }

  /** `SELECT DISTINCT ON (id) ... ORDER BY id, depth, via_edge_type`: one of the
      first rows of every group, by ascending id. Rows that tie on all keys leave
      the choice open, so this is a relation. */
  ghost predicate IsDistinctOn(rows: seq<SubgraphRow>, out: seq<SubgraphRow>) {
    && AscendingIds(out)
    && (forall r :: r in out ==> r in rows)
    && (forall c :: c in rows ==> Covers(out, c))
  }

  lemma KeptIsFirst(rows: seq<SubgraphRow>, out: seq<SubgraphRow>, r: SubgraphRow, c: SubgraphRow)
    requires IsDistinctOn(rows, out) && r in out && c in rows && c.id == r.id
    ensures OrderLeq(r, c)
  {
    assert Covers(out, c);
    CoverIsFirst(out, r, c);
  }

  lemma CoverIsFirst(out: seq<SubgraphRow>, r: SubgraphRow, c: SubgraphRow)
    requires AscendingIds(out) && Covers(out, c) && r in out && c.id == r.id
    ensures OrderLeq(r, c)
  {
    var first :| first in out && first.id == c.id && OrderLeq(first, c);
    var i :| 0 <= i < |out| && out[i] == r;
    var j :| 0 <= j < |out| && out[j] == first;
    assert i == j;
  }

  ghost predicate IsSubgraph(nodes: map<int, Node>, edges: seq<Edge>, projectId: int, root: int, maxDepth: int,
                             out: seq<SubgraphRow>)
    requires Distinct(edges)
  {
    IsDistinctOn(Joined(nodes, projectId, Bfs(edges, root, maxDepth)), out)
  }

  // ------------------------------------------------- paths, walks and distance

  /** The node a sequence of edges leads to. */
  function End(root: int, p: seq<Edge>): int {
    if p == [] then root else p[|p| - 1].to
  }

  /** The nodes it names, from the root on. */
  function Nodes(root: int, p: seq<Edge>): (r: seq<int>)
    ensures |r| == |p| + 1 && r[0] == root && r[|p|] == End(root, p)
  {
    if p == [] then [root] else Nodes(root, p[..|p| - 1]) + [p[|p| - 1].to]
  }

  /** `p` lists edges of the table that follow one another from the root; a walk
      may revisit nodes. */
  ghost predicate IsWalk(edges: seq<Edge>, root: int, p: seq<Edge>) {
    p == [] || (
      var init, e := p[..|p| - 1], p[|p| - 1];
      IsWalk(edges, root, init) && e in edges && e.from == End(root, init))
  }

  ghost predicate Distinct<T>(s: seq<T>) {
    forall i, j :: 0 <= i < j < |s| ==> s[i] != s[j]
  }

  ghost predicate IsSimplePath(edges: seq<Edge>, root: int, p: seq<Edge>) {
    IsWalk(edges, root, p) && Distinct(Nodes(root, p))
  }

  ghost predicate WalkOfLength(edges: seq<Edge>, root: int, n: int, d: nat) {
    exists p :: IsWalk(edges, root, p) && |p| == d && End(root, p) == n
  }

  /** The true graph distance from the root, over all walks and all edges. */
  ghost predicate IsDistance(edges: seq<Edge>, root: int, n: int, d: nat) {
    WalkOfLength(edges, root, n, d) && forall c: nat :: c < d ==> !WalkOfLength(edges, root, n, c)
  }

  ghost predicate IsReachable(edges: seq<Edge>, root: int, n: int) {
    exists p :: IsWalk(edges, root, p) && End(root, p) == n
  }

  ghost function Reachable(edges: seq<Edge>, root: int): set<int> {
    set n | n in {root} + (set e | e in edges :: e.to) && IsReachable(edges, root, n)
  }

  // ------------------------------------------ the rounds are the simple paths

  /** The row that stands for a path. */
  function RowOf(root: int, p: seq<Edge>): PathRow {
    if p == [] then Anchor(root)
    else var e := p[|p| - 1]; PathRow(e.to, |p|, e.edgeType, e.from, Nodes(root, p))
  }

  function RowsOf(root: int, ps: seq<seq<Edge>>): seq<PathRow> {
    if ps == [] then [] else RowsOf(root, ps[..|ps| - 1]) + [RowOf(root, ps[|ps| - 1])]
  }

  lemma {:induction false} RowsOfAppend(root: int, ps: seq<seq<Edge>>, qs: seq<seq<Edge>>)
    ensures RowsOf(root, ps + qs) == RowsOf(root, ps) + RowsOf(root, qs)
  {
    hide RowOf;
    if qs == [] {
      assert ps + qs == ps;
    } else {
      var init := qs[..|qs| - 1];
      RowsOfAppend(root, ps, init);
      assert ps + qs == ps + init + [qs[|qs| - 1]];
      assert (ps + init + [qs[|qs| - 1]])[..|ps + init|] == ps + init;
    }
  }

  lemma {:induction false} RowsOfExact(root: int, ps: seq<seq<Edge>>, b: PathRow)
    ensures b in RowsOf(root, ps) <==> exists p :: p in ps && RowOf(root, p) == b
  {
    if ps != [] {
      var init := ps[..|ps| - 1];
      RowsOfExact(root, init, b);
      assert ps == init + [ps[|ps| - 1]];
    }
  }

  /** The path `p` and the edge `e` make a path the recursion may take. */
  predicate CanAppend(root: int, p: seq<Edge>, e: Edge, maxDepth: int) {
    e.from == End(root, p) && |p| < maxDepth && e.to !in Nodes(root, p)
  }

  function PathExtensions(edges: seq<Edge>, root: int, p: seq<Edge>, maxDepth: int, m: nat): seq<seq<Edge>>
    requires m <= |edges|
  {
    if m == 0 then []
    else PathExtensions(edges, root, p, maxDepth, m - 1)
         + if CanAppend(root, p, edges[m - 1], maxDepth) then [p + [edges[m - 1]]] else []
  }

  function PathRound(edges: seq<Edge>, root: int, ps: seq<seq<Edge>>, maxDepth: int): seq<seq<Edge>> {
    if ps == [] then []
    else PathRound(edges, root, ps[..|ps| - 1], maxDepth)
         + PathExtensions(edges, root, ps[|ps| - 1], maxDepth, |edges|)
  }

  /** The paths behind the rows of round `k`, in the same order. */
  function PathLevel(edges: seq<Edge>, root: int, maxDepth: int, k: nat): seq<seq<Edge>> {
    if k == 0 then [[]] else PathRound(edges, root, PathLevel(edges, root, maxDepth, k - 1), maxDepth)
  }

  lemma {:induction false} ExtensionsAreRows(edges: seq<Edge>, root: int, p: seq<Edge>, maxDepth: int, m: nat)
    requires m <= |edges|
    ensures Extensions(edges, RowOf(root, p), maxDepth, m)
            == RowsOf(root, PathExtensions(edges, root, p, maxDepth, m))
  {
    hide RowOf, Nodes;
    if m > 0 {
      var before, e := PathExtensions(edges, root, p, maxDepth, m - 1), edges[m - 1];
      ExtensionsAreRows(edges, root, p, maxDepth, m - 1);
      ExtendIsRow(root, p, e, maxDepth);
      if CanAppend(root, p, e, maxDepth) {
        RowsOfSnoc(root, before, p + [e]);
      } else {
        assert before + [] == before;
      }
    }
  }

  /** A row joins an edge exactly when its path can take it, and gives that path's row. */
  lemma ExtendIsRow(root: int, p: seq<Edge>, e: Edge, maxDepth: int)
    ensures Joins(RowOf(root, p), e, maxDepth) <==> CanAppend(root, p, e, maxDepth)
    ensures e.from == End(root, p) ==> Extend(RowOf(root, p), e) == RowOf(root, p + [e])
  {
    assert (p + [e])[..|p|] == p;
    assert Nodes(root, p + [e]) == Nodes(root, p) + [e.to];
    assert RowOf(root, p).visited == Nodes(root, p) && RowOf(root, p).depth == |p| && RowOf(root, p).nodeId == End(root, p);
  }

  lemma RowsOfSnoc(root: int, ps: seq<seq<Edge>>, p: seq<Edge>)
    ensures RowsOf(root, ps + [p]) == RowsOf(root, ps) + [RowOf(root, p)]
  {
    hide RowOf;
    assert (ps + [p])[..|ps|] == ps;
  }

  lemma {:induction false} RoundIsRows(edges: seq<Edge>, root: int, ps: seq<seq<Edge>>, maxDepth: int)
    ensures Round(edges, RowsOf(root, ps), maxDepth) == RowsOf(root, PathRound(edges, root, ps, maxDepth))
  {
    if ps != [] {
      var init, last := ps[..|ps| - 1], ps[|ps| - 1];
      RoundIsRows(edges, root, init, maxDepth);
      ExtensionsAreRows(edges, root, last, maxDepth, |edges|);
      RowsOfAppend(root, PathRound(edges, root, init, maxDepth),
                   PathExtensions(edges, root, last, maxDepth, |edges|));
      assert RowsOf(root, ps)[..|RowsOf(root, ps)| - 1] == RowsOf(root, init);
    }
  }

  ghost predicate InPathRound(edges: seq<Edge>, root: int, ps: seq<seq<Edge>>, maxDepth: int, q: seq<Edge>) {
    q != [] && q[..|q| - 1] in ps && q[|q| - 1] in edges && CanAppend(root, q[..|q| - 1], q[|q| - 1], maxDepth)
  }

  lemma {:induction false} PathExtensionsExact(edges: seq<Edge>, root: int, p: seq<Edge>, maxDepth: int, m: nat)
    requires m <= |edges| && Distinct(edges)
    ensures Distinct(PathExtensions(edges, root, p, maxDepth, m))
    ensures forall q :: q in PathExtensions(edges, root, p, maxDepth, m)
                        <==> InPathRound(edges[..m], root, [p], maxDepth, q)
  {
    if m > 0 {
      hide InPathRound, CanAppend;
      var before, e := PathExtensions(edges, root, p, maxDepth, m - 1), edges[m - 1];
      PathExtensionsExact(edges, root, p, maxDepth, m - 1);
      forall q ensures q in PathExtensions(edges, root, p, maxDepth, m)
                       <==> InPathRound(edges[..m], root, [p], maxDepth, q) {
        OneMoreEdge(edges, root, p, maxDepth, m, q);
      }
      OneMoreEdge(edges, root, p, maxDepth, m, p + [e]);
      if CanAppend(root, p, e, maxDepth) {
        DistinctAppend(before, [p + [e]]);
      }
    }
  }

  /** What the `m`-th edge adds to the continuations of a path. */
  lemma OneMoreEdge(edges: seq<Edge>, root: int, p: seq<Edge>, maxDepth: int, m: nat, q: seq<Edge>)
    requires 0 < m <= |edges| && Distinct(edges)
    ensures InPathRound(edges[..m], root, [p], maxDepth, q)
            <==> InPathRound(edges[..m - 1], root, [p], maxDepth, q)
                 || (q == p + [edges[m - 1]] && CanAppend(root, p, edges[m - 1], maxDepth))
    ensures !InPathRound(edges[..m - 1], root, [p], maxDepth, p + [edges[m - 1]])
  {
    hide CanAppend;
    var e := edges[m - 1];
    assert edges[..m] == edges[..m - 1] + [e] && e !in edges[..m - 1];
    assert (p + [e])[|p|] == e && (p + [e])[..|p|] == p;
    if q != [] {
      assert q == q[..|q| - 1] + [q[|q| - 1]];
    }
  }

  lemma {:induction false} PathRoundExact(edges: seq<Edge>, root: int, ps: seq<seq<Edge>>, maxDepth: int)
    requires Distinct(ps) && Distinct(edges)
    ensures Distinct(PathRound(edges, root, ps, maxDepth))
    ensures forall q :: q in PathRound(edges, root, ps, maxDepth) <==> InPathRound(edges, root, ps, maxDepth, q)
  {
    if ps != [] {
      var init, last := ps[..|ps| - 1], ps[|ps| - 1];
      PathRoundExact(edges, root, init, maxDepth);
      PathExtensionsExact(edges, root, last, maxDepth, |edges|);
      assert ps == init + [last] && last !in init && edges[..|edges|] == edges;
      DistinctAppend(PathRound(edges, root, init, maxDepth), PathExtensions(edges, root, last, maxDepth, |edges|));
    }
  }

  lemma DistinctAppend<T>(s: seq<T>, t: seq<T>)
    requires Distinct(s) && Distinct(t) && forall x :: x in s ==> x !in t
    ensures Distinct(s + t)
  {
    forall i, j | 0 <= i < j < |s + t| ensures (s + t)[i] != (s + t)[j] {
      if i < |s| <= j {
        assert (s + t)[i] in s && (s + t)[j] in t;
      }
    }
  }

  /** Appending an edge to a path keeps it simple exactly when the edge continues
      it to a node not yet visited. */
  lemma AppendIsSimple(edges: seq<Edge>, root: int, p: seq<Edge>, e: Edge)
    ensures IsSimplePath(edges, root, p + [e])
            <==> IsSimplePath(edges, root, p) && e in edges && e.from == End(root, p) && e.to !in Nodes(root, p)
  {
    var q := p + [e];
    assert q[..|q| - 1] == p;
    assert Nodes(root, q) == Nodes(root, p) + [e.to];
    if IsSimplePath(edges, root, q) {
      var ns := Nodes(root, q);
      assert forall i :: 0 <= i < |p| + 1 ==> ns[i] == Nodes(root, p)[i];
      assert ns[|p| + 1] == e.to;
    }
  }

  lemma LastStep(edges: seq<Edge>, root: int, maxDepth: int, before: seq<seq<Edge>>, j: nat, p: seq<Edge>)
    requires p != []
    requires p[..|p| - 1] in before
             <==> IsRoundPath(edges, root, maxDepth, j, p[..|p| - 1])
    ensures InPathRound(edges, root, before, maxDepth, p) <==> IsRoundPath(edges, root, maxDepth, j + 1, p)
  {
    var init, e := p[..|p| - 1], p[|p| - 1];
    assert p == init + [e];
    AppendIsSimple(edges, root, init, e);
  }

  lemma {:induction false} LevelIsRows(edges: seq<Edge>, root: int, maxDepth: int, k: nat)
    ensures Level(edges, root, maxDepth, k) == RowsOf(root, PathLevel(edges, root, maxDepth, k))
  {
    if k == 0 {
      assert RowsOf(root, [[]]) == RowsOf(root, []) + [Anchor(root)];
    } else {
      LevelIsRows(edges, root, maxDepth, k - 1);
      RoundIsRows(edges, root, PathLevel(edges, root, maxDepth, k - 1), maxDepth);
    }
  }

  ghost predicate IsRoundPath(edges: seq<Edge>, root: int, maxDepth: int, k: nat, p: seq<Edge>) {
    |p| == k && IsSimplePath(edges, root, p) && (k == 0 || k <= maxDepth)
  }

  lemma NextRound(edges: seq<Edge>, root: int, maxDepth: int, before: seq<seq<Edge>>, j: nat)
    requires Distinct(edges) && Distinct(before)
    requires forall p :: p in before <==> IsRoundPath(edges, root, maxDepth, j, p)
    ensures var ps := PathRound(edges, root, before, maxDepth);
            Distinct(ps) && forall p :: p in ps <==> IsRoundPath(edges, root, maxDepth, j + 1, p)
  {
    PathRoundExact(edges, root, before, maxDepth);
    forall p ensures InPathRound(edges, root, before, maxDepth, p) <==> IsRoundPath(edges, root, maxDepth, j + 1, p) {
      if p != [] {
        LastStep(edges, root, maxDepth, before, j, p);
      }
    }
  }

  /** The rounds produce exactly the simple paths up to the cap: round `k` is the
      list of the rows of a duplicate-free list that holds a path exactly when it
      is simple, has `k` edges and respects the cap. */
  lemma {:induction false} RoundsAreSimplePaths(edges: seq<Edge>, root: int, maxDepth: int, k: nat)
    requires Distinct(edges)
    ensures Level(edges, root, maxDepth, k) == RowsOf(root, PathLevel(edges, root, maxDepth, k))
    ensures Distinct(PathLevel(edges, root, maxDepth, k))
    ensures forall p :: p in PathLevel(edges, root, maxDepth, k) <==> IsRoundPath(edges, root, maxDepth, k, p)
  {
    LevelIsRows(edges, root, maxDepth, k);
    if k == 0 {
      assert Nodes(root, []) == [root];
    } else {
      RoundsAreSimplePaths(edges, root, maxDepth, k - 1);
      NextRound(edges, root, maxDepth, PathLevel(edges, root, maxDepth, k - 1), k - 1);
    }
  }

  lemma {:induction false} DistinctFits(s: seq<int>, u: set<int>)
    requires Distinct(s) && forall x :: x in s ==> x in u
    ensures |s| <= |u|
  {
    if s != [] {
      var init, last := s[..|s| - 1], s[|s| - 1];
      assert last in s && last !in init;
      DistinctFits(init, u - {last});
    }
  }

  lemma {:induction false} WalkNodesReachable(edges: seq<Edge>, root: int, p: seq<Edge>)
    requires IsWalk(edges, root, p)
    ensures forall n :: n in Nodes(root, p) ==> n in Reachable(edges, root)
  {
    if p != [] {
      WalkNodesReachable(edges, root, p[..|p| - 1]);
      assert p[|p| - 1].to == End(root, p);
    }
    assert IsReachable(edges, root, End(root, p));
  }

  /** The reachable nodes are those some walk leads to. */
  lemma ReachableExact(edges: seq<Edge>, root: int, n: int)
    ensures n in Reachable(edges, root) <==> exists d: nat :: WalkOfLength(edges, root, n, d)
  {
    if d: nat :| WalkOfLength(edges, root, n, d) {
      var p :| IsWalk(edges, root, p) && |p| == d && End(root, p) == n;
      WalkNodesReachable(edges, root, p);
      assert Nodes(root, p)[|p|] == n;
    }
    if n in Reachable(edges, root) {
      var p :| IsWalk(edges, root, p) && End(root, p) == n;
      assert WalkOfLength(edges, root, n, |p|);
    }
  }

  /** No path revisits a node, so whatever the cap, the rounds from the number of
      reachable nodes on are empty. */
  lemma RecursionStops(edges: seq<Edge>, root: int, maxDepth: int, k: nat)
    requires Distinct(edges)
    ensures k >= |Reachable(edges, root)| ==> Level(edges, root, maxDepth, k) == []
  {
    RoundsAreSimplePaths(edges, root, maxDepth, k);
    var ps := PathLevel(edges, root, maxDepth, k);
    if ps != [] {
      var p := ps[0];
      assert p in ps;
      WalkNodesReachable(edges, root, p);
      DistinctFits(Nodes(root, p), Reachable(edges, root));
    }
  }

  lemma {:induction false} EmptyForever(edges: seq<Edge>, root: int, maxDepth: int, k: nat, j: nat)
    requires Level(edges, root, maxDepth, k) == [] && k <= j
    ensures Level(edges, root, maxDepth, j) == []
    decreases j
  {
    if k < j {
      EmptyForever(edges, root, maxDepth, k, j - 1);
    }
  }

  /** `b` is a row of some round from `k` on. */
  ghost predicate FromRound(edges: seq<Edge>, root: int, maxDepth: int, k: nat, b: PathRow) {
    exists j: nat :: k <= j && b in Level(edges, root, maxDepth, j)
  }

  lemma FromRoundSplits(edges: seq<Edge>, root: int, maxDepth: int, k: nat, b: PathRow)
    ensures FromRound(edges, root, maxDepth, k, b)
            <==> b in Level(edges, root, maxDepth, k) || FromRound(edges, root, maxDepth, k + 1, b)
  {
    if FromRound(edges, root, maxDepth, k, b) {
      var j: nat :| k <= j && b in Level(edges, root, maxDepth, j);
      if k < j {
        assert k + 1 <= j && b in Level(edges, root, maxDepth, j);
      }
    }
  }

  lemma {:induction false} RecurseExact(edges: seq<Edge>, root: int, maxDepth: int, k: nat,
                                        working: seq<PathRow>, b: PathRow)
    requires Distinct(edges) && working == Level(edges, root, maxDepth, k)
    ensures b in Recurse(edges, root, maxDepth, working, k) <==> FromRound(edges, root, maxDepth, k, b)
    decreases |Reachable(edges, root)| - k
  {
    if working == [] {
      if j: nat :| k <= j && b in Level(edges, root, maxDepth, j) {
        EmptyForever(edges, root, maxDepth, k, j);
      }
    } else {
      RecursionStops(edges, root, maxDepth, k);
      RecurseExact(edges, root, maxDepth, k + 1, Round(edges, working, maxDepth), b);
      FromRoundSplits(edges, root, maxDepth, k, b);
    }
  }

  /** A row is in the recursive relation exactly when it is the row of a simple
      path within the cap. */
  lemma BfsExact(edges: seq<Edge>, root: int, maxDepth: int, b: PathRow)
    requires Distinct(edges)
    ensures b in Bfs(edges, root, maxDepth)
            <==> exists p :: IsSimplePath(edges, root, p) && RowOf(root, p) == b && (p == [] || |p| <= maxDepth)
  {
    RecurseExact(edges, root, maxDepth, 0, [Anchor(root)], b);
    if k: nat :| b in Level(edges, root, maxDepth, k) {
      RoundsAreSimplePaths(edges, root, maxDepth, k);
      RowsOfExact(root, PathLevel(edges, root, maxDepth, k), b);
    }
    if p :| IsSimplePath(edges, root, p) && RowOf(root, p) == b && (p == [] || |p| <= maxDepth) {
      RoundsAreSimplePaths(edges, root, maxDepth, |p|);
      RowsOfExact(root, PathLevel(edges, root, maxDepth, |p|), b);
    }
  }

  /** Every row names distinct nodes beginning with the root, so a row deeper than the
      anchor, which came by no edge, never sits at the root again. */
  lemma RowsNeverRevisit(edges: seq<Edge>, root: int, maxDepth: int, b: PathRow)
    requires Distinct(edges) && b in Bfs(edges, root, maxDepth)
    ensures Distinct(b.visited) && b.depth >= 0 && |b.visited| == b.depth + 1
    ensures b.visited[0] == root && b.visited[b.depth] == b.nodeId
    ensures b.nodeId == root <==> b.depth == 0
    ensures b.depth == 0 ==> b.viaEdgeType == "" && b.viaFromNodeId == 0
  {
    BfsExact(edges, root, maxDepth, b);
    var p :| IsSimplePath(edges, root, p) && RowOf(root, p) == b && (p == [] || |p| <= maxDepth);
    assert b.visited == Nodes(root, p);
  }

  // -------------------------------------------------- shortest walks are simple

  lemma {:induction false} PrefixIsWalk(edges: seq<Edge>, root: int, p: seq<Edge>, i: nat)
    requires IsWalk(edges, root, p) && i <= |p|
    ensures IsWalk(edges, root, p[..i]) && Nodes(root, p)[i] == End(root, p[..i])
    decreases |p|
  {
    if i < |p| {
      var init := p[..|p| - 1];
      PrefixIsWalk(edges, root, init, i);
      assert init[..i] == p[..i];
    } else {
      assert p[..i] == p;
    }
  }

  lemma CutLoopStep(edges: seq<Edge>, root: int, p: seq<Edge>, e: Edge, i: nat, j: nat)
    requires i < j <= |p| && e in edges && e.from == End(root, p)
    requires IsWalk(edges, root, p[..i] + p[j..]) && End(root, p[..i] + p[j..]) == End(root, p)
    ensures IsWalk(edges, root, (p + [e])[..i] + (p + [e])[j..])
    ensures End(root, (p + [e])[..i] + (p + [e])[j..]) == e.to
  {
    hide Nodes;
    StepExtendsWalk(edges, root, p[..i] + p[j..], e);
    assert (p + [e])[..i] + (p + [e])[j..] == p[..i] + p[j..] + [e];
  }

  /** Cutting the loop between two visits of a node leaves a walk to the same end. */
  lemma {:induction false} CutLoop(edges: seq<Edge>, root: int, p: seq<Edge>, i: nat, j: nat)
    requires IsWalk(edges, root, p) && i < j <= |p| && Nodes(root, p)[i] == Nodes(root, p)[j]
    ensures IsWalk(edges, root, p[..i] + p[j..]) && End(root, p[..i] + p[j..]) == End(root, p)
    decreases |p|
  {
    hide IsWalk, Nodes;
    if j == |p| {
      PrefixIsWalk(edges, root, p, i);
      assert p[..i] + p[j..] == p[..i];
    } else {
      var init, e := p[..|p| - 1], p[|p| - 1];
      LastOfWalk(edges, root, p);
      CutLoop(edges, root, init, i, j);
      CutLoopStep(edges, root, init, e, i, j);
      assert p == init + [e];
    }
  }

  lemma LastOfWalk(edges: seq<Edge>, root: int, p: seq<Edge>)
    requires IsWalk(edges, root, p) && p != []
    ensures var init, e := p[..|p| - 1], p[|p| - 1];
            && IsWalk(edges, root, init) && e in edges && e.from == End(root, init)
            && forall k :: 0 <= k < |p| ==> Nodes(root, p)[k] == Nodes(root, init)[k]
  {
  }

  lemma LoopShortens(edges: seq<Edge>, root: int, p: seq<Edge>, i: nat, j: nat)
    requires IsWalk(edges, root, p) && i < j <= |p| && Nodes(root, p)[i] == Nodes(root, p)[j]
    ensures WalkOfLength(edges, root, End(root, p), |p| - (j - i))
  {
    CutLoop(edges, root, p, i, j);
    assert |p[..i] + p[j..]| == |p| - (j - i);
  }

  lemma ShortestIsSimple(edges: seq<Edge>, root: int, p: seq<Edge>)
    requires IsWalk(edges, root, p) && IsDistance(edges, root, End(root, p), |p|)
    ensures IsSimplePath(edges, root, p)
  {
    var ns := Nodes(root, p);
    forall i, j | 0 <= i < j < |ns| ensures ns[i] != ns[j] {
      if ns[i] == ns[j] {
        LoopShortens(edges, root, p, i, j);
      }
    }
  }

  lemma {:induction false} DistanceExists(edges: seq<Edge>, root: int, n: int, d: nat)
    requires WalkOfLength(edges, root, n, d)
    ensures exists c: nat :: c <= d && IsDistance(edges, root, n, c)
  {
    if c: nat :| c < d && WalkOfLength(edges, root, n, c) {
      DistanceExists(edges, root, n, c);
    } else {
      assert IsDistance(edges, root, n, d);
    }
  }

  lemma ShortestWalk(edges: seq<Edge>, root: int, p: seq<Edge>) returns (q: seq<Edge>)
    requires IsWalk(edges, root, p)
    ensures IsWalk(edges, root, q) && End(root, q) == End(root, p) && |q| <= |p|
    ensures IsDistance(edges, root, End(root, q), |q|)
  {
    DistanceExists(edges, root, End(root, p), |p|);
    var c: nat :| c <= |p| && IsDistance(edges, root, End(root, p), c);
    q :| IsWalk(edges, root, q) && |q| == c && End(root, q) == End(root, p);
  }

  lemma StepExtendsWalk(edges: seq<Edge>, root: int, p: seq<Edge>, e: Edge)
    requires IsWalk(edges, root, p) && e in edges && e.from == End(root, p)
    ensures IsWalk(edges, root, p + [e]) && End(root, p + [e]) == e.to
  {
    assert (p + [e])[..|p|] == p;
  }

  lemma StepLengthensWalk(edges: seq<Edge>, root: int, e: Edge, c: nat)
    requires e in edges && WalkOfLength(edges, root, e.from, c)
    ensures WalkOfLength(edges, root, e.to, c + 1)
  {
    var w :| IsWalk(edges, root, w) && |w| == c && End(root, w) == e.from;
    StepExtendsWalk(edges, root, w, e);
  }

  /** The edge that ends a shortest walk leaves a node one step nearer. */
  lemma PredecessorDistance(edges: seq<Edge>, root: int, p: seq<Edge>)
    requires p != [] && IsWalk(edges, root, p) && IsDistance(edges, root, End(root, p), |p|)
    ensures IsDistance(edges, root, p[|p| - 1].from, |p| - 1)
  {
    var d, e := |p| - 1, p[|p| - 1];
    assert IsWalk(edges, root, p[..d]) && End(root, p[..d]) == e.from;
    forall c: nat | c < d ensures !WalkOfLength(edges, root, e.from, c) {
      if WalkOfLength(edges, root, e.from, c) {
        StepLengthensWalk(edges, root, e, c);
      }
    }
  }

  // ------------------------------------------------------------ the result rows

  lemma {:induction false} JoinedExact(nodes: map<int, Node>, projectId: int, rows: seq<PathRow>, r: SubgraphRow)
    ensures r in Joined(nodes, projectId, rows)
            <==> exists b :: b in rows && Keeps(nodes, projectId, b) && r == JoinNode(b, nodes[b.nodeId])
  {
    if rows != [] {
      JoinedExact(nodes, projectId, rows[..|rows| - 1], r);
      assert rows == rows[..|rows| - 1] + [rows[|rows| - 1]];
    }
  }

  /** A walk no longer than the cap that is shortest gives a row of the join. */
  lemma ShortestWalkIsJoined(nodes: map<int, Node>, edges: seq<Edge>, projectId: int, root: int, maxDepth: int,
                             p: seq<Edge>)
    requires Distinct(edges) && IsWalk(edges, root, p) && 0 < |p| <= maxDepth
    requires IsDistance(edges, root, End(root, p), |p|)
    requires End(root, p) in nodes && nodes[End(root, p)].projectId == projectId
    ensures JoinNode(RowOf(root, p), nodes[End(root, p)]) in Joined(nodes, projectId, Bfs(edges, root, maxDepth))
  {
    ShortestIsSimple(edges, root, p);
    BfsExact(edges, root, maxDepth, RowOf(root, p));
    JoinedExact(nodes, projectId, Bfs(edges, root, maxDepth), JoinNode(RowOf(root, p), nodes[End(root, p)]));
  }

  /** A row of the join stands for a simple path from the root. */
  lemma JoinedHasPath(nodes: map<int, Node>, edges: seq<Edge>, projectId: int, root: int, maxDepth: int,
                      r: SubgraphRow) returns (p: seq<Edge>)
    requires Distinct(edges) && r in Joined(nodes, projectId, Bfs(edges, root, maxDepth))
    ensures IsSimplePath(edges, root, p) && 0 < |p| <= maxDepth
    ensures End(root, p) == r.id && r.id != root
    ensures r.id in nodes && nodes[r.id].projectId == projectId && r == JoinNode(RowOf(root, p), nodes[r.id])
  {
    JoinedExact(nodes, projectId, Bfs(edges, root, maxDepth), r);
    var b :| b in Bfs(edges, root, maxDepth) && Keeps(nodes, projectId, b) && r == JoinNode(b, nodes[b.nodeId]);
    BfsExact(edges, root, maxDepth, b);
    p :| IsSimplePath(edges, root, p) && RowOf(root, p) == b && (p == [] || |p| <= maxDepth);
    assert Nodes(root, p)[0] == root && Nodes(root, p)[|p|] == r.id;
  }

  /** A kept row has the node's true distance as its depth. */
  lemma KeptDepthIsDistance(nodes: map<int, Node>, edges: seq<Edge>, projectId: int, root: int, maxDepth: int,
                            out: seq<SubgraphRow>, r: SubgraphRow)
    requires Distinct(edges) && IsSubgraph(nodes, edges, projectId, root, maxDepth, out) && r in out
    ensures 0 < r.depth <= maxDepth && IsDistance(edges, root, r.id, r.depth)
  {
    var p := JoinedHasPath(nodes, edges, projectId, root, maxDepth, r);
    var q := ShortestWalk(edges, root, p);
    ShortestWalkIsJoined(nodes, edges, projectId, root, maxDepth, q);
    KeptIsFirst(Joined(nodes, projectId, Bfs(edges, root, maxDepth)), out, r,
                JoinNode(RowOf(root, q), nodes[r.id]));
  }

  ghost predicate InScope(nodes: map<int, Node>, edges: seq<Edge>, projectId: int, root: int, maxDepth: int, n: int) {
    && n != root && n in nodes && nodes[n].projectId == projectId
    && exists d: nat :: d <= maxDepth && IsDistance(edges, root, n, d)
  }

  /** The query's promise: by ascending id, exactly the project's nodes other than
      the root whose distance is within the cap, each once, with its distance and
      its own columns. Paths may run through nodes of any project. */
  lemma SubgraphIsShortestDistance(nodes: map<int, Node>, edges: seq<Edge>, projectId: int, root: int, maxDepth: int,
                                   out: seq<SubgraphRow>)
    requires Distinct(edges) && IsSubgraph(nodes, edges, projectId, root, maxDepth, out)
    ensures forall i, j :: 0 <= i < j < |out| ==> out[i].id < out[j].id
    ensures forall n :: InScope(nodes, edges, projectId, root, maxDepth, n)
                        <==> exists i :: 0 <= i < |out| && out[i].id == n
    ensures forall r :: r in out ==> r.depth > 0 && IsDistance(edges, root, r.id, r.depth)
    ensures forall r :: r in out && r.id in nodes ==>
              var n := nodes[r.id];
              r.kind == n.kind && r.slug == n.slug && r.title == n.title && r.description == n.description
  {
    forall r | r in out
      ensures r.depth > 0 && IsDistance(edges, root, r.id, r.depth)
      ensures InScope(nodes, edges, projectId, root, maxDepth, r.id)
      ensures r.id in nodes
      ensures var n := nodes[r.id];
              r.kind == n.kind && r.slug == n.slug && r.title == n.title && r.description == n.description
    {
      KeptDepthIsDistance(nodes, edges, projectId, root, maxDepth, out, r);
      var p := JoinedHasPath(nodes, edges, projectId, root, maxDepth, r);
    }
    forall n | InScope(nodes, edges, projectId, root, maxDepth, n)
      ensures exists i :: 0 <= i < |out| && out[i].id == n
    {
      var d: nat :| d <= maxDepth && IsDistance(edges, root, n, d);
      var p :| IsWalk(edges, root, p) && |p| == d && End(root, p) == n;
      ShortestWalkIsJoined(nodes, edges, projectId, root, maxDepth, p);
      assert Covers(out, JoinNode(RowOf(root, p), nodes[n]));
    }
  }

  /** The `via` columns name an edge that ends a shortest path, and no edge that
      ends a shortest path to the node has a smaller type. */
  lemma ViaIsLeastShortestEdge(nodes: map<int, Node>, edges: seq<Edge>, projectId: int, root: int, maxDepth: int,
                               out: seq<SubgraphRow>, r: SubgraphRow)
    requires Distinct(edges) && IsSubgraph(nodes, edges, projectId, root, maxDepth, out) && r in out
    ensures r.depth > 0 && IsDistance(edges, root, r.viaFromNodeId, r.depth - 1)
    ensures exists e :: e in edges && e.from == r.viaFromNodeId && e.to == r.id && e.edgeType == r.viaEdgeType
    ensures forall e :: e in edges && e.to == r.id && IsDistance(edges, root, e.from, r.depth - 1)
                        ==> Leq(r.viaEdgeType, e.edgeType)
  {
    var p := JoinedHasPath(nodes, edges, projectId, root, maxDepth, r);
    KeptDepthIsDistance(nodes, edges, projectId, root, maxDepth, out, r);
    PredecessorDistance(edges, root, p);
    forall e | e in edges && e.to == r.id && IsDistance(edges, root, e.from, r.depth - 1)
      ensures Leq(r.viaEdgeType, e.edgeType)
    {
      var w :| IsWalk(edges, root, w) && |w| == r.depth - 1 && End(root, w) == e.from;
      StepExtendsWalk(edges, root, w, e);
      ShortestWalkIsJoined(nodes, edges, projectId, root, maxDepth, w + [e]);
      KeptIsFirst(Joined(nodes, projectId, Bfs(edges, root, maxDepth)), out, r,
                  JoinNode(RowOf(root, w + [e]), nodes[r.id]));
    }
  }

  // -------------------------------------------------- DISTINCT ON can be computed

  /** Merges one more row into a list that already holds the first row of each id. */
  function MergeFirst(out: seq<SubgraphRow>, c: SubgraphRow): (r: seq<SubgraphRow>)
    requires AscendingIds(out)
    ensures AscendingIds(r)
    ensures forall x :: x in r ==> x in out || x == c
  {
    if out == [] || out[|out| - 1].id < c.id then out + [c]
    else
      var init, last := out[..|out| - 1], out[|out| - 1];
      assert out == init + [last];
      if last.id == c.id then init + [if OrderLeq(last, c) then last else c]
      else
        var m := MergeFirst(init, c);
        assert forall x :: x in m ==> x.id < last.id;
        assert forall i :: 0 <= i < |m| ==> m[i] in m;
        m + [last]
  }

  lemma {:induction false} MergeFirstCovers(out: seq<SubgraphRow>, c: SubgraphRow, x: SubgraphRow)
    requires AscendingIds(out) && (x in out || x == c)
    ensures Covers(MergeFirst(out, c), x)
  {
    var r := MergeFirst(out, c);
    if out == [] || out[|out| - 1].id < c.id {
      assert x in r && OrderLeq(x, x);
    } else {
      var init, last := out[..|out| - 1], out[|out| - 1];
      assert out == init + [last] && OrderLeq(x, x);
      LessIsTotal(last.viaEdgeType, c.viaEdgeType);
      if last.id == c.id {
        var first := if OrderLeq(last, c) then last else c;
        assert r == init + [first] && first in r;
        assert x in init ==> x in r;
      } else if x == last {
        assert x in r;
      } else {
        MergeFirstCovers(init, c, x);
        var m := MergeFirst(init, c);
        var y :| y in m && y.id == x.id && OrderLeq(y, x);
        assert r == m + [last] && y in r;
      }
    }
  }

  /** Some result always exists: the query is never stuck on a tie. */
  lemma {:induction false} DistinctOnExists(rows: seq<SubgraphRow>) returns (out: seq<SubgraphRow>)
    ensures IsDistinctOn(rows, out)
  {
    hide OrderLeq, MergeFirst;
    if rows == [] {
      out := [];
    } else {
      var init, c := rows[..|rows| - 1], rows[|rows| - 1];
      var before := DistinctOnExists(init);
      out := MergeFirst(before, c);
      assert rows == init + [c];
      forall x | x in rows ensures Covers(out, x) {
        if x in init {
          assert Covers(before, x);
          var y :| y in before && y.id == x.id && OrderLeq(y, x);
          MergeFirstCovers(before, c, y);
          var r :| r in out && r.id == y.id && OrderLeq(r, y);
          OrderLeqIsTransitive(r, y, x);
        } else {
          MergeFirstCovers(before, c, c);
        }
      }
    }
  }

  lemma OrderLeqIsTransitive(a: SubgraphRow, b: SubgraphRow, c: SubgraphRow)
    requires OrderLeq(a, b) && OrderLeq(b, c)
    ensures OrderLeq(a, c)
  {
    if a.depth == b.depth == c.depth {
      LeqIsTransitive(a.viaEdgeType, b.viaEdgeType, c.viaEdgeType);
    }
  }
}
