/**
 The persisted thread-spawn topology: a table keyed by child, so every thread has at
 most one incoming edge, and a recursive query that lists descendants.
 */
module SpawnGraph {
  import opened Wrappers
  import opened Orders

  /** Thread ids are fixed-width UUID text; only their order matters. */
  type ThreadId = nat

  /** `Future` stands for a status text written by a later version of the store. */
  datatype Status = Open | Closed | Future(text: string)

  datatype Edge = Edge(parent: ThreadId, status: Status)

  /** child_thread_id is the primary key. */
  type Edges = map<ThreadId, Edge>

  predicate Matches(e: Edge, filter: Option<Status>) {
    filter.None? || e.status == filter.value
  }

  function Children(edges: Edges, filter: Option<Status>, parent: ThreadId): set<ThreadId> {
    set c | c in edges && edges[c].parent == parent && Matches(edges[c], filter)
  }

  /** The threads reached from `root` by exactly `d` matching edges. */
  ghost function Level(edges: Edges, filter: Option<Status>, root: ThreadId, d: nat): set<ThreadId> {
    if d == 0 then {root}
    else set c | c in edges && Matches(edges[c], filter) && edges[c].parent in Level(edges, filter, root, d - 1)
  }

  /** `root` is not its own descendant over matching edges. */
  ghost predicate AcyclicRoot(edges: Edges, filter: Option<Status>, root: ThreadId) {
    forall d: nat :: d >= 1 ==> root !in Level(edges, filter, root, d)
  }

  // ----- Tree shape below an acyclic root -----

  /** A thread at two depths would close a cycle through the root. */
  lemma {:induction false} TwoDepthsCycle(edges: Edges, f: Option<Status>, root: ThreadId, c: ThreadId, a: nat, b: nat)
    requires a < b && c in Level(edges, f, root, a) && c in Level(edges, f, root, b)
    ensures root in Level(edges, f, root, b - a)
    decreases a
  {
    if a > 0 {
      TwoDepthsCycle(edges, f, root, edges[c].parent, a - 1, b - 1);
    }
  }

  lemma {:induction false} UniqueDepth(edges: Edges, f: Option<Status>, root: ThreadId, c: ThreadId, a: nat, b: nat)
    requires AcyclicRoot(edges, f, root)
    requires c in Level(edges, f, root, a) && c in Level(edges, f, root, b)
    ensures a == b
  {
    if a < b {
      TwoDepthsCycle(edges, f, root, c, a, b);
    } else if b < a {
      TwoDepthsCycle(edges, f, root, c, b, a);
    }
  }

  /** Levels compose along the parent chain. */
  lemma {:induction false} LevelCompose(edges: Edges, f: Option<Status>, r: ThreadId, x: ThreadId, y: ThreadId, a: nat, b: nat)
    requires x in Level(edges, f, r, a) && y in Level(edges, f, x, b)
    ensures y in Level(edges, f, r, a + b)
    decreases b
  {
    if b > 0 {
      LevelCompose(edges, f, r, x, edges[y].parent, a, b - 1);
    }
  }

  ghost predicate Within(edges: Edges, f: Option<Status>, root: ThreadId, x: ThreadId, d: nat) {
    exists j: nat :: j <= d && x in Level(edges, f, root, j)
  }

  /** The threads strictly below the root on the way to `c`. */
  ghost function Chain(edges: Edges, f: Option<Status>, root: ThreadId, c: ThreadId, d: nat): set<ThreadId>
    requires c in Level(edges, f, root, d)
    decreases d
  {
    if d == 0 then {} else {c} + Chain(edges, f, root, edges[c].parent, d - 1)
  }

  lemma {:induction false} ChainSize(edges: Edges, f: Option<Status>, root: ThreadId, c: ThreadId, d: nat)
    requires AcyclicRoot(edges, f, root) && c in Level(edges, f, root, d)
    ensures |Chain(edges, f, root, c, d)| == d && Chain(edges, f, root, c, d) <= edges.Keys
    ensures forall x :: x in Chain(edges, f, root, c, d) ==> Within(edges, f, root, x, d)
    decreases d
  {
    if d > 0 {
      ChainSize(edges, f, root, edges[c].parent, d - 1);
      var above := Chain(edges, f, root, edges[c].parent, d - 1);
      if c in above {
        var j: nat :| j <= d - 1 && c in Level(edges, f, root, j);
        UniqueDepth(edges, f, root, c, j, d);
        assert false;
      }
      forall x | x in above + {c} ensures Within(edges, f, root, x, d) {
        assert x in above ==> Within(edges, f, root, x, d - 1);
      }
    }
  }

  /** No descendant is deeper than the table is long. */
  lemma DepthBound(edges: Edges, f: Option<Status>, root: ThreadId, c: ThreadId, d: nat)
    requires AcyclicRoot(edges, f, root) && c in Level(edges, f, root, d)
    ensures d <= |edges|
  {
    ChainSize(edges, f, root, c, d);
    SubsetSize(Chain(edges, f, root, c, d), edges.Keys);
  }

  // ----- Paths -----

  /** Consecutive threads are joined by matching edges. */
  ghost predicate IsPath(edges: Edges, f: Option<Status>, path: seq<ThreadId>) {
    && path != []
    && forall i {:trigger path[i]} :: 1 <= i < |path| ==>
         path[i] in edges && edges[path[i]].parent == path[i-1] && (f.None? || f == Some(edges[path[i]].status))
  }

  ghost predicate PathFromTo(edges: Edges, f: Option<Status>, path: seq<ThreadId>, root: ThreadId, c: ThreadId) {
    IsPath(edges, f, path) && path[0] == root && path[|path|-1] == c
  }

  /** A level holds exactly the ends of the matching paths of that length. */
  lemma {:induction false} LevelIsPaths(edges: Edges, f: Option<Status>, root: ThreadId, c: ThreadId, d: nat)
    ensures c in Level(edges, f, root, d) <==>
            exists path :: |path| == d + 1 && PathFromTo(edges, f, path, root, c)
  {
    if c in Level(edges, f, root, d) {
      var path := PathOf(edges, f, root, c, d);
    }
    forall path | |path| == d + 1 && PathFromTo(edges, f, path, root, c)
      ensures c in Level(edges, f, root, d)
    {
      PathReaches(edges, f, root, path);
    }
  }

  lemma {:induction false} PathOf(edges: Edges, f: Option<Status>, root: ThreadId, c: ThreadId, d: nat) returns (path: seq<ThreadId>)
    requires c in Level(edges, f, root, d)
    ensures |path| == d + 1 && PathFromTo(edges, f, path, root, c)
    decreases d
  {
    if d == 0 {
      path := [root];
    } else {
      var up := PathOf(edges, f, root, edges[c].parent, d - 1);
      path := up + [c];
      forall i | 1 <= i < |path| ensures path[i] in Children(edges, f, path[i-1]) {
        if i < |up| { assert path[i] == up[i] && path[i-1] == up[i-1]; }
      }
    }
  }

  lemma {:induction false} PathReaches(edges: Edges, f: Option<Status>, root: ThreadId, path: seq<ThreadId>)
    requires IsPath(edges, f, path) && path[0] == root
    ensures path[|path|-1] in Level(edges, f, root, |path| - 1)
  {
    if |path| > 1 {
      PathReaches(edges, f, root, path[..|path|-1]);
      assert path[|path|-1] in Children(edges, f, path[|path|-2]);
    }
  }

  /** The last step of a path comes from the parent of its end. */
  lemma LastStep(edges: Edges, f: Option<Status>, p: seq<ThreadId>, n: nat)
    requires IsPath(edges, f, p) && n == |p| - 1 >= 1
    ensures IsPath(edges, f, p[..n]) && p == p[..n] + [p[n]]
    ensures p[n] in edges && edges[p[n]].parent == p[..n][n-1]
  {
    assert p[n] in Children(edges, f, p[n-1]);
    forall i | 1 <= i < n ensures p[..n][i] in Children(edges, f, p[..n][i-1]) {
      assert p[i] in Children(edges, f, p[i-1]);
    }
  }

  lemma {:induction false} EqualLengthPaths(edges: Edges, f: Option<Status>, p: seq<ThreadId>, q: seq<ThreadId>)
    requires IsPath(edges, f, p) && IsPath(edges, f, q) && |p| == |q|
    requires p[|p|-1] == q[|q|-1]
    ensures p == q
  {
    var n := |p| - 1;
    if n > 0 {
      LastStep(edges, f, p, n);
      LastStep(edges, f, q, n);
      EqualLengthPaths(edges, f, p[..n], q[..n]);
    }
  }

  /** Everything reachable from an acyclic root hangs on one path: the reachable part is a tree. */
  lemma {:induction false} PathUnique(edges: Edges, f: Option<Status>, root: ThreadId, c: ThreadId, p: seq<ThreadId>, q: seq<ThreadId>)
    requires AcyclicRoot(edges, f, root)
    requires PathFromTo(edges, f, p, root, c) && PathFromTo(edges, f, q, root, c)
    ensures p == q
  {
    PathReaches(edges, f, root, p);
    PathReaches(edges, f, root, q);
    UniqueDepth(edges, f, root, c, |p| - 1, |q| - 1);
    EqualLengthPaths(edges, f, p, q);
  }

  // ----- The recursive query stops exactly on acyclic roots -----

  lemma {:induction false} LevelAbove(edges: Edges, f: Option<Status>, root: ThreadId, c: ThreadId, d: nat, a: nat)
    requires c in Level(edges, f, root, d) && a <= d
    ensures Level(edges, f, root, a) != {}
    decreases d
  {
    if a < d {
      LevelAbove(edges, f, root, edges[c].parent, d - 1, a);
    }
  }

  lemma {:induction false} CycleRepeats(edges: Edges, f: Option<Status>, root: ThreadId, d: nat, n: nat)
    requires root in Level(edges, f, root, d)
    ensures root in Level(edges, f, root, n * d)
  {
    if n > 0 {
      CycleRepeats(edges, f, root, d, n - 1);
      LevelCompose(edges, f, root, root, root, (n - 1) * d, d);
      assert (n - 1) * d + d == n * d;
    }
  }

  /** The query runs out of rows at some depth if and only if the root is not on a cycle. */
  lemma {:induction false} QueryStopsIffAcyclic(edges: Edges, f: Option<Status>, root: ThreadId)
    ensures (exists n: nat :: Level(edges, f, root, n) == {}) <==> AcyclicRoot(edges, f, root)
  {
    if AcyclicRoot(edges, f, root) {
      var n := |edges| + 1;
      if Level(edges, f, root, n) != {} {
        var c :| c in Level(edges, f, root, n);
        DepthBound(edges, f, root, c, n);
        assert false;
      }
      assert Level(edges, f, root, n) == {};
    } else {
      var d: nat :| d >= 1 && root in Level(edges, f, root, d);
      forall n: nat ensures Level(edges, f, root, n) != {} {
        CycleRepeats(edges, f, root, d, n);
        assert n <= n * d;
        LevelAbove(edges, f, root, root, n * d, n);
      }
    }
  }

  /** A thread recorded as its own parent, which the store accepts, makes the query run forever. */
  lemma SelfParentNeverStops(n: nat)
    ensures !AcyclicRoot(map[1 := Edge(1, Open)], None, 1)
    ensures Level(map[1 := Edge(1, Open)], None, 1, n) != {}
  {
    var edges: Edges := map[1 := Edge(1, Open)];
    assert 1 in Level(edges, None, 1, 0);
    assert 1 in Level(edges, None, 1, 1);
    QueryStopsIffAcyclic(edges, None, 1);
  }

  // ----- The descendant listing -----

  datatype Row = Row(depth: nat, id: ThreadId)

  predicate RowLeq(a: Row, b: Row) {
    a.depth < b.depth || (a.depth == b.depth && a.id <= b.id)
  }

  function SortRows(rows: seq<Row>): (r: seq<Row>)
    ensures Sorted(RowLeq, r) && multiset(r) == multiset(rows)
  {
    Sort(RowLeq, rows)
  }

  predicate IdLeq(a: ThreadId, b: ThreadId) {
    a <= b
  }

  function Ids(rows: seq<Row>): seq<ThreadId> {
    seq(|rows|, i requires 0 <= i < |rows| => rows[i].id)
  }

  ghost predicate IsDescendantRow(edges: Edges, f: Option<Status>, root: ThreadId, r: Row) {
    r.depth >= 1 && r.id in Level(edges, f, root, r.depth)
  }

  /** Exactly the descendants with their depths, each once, by depth and then by id. */
  ghost predicate IsListing(edges: Edges, f: Option<Status>, root: ThreadId, rows: seq<Row>) {
    StrictlySorted(RowLeq, rows) && forall r :: r in rows <==> IsDescendantRow(edges, f, root, r)
  }

  /** Every descendant with its depth, ordered by depth and then by id. */
  ghost function Descendants(edges: Edges, f: Option<Status>, root: ThreadId): (rows: seq<Row>)
    requires AcyclicRoot(edges, f, root)
    ensures IsListing(edges, f, root, rows)
  {
    var all := set d: nat, c | 1 <= d <= |edges| && c in Level(edges, f, root, d) :: Row(d, c);
    assert forall r :: r in all <==> IsDescendantRow(edges, f, root, r) by {
      forall r | IsDescendantRow(edges, f, root, r) ensures r in all {
        DepthBound(edges, f, root, r.id, r.depth);
        assert r == Row(r.depth, r.id);
      }
    }
    Ascending(RowLeq, all)
  }

  /** No thread is listed twice. */
  lemma {:induction false} ListedOnce(edges: Edges, f: Option<Status>, root: ThreadId, i: nat, j: nat)
    requires AcyclicRoot(edges, f, root)
    requires i < j < |Descendants(edges, f, root)|
    ensures Ids(Descendants(edges, f, root))[i] != Ids(Descendants(edges, f, root))[j]
  {
    var rows := Descendants(edges, f, root);
    assert rows[i] in rows && rows[j] in rows;
    if rows[i].id == rows[j].id {
      UniqueDepth(edges, f, root, rows[i].id, rows[i].depth, rows[j].depth);
      assert false;
    }
  }

  lemma RowOrder(edges: Edges, f: Option<Status>, root: ThreadId, i: nat, j: nat)
    requires AcyclicRoot(edges, f, root) && i < j < |Descendants(edges, f, root)|
    ensures var rows := Descendants(edges, f, root);
            rows[i].depth < rows[j].depth || (rows[i].depth == rows[j].depth && rows[i].id < rows[j].id)
  {
    var rows := Descendants(edges, f, root);
    assert RowLeq(rows[i], rows[j]) && rows[i] != rows[j];
  }

  /** One thread comes before another if it is reached by a shorter path, or by one as long and
      has the smaller id. */
  ghost predicate NearerFirst(edges: Edges, f: Option<Status>, root: ThreadId, a: ThreadId, b: ThreadId) {
    forall p, q :: PathFromTo(edges, f, p, root, a) && PathFromTo(edges, f, q, root, b) ==>
      |p| < |q| || (|p| == |q| && a < b)
  }

  /** Exactly the threads at the end of a path of at least one edge, breadth first. */
  ghost predicate BreadthFirst(edges: Edges, f: Option<Status>, root: ThreadId, ids: seq<ThreadId>) {
    && (forall c :: c in ids <==> exists p :: |p| >= 2 && PathFromTo(edges, f, p, root, c))
    && (forall i, j :: 0 <= i < j < |ids| ==> ids[i] != ids[j] && NearerFirst(edges, f, root, ids[i], ids[j]))
  }

  lemma PathDepth(edges: Edges, f: Option<Status>, root: ThreadId, r: Row, p: seq<ThreadId>)
    requires AcyclicRoot(edges, f, root) && IsDescendantRow(edges, f, root, r) && PathFromTo(edges, f, p, root, r.id)
    ensures |p| == r.depth + 1
  {
    PathReaches(edges, f, root, p);
    UniqueDepth(edges, f, root, r.id, |p| - 1, r.depth);
  }

  lemma ListedByPath(edges: Edges, f: Option<Status>, root: ThreadId, c: ThreadId)
    requires AcyclicRoot(edges, f, root)
    ensures c in Ids(Descendants(edges, f, root)) <==> exists p :: |p| >= 2 && PathFromTo(edges, f, p, root, c)
  {
    var rows := Descendants(edges, f, root);
    if c in Ids(rows) {
      var p := PathToListed(edges, f, root, rows, c);
    }
    if p :| |p| >= 2 && PathFromTo(edges, f, p, root, c) {
      ListedFromPath(edges, f, root, rows, p);
    }
  }

  lemma PathToListed(edges: Edges, f: Option<Status>, root: ThreadId, rows: seq<Row>, c: ThreadId) returns (p: seq<ThreadId>)
    requires IsListing(edges, f, root, rows) && c in Ids(rows)
    ensures |p| >= 2 && PathFromTo(edges, f, p, root, c)
  {
    var i :| 0 <= i < |rows| && Ids(rows)[i] == c;
    assert rows[i] in rows;
    p := PathOf(edges, f, root, c, rows[i].depth);
  }

  lemma ListedFromPath(edges: Edges, f: Option<Status>, root: ThreadId, rows: seq<Row>, p: seq<ThreadId>)
    requires IsListing(edges, f, root, rows) && |p| >= 2 && IsPath(edges, f, p) && p[0] == root
    ensures p[|p|-1] in Ids(rows)
  {
    PathReaches(edges, f, root, p);
    var r := Row(|p| - 1, p[|p|-1]);
    assert IsDescendantRow(edges, f, root, r);
    var i :| 0 <= i < |rows| && rows[i] == r;
    assert Ids(rows)[i] == r.id;
  }

  /** The listing in terms of paths alone. */
  lemma {:induction false} ListedBreadthFirst(edges: Edges, f: Option<Status>, root: ThreadId)
    requires AcyclicRoot(edges, f, root)
    ensures BreadthFirst(edges, f, root, Ids(Descendants(edges, f, root)))
  {
    var rows := Descendants(edges, f, root);
    var ids := Ids(rows);
    forall c ensures c in ids <==> exists p :: |p| >= 2 && PathFromTo(edges, f, p, root, c) {
      ListedByPath(edges, f, root, c);
    }
    forall i, j | 0 <= i < j < |ids| ensures ids[i] != ids[j] && NearerFirst(edges, f, root, ids[i], ids[j]) {
      ListedOnce(edges, f, root, i, j);
      RowOrder(edges, f, root, i, j);
      assert rows[i] in rows && rows[j] in rows;
      forall p, q | PathFromTo(edges, f, p, root, ids[i]) && PathFromTo(edges, f, q, root, ids[j])
        ensures |p| < |q| || (|p| == |q| && ids[i] < ids[j])
      {
        PathDepth(edges, f, root, rows[i], p);
        PathDepth(edges, f, root, rows[j], q);
      }
    }
  }

  // ----- Filtering and closing -----

  lemma {:induction false} LevelMonotone(edges: Edges, f: Option<Status>, root: ThreadId, d: nat)
    ensures Level(edges, f, root, d) <= Level(edges, None, root, d)
  {
    if d > 0 {
      LevelMonotone(edges, f, root, d - 1);
    }
  }

  lemma AcyclicUnderFilter(edges: Edges, f: Option<Status>, root: ThreadId)
    requires AcyclicRoot(edges, None, root)
    ensures AcyclicRoot(edges, f, root)
  {
    forall d: nat | d >= 1 ensures root !in Level(edges, f, root, d) {
      LevelMonotone(edges, f, root, d);
    }
  }

  lemma ListingsNest(edges: Edges, f: Option<Status>, root: ThreadId, some: seq<Row>, all: seq<Row>)
    requires IsListing(edges, f, root, some) && IsListing(edges, None, root, all)
    ensures Subsequence(some, all)
  {
    forall r | r in some ensures r in all {
      LevelMonotone(edges, f, root, r.depth);
    }
    SubsetIsSubsequence(RowLeq, some, all);
  }

  /** A filtered listing is the unfiltered one with rows left out, in the same order. */
  lemma {:induction false} FilteredIsSubsequence(edges: Edges, f: Option<Status>, root: ThreadId)
    requires AcyclicRoot(edges, None, root)
    ensures AcyclicRoot(edges, f, root)
    ensures Subsequence(Descendants(edges, f, root), Descendants(edges, None, root))
  {
    AcyclicUnderFilter(edges, f, root);
    ListingsNest(edges, f, root, Descendants(edges, f, root), Descendants(edges, None, root));
  }

  /** `x` is `c` or one of its matching descendants. */
  ghost predicate InSubtree(edges: Edges, f: Option<Status>, c: ThreadId, x: ThreadId) {
    exists k: nat :: x in Level(edges, f, c, k)
  }

  function SetStatusOf(edges: Edges, c: ThreadId, s: Status): Edges {
    if c in edges then edges[c := edges[c].(status := s)] else edges
  }

  /** A status set on an edge decides which listings its child is in, until another is set: setting
      it back to what it was undoes the change. */
  lemma {:induction false} StatusDecides(edges: Edges, c: ThreadId, s: Status, f: Option<Status>)
    requires c in edges
    ensures c in Children(SetStatusOf(edges, c, s), f, edges[c].parent) <==> f.None? || f == Some(s)
    ensures forall x, p :: x != c ==>
              (x in Children(SetStatusOf(edges, c, s), f, p) <==> x in Children(edges, f, p))
    ensures SetStatusOf(SetStatusOf(edges, c, s), c, edges[c].status) == edges
  {
    var there := SetStatusOf(edges, c, s);
    var back := SetStatusOf(there, c, edges[c].status);
    assert back.Keys == edges.Keys && forall x :: x in edges ==> back[x] == edges[x];
  }

  /** `c` is a proper descendant of `root`. */
  ghost predicate Reached(edges: Edges, f: Option<Status>, root: ThreadId, c: ThreadId) {
    exists m: nat :: m >= 1 && c in Level(edges, f, root, m)
  }

  /** `c` is listed under `root`, with `x` at or below it. */
  ghost predicate Cut(edges: Edges, f: Option<Status>, root: ThreadId, c: ThreadId, x: ThreadId) {
    Reached(edges, f, root, c) && InSubtree(edges, f, c, x)
  }

  lemma SubtreeStep(edges: Edges, f: Option<Status>, c: ThreadId, x: ThreadId)
    requires x in edges && Matches(edges[x], f) && x != c
    ensures InSubtree(edges, f, c, x) <==> InSubtree(edges, f, c, edges[x].parent)
  {
    var p := edges[x].parent;
    if InSubtree(edges, f, c, x) {
      var k: nat :| x in Level(edges, f, c, k);
      assert p in Level(edges, f, c, k - 1);
    }
    if InSubtree(edges, f, c, p) {
      var k: nat :| p in Level(edges, f, c, k);
      assert x in Level(edges, f, c, k + 1);
    }
  }

  lemma {:induction false} CloseLevel(edges: Edges, root: ThreadId, c: ThreadId, s: Status, x: ThreadId, d: nat)
    requires AcyclicRoot(edges, Some(Open), root) && s != Open
    ensures x in Level(SetStatusOf(edges, c, s), Some(Open), root, d) <==>
            x in Level(edges, Some(Open), root, d) && !Cut(edges, Some(Open), root, c, x)
    decreases d
  {
    var f, after := Some(Open), SetStatusOf(edges, c, s);
    if d == 0 {
      if x == root && Cut(edges, f, root, c, x) {
        var m: nat :| m >= 1 && c in Level(edges, f, root, m);
        var k: nat :| root in Level(edges, f, c, k);
        LevelCompose(edges, f, root, c, root, m, k);
        assert false;
      }
    } else if x in edges && x != c {
      CloseLevel(edges, root, c, s, edges[x].parent, d - 1);
      if Matches(edges[x], f) { SubtreeStep(edges, f, c, x); }
    } else if x == c && x in Level(edges, f, root, d) {
      assert x in Level(edges, f, c, 0);
    }
  }

  lemma CloseKeepsAcyclic(edges: Edges, root: ThreadId, c: ThreadId)
    requires AcyclicRoot(edges, Some(Open), root)
    ensures AcyclicRoot(SetStatusOf(edges, c, Closed), Some(Open), root)
  {
    forall d: nat | d >= 1 ensures root !in Level(SetStatusOf(edges, c, Closed), Some(Open), root, d) {
      CloseLevel(edges, root, c, Closed, root, d);
    }
  }

  ghost predicate Listed(rows: seq<Row>, c: ThreadId) {
    exists r :: r in rows && r.id == c
  }

  lemma ListedMeansReached(edges: Edges, f: Option<Status>, root: ThreadId, c: ThreadId, rows: seq<Row>)
    requires IsListing(edges, f, root, rows)
    ensures Listed(rows, c) <==> Reached(edges, f, root, c)
  {
    if m: nat :| m >= 1 && c in Level(edges, f, root, m) {
      assert IsDescendantRow(edges, f, root, Row(m, c));
      assert Row(m, c) in rows && Row(m, c).id == c;
    }
    if r :| r in rows && r.id == c {
      assert IsDescendantRow(edges, f, root, r);
      assert c in Level(edges, f, root, r.depth);
    }
  }

  lemma CloseListing(edges: Edges, root: ThreadId, c: ThreadId, before: seq<Row>, after: seq<Row>, r: Row)
    requires AcyclicRoot(edges, Some(Open), root)
    requires IsListing(edges, Some(Open), root, before)
    requires IsListing(SetStatusOf(edges, c, Closed), Some(Open), root, after)
    ensures r in after <==> r in before && !(Listed(before, c) && InSubtree(edges, Some(Open), c, r.id))
  {
    ListedMeansReached(edges, Some(Open), root, c, before);
    CloseRow(edges, root, c, r);
    assert Cut(edges, Some(Open), root, c, r.id) <==> Listed(before, c) && InSubtree(edges, Some(Open), c, r.id);
    assert r in before <==> IsDescendantRow(edges, Some(Open), root, r);
    assert r in after <==> IsDescendantRow(SetStatusOf(edges, c, Closed), Some(Open), root, r);
  }

  /**
   Closing the edge into `c` removes from the open listing exactly `c` and its open
   descendants when `c` is listed, and nothing otherwise; the rest keeps its order.
   */
  lemma {:induction false} CloseRemovesSubtree(edges: Edges, root: ThreadId, c: ThreadId)
    requires AcyclicRoot(edges, Some(Open), root)
    ensures AcyclicRoot(SetStatusOf(edges, c, Closed), Some(Open), root)
    ensures var before, after := Descendants(edges, Some(Open), root), Descendants(SetStatusOf(edges, c, Closed), Some(Open), root);
            && Subsequence(after, before)
            && forall r :: r in after <==> r in before && !(Listed(before, c) && InSubtree(edges, Some(Open), c, r.id))
  {
    CloseKeepsAcyclic(edges, root, c);
    var before, after := Descendants(edges, Some(Open), root), Descendants(SetStatusOf(edges, c, Closed), Some(Open), root);
    CloseSubsequence(edges, root, c, before, after);
  }

  lemma CloseSubsequence(edges: Edges, root: ThreadId, c: ThreadId, before: seq<Row>, after: seq<Row>)
    requires AcyclicRoot(edges, Some(Open), root)
    requires IsListing(edges, Some(Open), root, before)
    requires IsListing(SetStatusOf(edges, c, Closed), Some(Open), root, after)
    ensures Subsequence(after, before)
    ensures forall r :: r in after <==> r in before && !(Listed(before, c) && InSubtree(edges, Some(Open), c, r.id))
  {
    forall r ensures r in after <==> r in before && !(Listed(before, c) && InSubtree(edges, Some(Open), c, r.id)) {
      CloseListing(edges, root, c, before, after, r);
    }
    SubsetIsSubsequence(RowLeq, after, before);
  }

  lemma CloseRow(edges: Edges, root: ThreadId, c: ThreadId, r: Row)
    requires AcyclicRoot(edges, Some(Open), root)
    ensures IsDescendantRow(SetStatusOf(edges, c, Closed), Some(Open), root, r) <==>
            IsDescendantRow(edges, Some(Open), root, r) && !Cut(edges, Some(Open), root, c, r.id)
  {
    CloseLevel(edges, root, c, Closed, r.id, r.depth);
  }

  // ----- Re-parenting and the forest invariant -----

  /** No thread is its own descendant. */
  ghost predicate Forest(edges: Edges) {
    forall r :: AcyclicRoot(edges, None, r)
  }

  /** A walk in the updated table splits at its last use of the new edge. */
  lemma {:induction false} LastUse(edges: Edges, p: ThreadId, c: ThreadId, s: Status, r: ThreadId, x: ThreadId, d: nat) returns (k: nat)
    requires x in Level(edges[c := Edge(p, s)], None, r, d)
    ensures x in Level(edges, None, r, d) ||
            (k < d && x in Level(edges, None, c, k) && c in Level(edges[c := Edge(p, s)], None, r, d - k))
    decreases d
  {
    k := 0;
    if d > 0 && x != c {
      var j := LastUse(edges, p, c, s, r, edges[x].parent, d - 1);
      if edges[x].parent !in Level(edges, None, r, d - 1) {
        k := j + 1;
      }
    }
  }

  lemma {:induction false} OldWalkSurvives(edges: Edges, p: ThreadId, c: ThreadId, s: Status, x: ThreadId, k: nat)
    requires AcyclicRoot(edges, None, c) && x in Level(edges, None, c, k)
    ensures x in Level(edges[c := Edge(p, s)], None, c, k)
    decreases k
  {
    if k > 0 {
      OldWalkSurvives(edges, p, c, s, edges[x].parent, k - 1);
    }
  }

  /** An insert keeps the store a forest if and only if the new parent is not at or below the child. */
  lemma {:induction false} UpsertKeepsForestIff(edges: Edges, p: ThreadId, c: ThreadId, s: Status)
    requires Forest(edges)
    ensures Forest(edges[c := Edge(p, s)]) <==> !InSubtree(edges, None, c, p)
  {
    var after := edges[c := Edge(p, s)];
    if InSubtree(edges, None, c, p) {
      var k: nat :| p in Level(edges, None, c, k);
      OldWalkSurvives(edges, p, c, s, p, k);
      assert c in Level(after, None, c, k + 1);
      assert !AcyclicRoot(after, None, c);
    } else {
      forall r, d: nat | d >= 1 ensures r !in Level(after, None, r, d) {
        if r in Level(after, None, r, d) {
          NewCycle(edges, p, c, s, r, d);
        }
      }
    }
  }

  lemma NewCycle(edges: Edges, p: ThreadId, c: ThreadId, s: Status, r: ThreadId, d: nat)
    requires Forest(edges) && d >= 1 && r in Level(edges[c := Edge(p, s)], None, r, d)
    ensures InSubtree(edges, None, c, p)
  {
    assert AcyclicRoot(edges, None, r);
    var k := LastUse(edges, p, c, s, r, r, d);
    var e := d - k - 1;
    assert p in Level(edges[c := Edge(p, s)], None, r, e);
    var j := LastUse(edges, p, c, s, r, p, e);
    if p in Level(edges, None, r, e) {
      LevelCompose(edges, None, c, r, p, k, e);
    }
  }

  // ----- The store -----

  /** What the traversal has found: `all[..k]` is processed, the rest is queued. */
  ghost predicate QueryState(edges: Edges, f: Option<Status>, root: ThreadId, all: seq<Row>, k: nat) {
    && k <= |all|
    && (forall r :: r in all ==> IsDescendantRow(edges, f, root, r))
    && Distinct(all)
    && (forall c :: c in Children(edges, f, root) ==> Row(1, c) in all)
    && (forall r, c :: r in all[..k] && c in Children(edges, f, r.id) ==> Row(r.depth + 1, c) in all)
    && (forall r :: r in all && r.depth > 1 ==> Row(r.depth - 1, edges[r.id].parent) in all[..k])
  }

  /** The rows produced for one parent row. */
  function RowsAt(depth: nat, ids: seq<ThreadId>): (rows: seq<Row>)
    ensures |rows| == |ids| && forall r :: r in rows <==> r.depth == depth && r.id in ids
  {
    var rows := seq(|ids|, i requires 0 <= i < |ids| => Row(depth, ids[i]));
    assert forall i :: 0 <= i < |ids| ==> rows[i] == Row(depth, ids[i]);
    assert forall r: Row :: r.depth == depth && r.id in ids ==> r in rows by {
      forall r: Row | r.depth == depth && r.id in ids ensures r in rows {
        var i :| 0 <= i < |ids| && ids[i] == r.id;
        assert rows[i] == r;
      }
    }
    rows
  }

  ghost predicate ChildList(edges: Edges, f: Option<Status>, p: ThreadId, ids: seq<ThreadId>) {
    StrictlySorted(IdLeq, ids) && forall c :: c in ids <==> c in Children(edges, f, p)
  }

  lemma QueryStart(edges: Edges, f: Option<Status>, root: ThreadId, ids: seq<ThreadId>)
    requires ChildList(edges, f, root, ids)
    ensures QueryState(edges, f, root, RowsAt(1, ids), 0)
  {
    assert Level(edges, f, root, 0) == {root};
  }

  /** The children of a row leaving the queue have not been seen before. */
  lemma NewRows(edges: Edges, f: Option<Status>, root: ThreadId, all: seq<Row>, k: nat, c: ThreadId)
    requires QueryState(edges, f, root, all, k) && k < |all|
    requires c in Children(edges, f, all[k].id)
    ensures IsDescendantRow(edges, f, root, Row(all[k].depth + 1, c))
    ensures Row(all[k].depth + 1, c) !in all
  {
    var row, r := all[k], Row(all[k].depth + 1, c);
    assert row in all && IsDescendantRow(edges, f, root, row);
    assert row !in all[..k];
    assert row == Row(r.depth - 1, edges[r.id].parent);
  }

  lemma RowsDistinct(depth: nat, ids: seq<ThreadId>)
    requires StrictlySorted(IdLeq, ids)
    ensures Distinct(RowsAt(depth, ids))
  {
    var rows := RowsAt(depth, ids);
    assert forall i :: 0 <= i < |ids| ==> rows[i] == Row(depth, ids[i]);
  }

  lemma RowsAreNew(edges: Edges, f: Option<Status>, root: ThreadId, all: seq<Row>, k: nat, ids: seq<ThreadId>)
    requires QueryState(edges, f, root, all, k) && k < |all|
    requires ChildList(edges, f, all[k].id, ids)
    ensures var rows := RowsAt(all[k].depth + 1, ids);
            Distinct(all + rows) && forall r :: r in all + rows ==> IsDescendantRow(edges, f, root, r)
  {
    var row, rows := all[k], RowsAt(all[k].depth + 1, ids);
    forall r | r in rows ensures IsDescendantRow(edges, f, root, r) && r !in all {
      NewRows(edges, f, root, all, k, r.id);
      assert r == Row(row.depth + 1, r.id);
    }
    RowsDistinct(row.depth + 1, ids);
    DistinctConcat(all, rows);
  }

  lemma QueryStep(edges: Edges, f: Option<Status>, root: ThreadId, all: seq<Row>, k: nat, ids: seq<ThreadId>)
    requires QueryState(edges, f, root, all, k) && k < |all|
    requires ChildList(edges, f, all[k].id, ids)
    ensures QueryState(edges, f, root, all + RowsAt(all[k].depth + 1, ids), k + 1)
  {
    var next := all + RowsAt(all[k].depth + 1, ids);
    RowsAreNew(edges, f, root, all, k, ids);
    assert next[..k+1] == all[..k] + [all[k]];
    forall r, c | r in next[..k+1] && c in Children(edges, f, r.id) ensures Row(r.depth + 1, c) in next {
      ChildListed(edges, f, root, all, k, ids, r, c);
    }
    forall r | r in next && r.depth > 1 ensures Row(r.depth - 1, edges[r.id].parent) in next[..k+1] {
      ParentExpanded(edges, f, root, all, k, ids, r);
    }
  }

  lemma ChildListed(edges: Edges, f: Option<Status>, root: ThreadId, all: seq<Row>, k: nat, ids: seq<ThreadId>, r: Row, c: ThreadId)
    requires QueryState(edges, f, root, all, k) && k < |all|
    requires ChildList(edges, f, all[k].id, ids)
    requires r in all[..k] + [all[k]] && c in Children(edges, f, r.id)
    ensures Row(r.depth + 1, c) in all + RowsAt(all[k].depth + 1, ids)
  {
    if r in all[..k] {
      assert Row(r.depth + 1, c) in all;
    } else {
      assert Row(r.depth + 1, c) in RowsAt(all[k].depth + 1, ids);
    }
  }

  lemma ParentExpanded(edges: Edges, f: Option<Status>, root: ThreadId, all: seq<Row>, k: nat, ids: seq<ThreadId>, r: Row)
    requires QueryState(edges, f, root, all, k) && k < |all|
    requires ChildList(edges, f, all[k].id, ids)
    requires r in all + RowsAt(all[k].depth + 1, ids) && r.depth > 1 && r.id in edges
    ensures Row(r.depth - 1, edges[r.id].parent) in all[..k] + [all[k]]
  {
    if r in all {
      assert Row(r.depth - 1, edges[r.id].parent) in all[..k];
    } else {
      assert r in RowsAt(all[k].depth + 1, ids);
      assert Row(r.depth - 1, edges[r.id].parent) == all[k];
    }
  }

  lemma QueryAdvance(edges: Edges, f: Option<Status>, root: ThreadId, table: seq<Row>, queue: seq<Row>, ids: seq<ThreadId>)
    requires AcyclicRoot(edges, f, root) && queue != []
    requires QueryState(edges, f, root, table + queue, |table|)
    requires ChildList(edges, f, queue[0].id, ids)
    ensures |table| < |edges|
    ensures QueryState(edges, f, root,
                       table + [queue[0]] + (queue[1..] + RowsAt(queue[0].depth + 1, ids)), |table + [queue[0]]|)
  {
    var all := table + queue;
    RowsBound(edges, f, root, all);
    assert all[|table|] == queue[0];
    QueryStep(edges, f, root, all, |table|, ids);
    Rotate(table, queue, RowsAt(queue[0].depth + 1, ids));
  }

  /** Distinct descendant rows are no more than the edges. */
  lemma RowsBound(edges: Edges, f: Option<Status>, root: ThreadId, all: seq<Row>)
    requires AcyclicRoot(edges, f, root)
    requires forall r :: r in all ==> IsDescendantRow(edges, f, root, r)
    requires Distinct(all)
    ensures |all| <= |edges|
  {
    var found := FoundIds(edges, f, root, all);
    SubsetSize(found, edges.Keys);
  }

  lemma {:induction false} FoundIds(edges: Edges, f: Option<Status>, root: ThreadId, all: seq<Row>) returns (ids: set<ThreadId>)
    requires AcyclicRoot(edges, f, root)
    requires forall r :: r in all ==> IsDescendantRow(edges, f, root, r)
    requires Distinct(all)
    ensures ids <= edges.Keys && |ids| == |all|
    ensures forall x :: x in ids ==> exists r :: r in all && r.id == x
  {
    if all == [] {
      ids := {};
    } else {
      var n := |all| - 1;
      var rest := FoundIds(edges, f, root, all[..n]);
      assert all[n] in all;
      if all[n].id in rest {
        var r :| r in all[..n] && r.id == all[n].id;
        UniqueDepth(edges, f, root, r.id, r.depth, all[n].depth);
        assert false;
      }
      ids := rest + {all[n].id};
    }
  }

  /** When the queue is empty, every descendant has been found. */
  lemma {:induction false} QueryComplete(edges: Edges, f: Option<Status>, root: ThreadId, all: seq<Row>, r: Row)
    requires QueryState(edges, f, root, all, |all|) && IsDescendantRow(edges, f, root, r)
    ensures r in all
    decreases r.depth
  {
    assert all[..|all|] == all;
    var p := edges[r.id].parent;
    if r.depth == 1 {
      assert p in Level(edges, f, root, 0);
      assert r.id in Children(edges, f, root);
    } else {
      QueryComplete(edges, f, root, all, Row(r.depth - 1, p));
      assert r.id in Children(edges, f, p);
      assert r == Row(Row(r.depth - 1, p).depth + 1, r.id);
    }
  }

  lemma RowsComplete(edges: Edges, f: Option<Status>, root: ThreadId, all: seq<Row>)
    requires AcyclicRoot(edges, f, root) && QueryState(edges, f, root, all, |all|)
    ensures forall r :: r in all <==> IsDescendantRow(edges, f, root, r)
  {
    forall r | IsDescendantRow(edges, f, root, r) ensures r in all {
      QueryComplete(edges, f, root, all, r);
    }
  }

  lemma RowsStrict(all: seq<Row>)
    requires Distinct(all)
    ensures StrictlySorted(RowLeq, SortRows(all)) && forall r :: r in SortRows(all) <==> r in all
  {
    var sorted := SortRows(all);
    forall r ensures multiset(all)[r] <= 1 { CountAtMostOne(all, r); }
    SortedDistinct(RowLeq, sorted);
    forall r ensures r in sorted <==> r in all {
      assert r in sorted <==> r in multiset(sorted);
      assert r in all <==> r in multiset(all);
    }
  }

  lemma ListingUnique(edges: Edges, f: Option<Status>, root: ThreadId, a: seq<Row>, b: seq<Row>)
    requires IsListing(edges, f, root, a) && IsListing(edges, f, root, b)
    ensures a == b
  {
    StrictlySortedUnique(RowLeq, a, b);
  }

  lemma QueryResult(edges: Edges, f: Option<Status>, root: ThreadId, all: seq<Row>)
    requires AcyclicRoot(edges, f, root) && QueryState(edges, f, root, all, |all|)
    ensures SortRows(all) == Descendants(edges, f, root)
  {
    RowsComplete(edges, f, root, all);
    RowsStrict(all);
    ListingUnique(edges, f, root, SortRows(all), Descendants(edges, f, root));
  }

  lemma QueryOutcome(edges: Edges, f: Option<Status>, root: ThreadId, table: seq<Row>)
    requires AcyclicRoot(edges, f, root) && QueryState(edges, f, root, table, |table|)
    ensures var ids := Ids(SortRows(table));
            ids == Ids(Descendants(edges, f, root)) && BreadthFirst(edges, f, root, ids)
  {
    QueryResult(edges, f, root, table);
    ListedBreadthFirst(edges, f, root);
  }

  lemma SortedChildren(edges: Edges, f: Option<Status>, p: ThreadId, found: seq<ThreadId>)
    requires Distinct(found) && forall c :: c in found <==> c in Children(edges, f, p)
    ensures ChildList(edges, f, p, Sort(IdLeq, found))
  {
    var ids := Sort(IdLeq, found);
    forall c ensures multiset(found)[c] <= 1 { CountAtMostOne(found, c); }
    SortedDistinct(IdLeq, ids);
    assert forall c :: c in ids <==> c in multiset(ids);
  }

  /** The matching children in terms of the table alone. */
  lemma ChildListIs(edges: Edges, f: Option<Status>, p: ThreadId, ids: seq<ThreadId>)
    requires ChildList(edges, f, p, ids)
    ensures forall i, j :: 0 <= i < j < |ids| ==> ids[i] < ids[j]
    ensures forall c :: c in ids <==> c in edges && edges[c].parent == p && (f.None? || f == Some(edges[c].status))
  {
    forall i, j | 0 <= i < j < |ids| ensures ids[i] < ids[j] {
      assert IdLeq(ids[i], ids[j]) && ids[i] != ids[j];
    }
  }

  class Store {
    var edges: Edges

    constructor ()
      ensures edges == map[]
    {
      edges := map[];
    }

    /** Inserts the edge into `child`, replacing parent and status of an earlier one. */
    method UpsertEdge(parent: ThreadId, child: ThreadId, status: Status)
      modifies this
      ensures edges == old(edges)[child := Edge(parent, status)]
      ensures forall p, f :: child in Children(edges, f, p) ==> p == parent
    {
      edges := edges[child := Edge(parent, status)];
    }

    /** A missing child is left missing. */
    method SetEdgeStatus(child: ThreadId, status: Status)
      modifies this
      ensures edges == SetStatusOf(old(edges), child, status)
      ensures child in edges ==> edges == old(edges)[child := Edge(old(edges)[child].parent, status)]
      ensures edges.Keys == old(edges).Keys
      ensures forall x :: x in edges ==> edges[x].parent == old(edges)[x].parent
    {
      if child in edges {
        edges := edges[child := edges[child].(status := status)];
      }
    }

    /** The children whose edge matches, by ascending id. */
    method ListChildren(parent: ThreadId, filter: Option<Status>) returns (ids: seq<ThreadId>)
      ensures forall i, j :: 0 <= i < j < |ids| ==> ids[i] < ids[j]
      ensures forall c :: c in ids <==>
                c in edges && edges[c].parent == parent && (filter.None? || filter == Some(edges[c].status))
    {
      ids := SelectChildren(parent, filter);
      ChildListIs(edges, filter, parent, ids);
    }

    /** One scan of the table. */
    method SelectChildren(parent: ThreadId, filter: Option<Status>) returns (ids: seq<ThreadId>)
      ensures ChildList(edges, filter, parent, ids)
    {
      var found: seq<ThreadId> := [];
      var todo := edges.Keys;
      while todo != {}
        invariant todo <= edges.Keys
        invariant forall c :: c in found <==> c in Children(edges, filter, parent) && c !in todo
        invariant Distinct(found)
        decreases todo
      {
        var c :| c in todo;
        if edges[c].parent == parent && Matches(edges[c], filter) {
          found := found + [c];
        }
        todo := todo - {c};
      }
      ids := Sort(IdLeq, found);
      SortedChildren(edges, filter, parent, found);
    }

    /** The recursive query, ordered by depth and id. */
    method ListDescendants(root: ThreadId, filter: Option<Status>) returns (ids: seq<ThreadId>)
      requires AcyclicRoot(edges, filter, root)
      ensures ids == Ids(Descendants(edges, filter, root)) && BreadthFirst(edges, filter, root, ids)
    {
      var table := Subtree(root, filter);
      QueryOutcome(edges, filter, root, table);
      ids := Ids(SortRows(table));
    }

    /**
     The recursion: rows are taken from a queue one at a time and their matching children are
     queued one level deeper, until the queue is empty.
     */
    method Subtree(root: ThreadId, filter: Option<Status>) returns (table: seq<Row>)
      requires AcyclicRoot(edges, filter, root)
      ensures QueryState(edges, filter, root, table, |table|)
    {
      var first := SelectChildren(root, filter);
      table := [];
      var queue := RowsAt(1, first);
      QueryStart(edges, filter, root, first);
      assert table + queue == queue;
      while queue != []
        invariant QueryState(edges, filter, root, table + queue, |table|)
        decreases |edges| - |table|
      {
        var row := queue[0];
        var below := SelectChildren(row.id, filter);
        QueryAdvance(edges, filter, root, table, queue, below);
        table := table + [row];
        queue := queue[1..] + RowsAt(row.depth + 1, below);
      }
      assert table + queue == table;
    }
  }
}
