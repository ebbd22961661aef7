/** The dual graph of a triangle list (src/OptimalStrips.cpp): the edge map that
    records which triangle lies on each side of every edge, the dense numbering of
    the edges with a triangle on both sides (the dual edges), and the neighbour
    relation that the strip walk follows along selected dual edges. */
module DualGraph {
  import Collections

  /** The side value of an edge with no triangle on that side (a border edge). */
  const NoTriangle: int := -1

  /** An edge as two vertex indices; a key of the edge map has the smaller one first. */
  type Edge = (int, int)

  /** The triangle on the left and the one on the right of a canonical edge. */
  datatype Sides = Sides(left: int, right: int)

  type EdgeMap = map<Edge, Sides>

  /** A flat index list holds `|indices| / 3` triangles; trailing indices are ignored. */
  function TriangleCount(indices: seq<int>): nat
  {
    |indices| / 3
  }

  /** `std::minmax(a, b)`: the same two vertices, smaller first. */
  function Canon(a: int, b: int): (e: Edge)
    ensures e.0 <= e.1
    ensures (e.0 == a && e.1 == b) || (e.0 == b && e.1 == a)
  {
    if b < a then (b, a) else (a, b)
  }

  /** The oriented edge at corner `c` of triangle `t`: from its vertex `c` to vertex `c + 1 mod 3`. */
  function Corner(indices: seq<int>, t: int, c: int): Edge
    requires 0 <= t < TriangleCount(indices) && 0 <= c < 3
  {
    (indices[3 * t + c], indices[3 * t + (c + 1) % 3])
  }

  /** The edge-map key of corner `c` of triangle `t`. */
  function CornerKey(indices: seq<int>, t: int, c: int): Edge
    requires 0 <= t < TriangleCount(indices) && 0 <= c < 3
  {
    Canon(Corner(indices, t, c).0, Corner(indices, t, c).1)
  }

  /** The corner edge runs from the smaller to the larger vertex, so the triangle is on
      the left of its key; otherwise (equal vertices included) it is on the right. */
  predicate IsForward(indices: seq<int>, t: int, c: int)
    requires 0 <= t < TriangleCount(indices) && 0 <= c < 3
  {
    Corner(indices, t, c).0 < Corner(indices, t, c).1
  }

  /** Corner number `j` of the whole list is corner `j % 3` of triangle `j / 3`. */
  function KeyAt(indices: seq<int>, j: int): Edge
    requires 0 <= j < 3 * TriangleCount(indices)
  {
    CornerKey(indices, j / 3, j % 3)
  }

  predicate ForwardAt(indices: seq<int>, j: int)
    requires 0 <= j < 3 * TriangleCount(indices)
  {
    IsForward(indices, j / 3, j % 3)
  }

  /** One pass of the inner loop: emplace the key with sides (-1, -1) if it is new,
      then set the side that triangle `t` lies on to `t`. */
  function Record(m: EdgeMap, edge: Edge, t: int): EdgeMap
  {
    var key := Canon(edge.0, edge.1);
    var sides := if key in m then m[key] else Sides(NoTriangle, NoTriangle);
    m[key := if edge.0 < edge.1 then sides.(left := t) else sides.(right := t)]
  }

  /** The edge map after the first `k` corners of the list. */
  function EdgeMapUpTo(indices: seq<int>, k: nat): EdgeMap
    requires k <= 3 * TriangleCount(indices)
  {
    if k == 0 then map[]
    else Record(EdgeMapUpTo(indices, k - 1), Corner(indices, (k - 1) / 3, (k - 1) % 3), (k - 1) / 3)
  }

  /** The edge map of the whole list. */
  function EdgeMapOf(indices: seq<int>): EdgeMap
  {
    EdgeMapUpTo(indices, 3 * TriangleCount(indices))
  }

  /** `ComputeEdgeMap`: fill the map corner by corner, triangle by triangle. */
  method ComputeEdgeMap(indices: seq<int>) returns (result: EdgeMap)
    ensures result == EdgeMapOf(indices)
  {
    result := map[];
    ghost var k := 0;  // corners recorded so far
    for t := 0 to TriangleCount(indices)
      invariant k == 3 * t && result == EdgeMapUpTo(indices, k)
    {
      for corner := 0 to 3
        invariant k == 3 * t + corner && result == EdgeMapUpTo(indices, k)
      {
        EdgeMapStep(indices, t, corner);
        var nextCorner := (corner + 1) % 3;
        var edge := (indices[3 * t + corner], indices[3 * t + nextCorner]);
        ghost var before, j := result, k;
        result := RecordCorner(result, edge, t);
        k := k + 1;
        CornerRecorded(indices, t, corner, j, k, before, result);
      }
    }
  }

  /** Recording corner `c` of triangle `t`, corner number `j` of the list, takes the
      edge map after `j` corners to the one after `k = j + 1`. */
  lemma CornerRecorded(indices: seq<int>, t: int, c: int, j: nat, k: nat, before: EdgeMap, after: EdgeMap)
    requires 0 <= t < TriangleCount(indices) && 0 <= c < 3 && j == 3 * t + c && k == j + 1
    requires before == EdgeMapUpTo(indices, j)
    requires after == Record(before, (indices[3 * t + c], indices[3 * t + (c + 1) % 3]), t)
    ensures k <= 3 * TriangleCount(indices) && after == EdgeMapUpTo(indices, k)
  {
    EdgeMapStep(indices, t, c);
  }

  /** One corner of the loop: `emplace` the pair (-1, -1) under the canonical key, then
      set one side through the returned reference; the map is then `Record(m, edge, t)`. */
  method RecordCorner(m: EdgeMap, edge: Edge, t: int) returns (result: EdgeMap)
    ensures result == Record(m, edge, t)
  {
    result := m;
    var uniqueEdge := Canon(edge.0, edge.1);
    if uniqueEdge !in result {
      result := result[uniqueEdge := Sides(NoTriangle, NoTriangle)];
    }
    var sides := result[uniqueEdge];
    // the triangle lies left of the edge; flipping the edge puts it on the right
    if edge.0 < edge.1 {
      sides := sides.(left := t);
    } else {
      sides := sides.(right := t);
    }
    if uniqueEdge !in m {
      assert result[uniqueEdge := sides] == m[uniqueEdge := sides];
    }
    result := result[uniqueEdge := sides];
  }

  /** Corner `c` of triangle `t` is corner number `3 t + c` of the list. */
  lemma EdgeMapStep(indices: seq<int>, t: int, c: int)
    requires 0 <= t < TriangleCount(indices) && 0 <= c < 3
    ensures 3 * t + 2 < |indices| && 3 * t + c + 1 <= 3 * TriangleCount(indices)
    ensures EdgeMapUpTo(indices, 3 * t + (c + 1)) == Record(EdgeMapUpTo(indices, 3 * t + c), Corner(indices, t, c), t)
  {
    assert (3 * t + c) / 3 == t && (3 * t + c) % 3 == c;
  }

  /** The last triangle among the first `k` corners whose corner has key `key` and the
      given orientation, or `NoTriangle` if none has: the value the map holds for that side. */
  function LastWriter(indices: seq<int>, k: nat, key: Edge, forward: bool): int
    requires k <= 3 * TriangleCount(indices)
  {
    if k == 0 then NoTriangle
    else if KeyAt(indices, k - 1) == key && ForwardAt(indices, k - 1) == forward then (k - 1) / 3
    else LastWriter(indices, k - 1, key, forward)
  }

  /** A last writer is `NoTriangle` exactly when no corner writes that side; otherwise
      it is a triangle in range that does write it, and no later triangle does. */
  lemma {:induction false} LastWriterSpec(indices: seq<int>, k: nat, key: Edge, forward: bool)
    requires k <= 3 * TriangleCount(indices)
    ensures LastWriter(indices, k, key, forward) == NoTriangle <==>
      forall j :: 0 <= j < k && KeyAt(indices, j) == key ==> ForwardAt(indices, j) != forward
    ensures LastWriter(indices, k, key, forward) != NoTriangle ==>
      0 <= LastWriter(indices, k, key, forward) < TriangleCount(indices) &&
      exists j :: 0 <= j < k && j / 3 == LastWriter(indices, k, key, forward) &&
        KeyAt(indices, j) == key && ForwardAt(indices, j) == forward
    ensures forall j :: 0 <= j < k && KeyAt(indices, j) == key && ForwardAt(indices, j) == forward ==>
      j / 3 <= LastWriter(indices, k, key, forward)
  {
    if k > 0 {
      LastWriterSpec(indices, k - 1, key, forward);
      if KeyAt(indices, k - 1) == key && ForwardAt(indices, k - 1) == forward {
        forall j | 0 <= j < k && KeyAt(indices, j) == key && ForwardAt(indices, j) == forward
          ensures j / 3 <= (k - 1) / 3
        {
        }
      }
    }
  }

  /** The keys of the map are exactly the keys of the corners read so far. */
  lemma {:induction false} EdgeMapUpToKeys(indices: seq<int>, k: nat)
    requires k <= 3 * TriangleCount(indices)
    ensures forall key :: key in EdgeMapUpTo(indices, k) <==> exists j :: 0 <= j < k && KeyAt(indices, j) == key
  {
    if k > 0 {
      var i := k - 1;
      EdgeMapUpToKeys(indices, i);
      var added := KeyAt(indices, i);
      RecordKeys(EdgeMapUpTo(indices, i), Corner(indices, i / 3, i % 3), i / 3);
      forall key
        ensures key in EdgeMapUpTo(indices, k) <==> exists j :: 0 <= j < k && KeyAt(indices, j) == key
      {
        if key == added {
          assert 0 <= i < k && KeyAt(indices, i) == key;
        } else if j :| 0 <= j < k && KeyAt(indices, j) == key {
          assert j < i;
        }
      }
    }
  }

  /** Recording a corner adds its key and no other. */
  lemma RecordKeys(m: EdgeMap, edge: Edge, t: int)
    ensures forall key :: key in Record(m, edge, t) <==> key in m || key == Canon(edge.0, edge.1)
  {
  }

  /** Each entry of the map holds the last writer of each side. */
  lemma {:induction false} EdgeMapUpToValues(indices: seq<int>, k: nat)
    requires k <= 3 * TriangleCount(indices)
    ensures forall key :: key in EdgeMapUpTo(indices, k) ==>
      EdgeMapUpTo(indices, k)[key] == Sides(LastWriter(indices, k, key, true), LastWriter(indices, k, key, false))
  {
    if k > 0 {
      var i := k - 1;
      EdgeMapUpToValues(indices, i);
      var m := EdgeMapUpTo(indices, i);
      var added := KeyAt(indices, i);
      assert added == Canon(Corner(indices, i / 3, i % 3).0, Corner(indices, i / 3, i % 3).1);
      if added !in m {
        EdgeMapUpToKeys(indices, i);
        LastWriterSpec(indices, i, added, true);
        LastWriterSpec(indices, i, added, false);
      }
    }
  }

  /** Every key of the edge map is canonical and is the key of some corner; every
      corner's key is a key of the map. */
  lemma EdgeMapKeys(indices: seq<int>)
    ensures forall key :: key in EdgeMapOf(indices) ==> key.0 <= key.1
    ensures forall key :: key in EdgeMapOf(indices) <==>
      exists t, c :: 0 <= t < TriangleCount(indices) && 0 <= c < 3 && CornerKey(indices, t, c) == key
  {
    var n := 3 * TriangleCount(indices);
    EdgeMapUpToKeys(indices, n);
    forall key | key in EdgeMapOf(indices)
      ensures exists t, c :: 0 <= t < TriangleCount(indices) && 0 <= c < 3 && CornerKey(indices, t, c) == key
    {
      var j :| 0 <= j < n && KeyAt(indices, j) == key;
      assert CornerKey(indices, j / 3, j % 3) == key;
    }
    forall t, c | 0 <= t < TriangleCount(indices) && 0 <= c < 3
      ensures CornerKey(indices, t, c) in EdgeMapOf(indices)
    {
      var j := 3 * t + c;
      assert j / 3 == t && j % 3 == c;
      assert KeyAt(indices, j) == CornerKey(indices, t, c);
    }
  }

  /** Corner `c` of triangle `t` has key `key` and the given orientation, so it writes
      that side of the entry of `key`. */
  predicate Writes(indices: seq<int>, t: int, c: int, key: Edge, forward: bool)
  {
    && 0 <= t < TriangleCount(indices) && 0 <= c < 3
    && CornerKey(indices, t, c) == key && IsForward(indices, t, c) == forward
  }

  /** A side of an entry is `NoTriangle` exactly when no corner writes it; otherwise it
      is a triangle in range that writes it, and no later triangle writes it. */
  lemma EdgeMapSides(indices: seq<int>, key: Edge)
    requires key in EdgeMapOf(indices)
    ensures EdgeMapOf(indices)[key].left == NoTriangle <==> forall t, c :: !Writes(indices, t, c, key, true)
    ensures EdgeMapOf(indices)[key].right == NoTriangle <==> forall t, c :: !Writes(indices, t, c, key, false)
    ensures EdgeMapOf(indices)[key].left != NoTriangle ==>
      exists c :: Writes(indices, EdgeMapOf(indices)[key].left, c, key, true)
    ensures EdgeMapOf(indices)[key].right != NoTriangle ==>
      exists c :: Writes(indices, EdgeMapOf(indices)[key].right, c, key, false)
    ensures forall t, c :: Writes(indices, t, c, key, true) ==> t <= EdgeMapOf(indices)[key].left
    ensures forall t, c :: Writes(indices, t, c, key, false) ==> t <= EdgeMapOf(indices)[key].right
  {
    var n := 3 * TriangleCount(indices);
    EdgeMapUpToValues(indices, n);
    SideSpec(indices, key, true);
    SideSpec(indices, key, false);
  }

  /** `LastWriterSpec` over the whole list, restated in triangles and corners. */
  lemma SideSpec(indices: seq<int>, key: Edge, forward: bool)
    ensures LastWriter(indices, 3 * TriangleCount(indices), key, forward) == NoTriangle <==>
      forall t, c :: !Writes(indices, t, c, key, forward)
    ensures LastWriter(indices, 3 * TriangleCount(indices), key, forward) != NoTriangle ==>
      exists c :: Writes(indices, LastWriter(indices, 3 * TriangleCount(indices), key, forward), c, key, forward)
    ensures forall t, c :: Writes(indices, t, c, key, forward) ==>
      t <= LastWriter(indices, 3 * TriangleCount(indices), key, forward)
  {
    var n := 3 * TriangleCount(indices);
    var w := LastWriter(indices, n, key, forward);
    LastWriterSpec(indices, n, key, forward);
    forall t, c | 0 <= t < TriangleCount(indices) && 0 <= c < 3
      ensures KeyAt(indices, 3 * t + c) == CornerKey(indices, t, c)
      ensures ForwardAt(indices, 3 * t + c) == IsForward(indices, t, c)
      ensures (3 * t + c) / 3 == t
    {
      assert (3 * t + c) / 3 == t && (3 * t + c) % 3 == c;
    }
    if w != NoTriangle {
      var j :| 0 <= j < n && j / 3 == w && KeyAt(indices, j) == key && ForwardAt(indices, j) == forward;
      assert Writes(indices, w, j % 3, key, forward);
    } else {
      forall t, c | Writes(indices, t, c, key, forward)
        ensures false
      {
      }
    }
    forall t, c | Writes(indices, t, c, key, forward)
      ensures t <= w
    {
      assert KeyAt(indices, 3 * t + c) == key;
    }
  }

  /** No two corners share a key and an orientation, unless they are corners of the
      same triangle. This is what it takes for no side of the map to be overwritten:
      every edge has at most one triangle on each side. */
  predicate Manifold(indices: seq<int>)
  {
    forall t, c, t', c' ::
      0 <= t < TriangleCount(indices) && 0 <= c < 3 && 0 <= t' < TriangleCount(indices) && 0 <= c' < 3 &&
      CornerKey(indices, t, c) == CornerKey(indices, t', c') && IsForward(indices, t, c) == IsForward(indices, t', c')
      ==> t == t'
  }

  /** The entry of a corner's key has its triangle on the side the orientation says,
      unless a later triangle overwrote it; on a manifold it is exactly that triangle. */
  lemma CornerSides(indices: seq<int>, t: int, c: int)
    requires 0 <= t < TriangleCount(indices) && 0 <= c < 3
    ensures CornerKey(indices, t, c) in EdgeMapOf(indices)
    ensures var s := EdgeMapOf(indices)[CornerKey(indices, t, c)];
      && (IsForward(indices, t, c) ==> s.left >= t)
      && (!IsForward(indices, t, c) ==> s.right >= t)
      && (Manifold(indices) && IsForward(indices, t, c) ==> s.left == t)
      && (Manifold(indices) && !IsForward(indices, t, c) ==> s.right == t)
  {
    var key := CornerKey(indices, t, c);
    EdgeMapKeys(indices);
    EdgeMapSides(indices, key);
    var s := EdgeMapOf(indices)[key];
    assert Writes(indices, t, c, key, IsForward(indices, t, c));
    if Manifold(indices) {
      if IsForward(indices, t, c) {
        var c' :| Writes(indices, s.left, c', key, true);
      } else {
        var c' :| Writes(indices, s.right, c', key, false);
      }
    }
  }

  /** Every triangle with a corner on a dual edge is one of that edge's two sides: no
      triangle that touches a dual edge was overwritten on it by another. This is what
      navigating with `EdgeMapOther` needs. A second triangle winding a shared edge the
      same way as the first leaves the other side at `NoTriangle`, so the edge is no dual
      edge and the mesh can still be two-sided. */
  predicate TwoSided(indices: seq<int>)
  {
    forall t, c ::
      (0 <= t < TriangleCount(indices) && 0 <= c < 3 &&
       CornerKey(indices, t, c) in EdgeMapOf(indices) && IsDual(EdgeMapOf(indices)[CornerKey(indices, t, c)]))
      ==> (t == EdgeMapOf(indices)[CornerKey(indices, t, c)].left ||
           t == EdgeMapOf(indices)[CornerKey(indices, t, c)].right)
  }

  /** A manifold is two-sided. */
  lemma ManifoldTwoSided(indices: seq<int>)
    requires Manifold(indices)
    ensures TwoSided(indices)
  {
    forall t, c | 0 <= t < TriangleCount(indices) && 0 <= c < 3
      ensures CornerKey(indices, t, c) in EdgeMapOf(indices)
      ensures var s := EdgeMapOf(indices)[CornerKey(indices, t, c)]; t == s.left || t == s.right
    {
      CornerSides(indices, t, c);
    }
  }

  /** No edge is touched by more than two different triangles. */
  predicate AtMostTwoTriangles(indices: seq<int>)
  {
    forall t1, c1, t2, c2, t3, c3 ::
      0 <= t1 < TriangleCount(indices) && 0 <= c1 < 3 &&
      0 <= t2 < TriangleCount(indices) && 0 <= c2 < 3 &&
      0 <= t3 < TriangleCount(indices) && 0 <= c3 < 3 &&
      CornerKey(indices, t1, c1) == CornerKey(indices, t2, c2) && CornerKey(indices, t2, c2) == CornerKey(indices, t3, c3)
      ==> t1 == t2 || t2 == t3 || t1 == t3
  }

  /** With three distinct vertices in every triangle, at most two triangles per edge
      make the mesh two-sided: a triangle off both sides of a dual edge would leave
      one other triangle on both of them, which takes two corners of it on one edge. */
  lemma TwoTrianglesTwoSided(indices: seq<int>)
    requires AtMostTwoTriangles(indices) && NonDegenerate(indices)
    ensures TwoSided(indices)
  {
    var m := EdgeMapOf(indices);
    forall t, c | 0 <= t < TriangleCount(indices) && 0 <= c < 3 &&
      CornerKey(indices, t, c) in m && IsDual(m[CornerKey(indices, t, c)])
      ensures t == m[CornerKey(indices, t, c)].left || t == m[CornerKey(indices, t, c)].right
    {
      var key := CornerKey(indices, t, c);
      EdgeMapSides(indices, key);
      var s := m[key];
      var cl :| Writes(indices, s.left, cl, key, true);
      var cr :| Writes(indices, s.right, cr, key, false);
      if t != s.left && t != s.right {
        assert s.left == s.right;
        DistinctCornerKeys(indices, s.left, cl, cr);
        assert false;
      }
    }
  }

  /** An edge is a dual edge when it has a triangle on both sides. */
  predicate IsDual(s: Sides)
  {
    s.left >= 0 && s.right >= 0
  }

  /** `ids` gives every dual edge of `m`, and nothing else, an id in `0 .. |edges| - 1`,
      and `edges` maps each id back to its edge. */
  predicate Numbering(m: EdgeMap, edges: seq<Edge>, ids: map<Edge, int>)
  {
    && (forall e :: e in ids ==> e in m && IsDual(m[e]))
    && (forall e :: e in m && IsDual(m[e]) ==> e in ids)
    && |edges| == |ids|
    && (forall e :: e in ids ==> 0 <= ids[e] < |edges| && edges[ids[e]] == e)
    && (forall i :: 0 <= i < |edges| ==> edges[i] in ids && ids[edges[i]] == i)
  }

  /** The constructor's loop: visit the entries of the map in some order and append
      each dual edge to `edges`, its id being its position there. */
  method NumberDualEdges(m: EdgeMap) returns (edges: seq<Edge>, ids: map<Edge, int>)
    ensures Numbering(m, edges, ids)
  {
    edges, ids := [], map[];
    var pending := m.Keys;
    while pending != {}
      invariant pending <= m.Keys
      invariant forall e :: e in ids ==> e in m && e !in pending && IsDual(m[e])
      invariant forall e :: e in m && e !in pending && IsDual(m[e]) ==> e in ids
      invariant |edges| == |ids|
      invariant forall e :: e in ids ==> 0 <= ids[e] < |edges| && edges[ids[e]] == e
      invariant forall i :: 0 <= i < |edges| ==> edges[i] in ids && ids[edges[i]] == i
      decreases pending
    {
      ghost var someKey := Collections.NonEmptyHasElement(pending);
      var key :| key in pending;
      var sides := m[key];
      if sides.left >= 0 && sides.right >= 0 {
        ids := ids[key := |edges|];
        edges := edges + [key];
      }
      pending := pending - {key};
    }
  }

  /** `EdgeMapOther`: the side of `s` that is not `cmp`. */
  function EdgeMapOther(s: Sides, cmp: int): (other: int)
    ensures other == s.left || other == s.right
    ensures cmp == s.left || cmp == s.right ==> multiset{cmp, other} == multiset{s.left, s.right}
  {
    if s.left == cmp then s.right else s.left
  }

  /** The state the strip code reads: the index list, its edge map and the numbering. */
  datatype Graph = Graph(indices: seq<int>, edgeMap: EdgeMap, edges: seq<Edge>, ids: map<Edge, int>)

  ghost predicate ValidGraph(g: Graph)
  {
    g.edgeMap == EdgeMapOf(g.indices) && Numbering(g.edgeMap, g.edges, g.ids)
  }

  /** The triangle across corner `c` of `t` when that corner's edge is a selected dual
      edge, and `NoTriangle` otherwise. */
  function Neighbour(g: Graph, sel: seq<bool>, t: int, c: int): int
    requires 0 <= t < TriangleCount(g.indices) && 0 <= c < 3
  {
    var key := CornerKey(g.indices, t, c);
    if key in g.ids && 0 <= g.ids[key] < |sel| && sel[g.ids[key]] && key in g.edgeMap
    then EdgeMapOther(g.edgeMap[key], t)
    else NoTriangle
  }

  /** `b` is across a selected dual edge of `a`. */
  predicate Step(g: Graph, sel: seq<bool>, a: int, b: int)
  {
    && 0 <= a < TriangleCount(g.indices)
    && 0 <= b < TriangleCount(g.indices)
    && (Neighbour(g, sel, a, 0) == b || Neighbour(g, sel, a, 1) == b || Neighbour(g, sel, a, 2) == b)
  }

  /** The number of corners of `t` whose edge is a selected dual edge. */
  function Degree(g: Graph, sel: seq<bool>, t: int): nat
    requires 0 <= t < TriangleCount(g.indices)
  {
    (if Neighbour(g, sel, t, 0) != NoTriangle then 1 else 0) +
    (if Neighbour(g, sel, t, 1) != NoTriangle then 1 else 0) +
    (if Neighbour(g, sel, t, 2) != NoTriangle then 1 else 0)
  }

  predicate DegreeAtMostTwo(g: Graph, sel: seq<bool>)
  {
    forall t :: 0 <= t < TriangleCount(g.indices) ==> Degree(g, sel, t) <= 2
  }

  /** A corner has a neighbour exactly when its key is a selected dual edge; the
      neighbour is a triangle in range, and on a two-sided mesh the corner's triangle
      and its neighbour are the two sides of the edge. */
  lemma NeighbourSpec(g: Graph, sel: seq<bool>, t: int, c: int)
    requires ValidGraph(g)
    requires 0 <= t < TriangleCount(g.indices) && 0 <= c < 3
    ensures var key := CornerKey(g.indices, t, c);
      Neighbour(g, sel, t, c) != NoTriangle <==> key in g.ids && g.ids[key] < |sel| && sel[g.ids[key]]
    ensures Neighbour(g, sel, t, c) != NoTriangle ==> 0 <= Neighbour(g, sel, t, c) < TriangleCount(g.indices)
    ensures var key := CornerKey(g.indices, t, c);
      Neighbour(g, sel, t, c) != NoTriangle && TwoSided(g.indices) ==>
      multiset{t, Neighbour(g, sel, t, c)} == multiset{g.edgeMap[key].left, g.edgeMap[key].right}
  {
    var key := CornerKey(g.indices, t, c);
    CornerSides(g.indices, t, c);
    EdgeMapSides(g.indices, key);
  }

  /** The corner of `a` whose selected dual edge leads to `b` (corner 2 if none does). */
  function OutCorner(g: Graph, sel: seq<bool>, a: int, b: int): (c: int)
    requires 0 <= a < TriangleCount(g.indices)
    ensures 0 <= c < 3
    ensures Step(g, sel, a, b) ==> Neighbour(g, sel, a, c) == b
  {
    if Neighbour(g, sel, a, 0) == b then 0 else if Neighbour(g, sel, a, 1) == b then 1 else 2
  }

  /** A corner of `b` with key `key` (corner 2 if there is none). */
  function MatchCorner(indices: seq<int>, b: int, key: Edge): (c: int)
    requires 0 <= b < TriangleCount(indices)
    ensures 0 <= c < 3
    ensures (exists c' :: 0 <= c' < 3 && CornerKey(indices, b, c') == key) ==> CornerKey(indices, b, c) == key
  {
    if CornerKey(indices, b, 0) == key then 0 else if CornerKey(indices, b, 1) == key then 1 else 2
  }

  /** On a two-sided mesh, a selected dual edge from corner `c` of `a` to a different
      triangle `b` is also the edge of the corner of `b` with the same key, and that
      corner leads back to `a`; `a` and `b` are the two sides of the edge. */
  lemma BackCornerAt(g: Graph, sel: seq<bool>, a: int, c: int)
    requires ValidGraph(g) && TwoSided(g.indices)
    requires 0 <= a < TriangleCount(g.indices) && 0 <= c < 3
    requires Neighbour(g, sel, a, c) != NoTriangle && Neighbour(g, sel, a, c) != a
    ensures 0 <= Neighbour(g, sel, a, c) < TriangleCount(g.indices)
    ensures var key := CornerKey(g.indices, a, c);
      var b := Neighbour(g, sel, a, c);
      var cb := MatchCorner(g.indices, b, key);
      && key in g.ids && g.ids[key] < |sel| && sel[g.ids[key]] && key in g.edgeMap
      && ((g.edgeMap[key].left == a && g.edgeMap[key].right == b) || (g.edgeMap[key].left == b && g.edgeMap[key].right == a))
      && CornerKey(g.indices, b, cb) == key
      && Neighbour(g, sel, b, cb) == a
  {
    var key := CornerKey(g.indices, a, c);
    var b := Neighbour(g, sel, a, c);
    NeighbourSpec(g, sel, a, c);
    EdgeMapSides(g.indices, key);
    var s := g.edgeMap[key];
    assert multiset{a, b} == multiset{s.left, s.right};
    assert (s.left == a && s.right == b) || (s.left == b && s.right == a);
    if s.left == b {
      var c' :| Writes(g.indices, b, c', key, true);
    } else {
      var c' :| Writes(g.indices, b, c', key, false);
    }
  }

  /** `BackCornerAt` for the corner of `a` that leads to `b`. */
  lemma BackCorner(g: Graph, sel: seq<bool>, a: int, b: int)
    requires ValidGraph(g) && TwoSided(g.indices)
    requires Step(g, sel, a, b) && a != b
    ensures var key := CornerKey(g.indices, a, OutCorner(g, sel, a, b));
      var cb := MatchCorner(g.indices, b, key);
      && key in g.ids && g.ids[key] < |sel| && sel[g.ids[key]] && key in g.edgeMap
      && ((g.edgeMap[key].left == a && g.edgeMap[key].right == b) || (g.edgeMap[key].left == b && g.edgeMap[key].right == a))
      && CornerKey(g.indices, b, cb) == key
      && Neighbour(g, sel, b, cb) == a
  {
    BackCornerAt(g, sel, a, OutCorner(g, sel, a, b));
  }

  /** On a two-sided mesh the selected dual graph is undirected. */
  lemma StepSymmetric(g: Graph, sel: seq<bool>, a: int, b: int)
    requires ValidGraph(g) && TwoSided(g.indices)
    requires Step(g, sel, a, b)
    ensures Step(g, sel, b, a)
  {
    if a != b {
      BackCorner(g, sel, a, b);
    }
  }

  /** Three distinct triangles across selected edges of `u` fill all three corners. */
  lemma ThreeNeighbours(g: Graph, sel: seq<bool>, u: int, a: int, b: int, c: int)
    requires Step(g, sel, u, a) && Step(g, sel, u, b) && Step(g, sel, u, c)
    requires a != b && b != c && a != c
    ensures Degree(g, sel, u) == 3
  {
  }

  /** A cycle of at least three distinct triangles, each across a selected dual edge
      of the one before it. */
  predicate SelectedCycle(g: Graph, sel: seq<bool>, cyc: seq<int>)
  {
    && |cyc| >= 3
    && (forall i, j :: 0 <= i < j < |cyc| ==> cyc[i] != cyc[j])
    && (forall i {:trigger Next(cyc, i)} :: 0 <= i < |cyc| ==> Step(g, sel, cyc[i], Next(cyc, i)))
  }

  /** The element after position `i` of a cycle, wrapping around at the end. */
  function Next(cyc: seq<int>, i: int): int
    requires 0 <= i < |cyc|
  {
    cyc[NextIndex(|cyc|, i)]
  }

  /** The position after `i` in a cycle of length `k`. */
  function NextIndex(k: nat, i: int): (j: int)
    requires 0 <= i < k
    ensures 0 <= j < k
  {
    if i + 1 < k then i + 1 else 0
  }

  /** The selection closes a loop: a cycle, or a triangle across a selected edge of itself. */
  ghost predicate HasLoop(g: Graph, sel: seq<bool>)
  {
    (exists cyc :: SelectedCycle(g, sel, cyc)) ||
    (exists t :: Step(g, sel, t, t))
  }

  /** Two different dual edges of a triangle never lead to the same other triangle:
      no two triangles are joined by two selected edges. */
  predicate SingleLinks(g: Graph, sel: seq<bool>)
  {
    forall a, c1, c2 :: 0 <= a < TriangleCount(g.indices) && 0 <= c1 < 3 && 0 <= c2 < 3 &&
      CornerKey(g.indices, a, c1) != CornerKey(g.indices, a, c2) &&
      Neighbour(g, sel, a, c1) != NoTriangle && Neighbour(g, sel, a, c1) != a
      ==> Neighbour(g, sel, a, c2) != Neighbour(g, sel, a, c1)
  }

  /** Every triangle has three distinct vertices. */
  predicate NonDegenerate(indices: seq<int>)
  {
    forall t :: 0 <= t < TriangleCount(indices) ==>
      indices[3 * t] != indices[3 * t + 1] && indices[3 * t + 1] != indices[3 * t + 2] && indices[3 * t] != indices[3 * t + 2]
  }

  /** Two different corners of a triangle with three distinct vertices have different keys. */
  lemma DistinctCornerKeys(indices: seq<int>, t: int, c1: int, c2: int)
    requires NonDegenerate(indices)
    requires 0 <= t < TriangleCount(indices) && 0 <= c1 < 3 && 0 <= c2 < 3 && c1 != c2
    ensures CornerKey(indices, t, c1) != CornerKey(indices, t, c2)
  {
    var a, b, c := indices[3 * t], indices[3 * t + 1], indices[3 * t + 2];
    assert a != b && b != c && a != c;
    assert Corner(indices, t, 0) == (a, b);
    assert Corner(indices, t, 1) == (b, c);
    assert Corner(indices, t, 2) == (c, a);
  }

  /** Only a triangle with a repeated vertex can be across a selected edge of itself:
      that needs the triangle on both sides of one edge, so two of its corners share a key. */
  lemma NonDegenerateNoSelfStep(g: Graph, sel: seq<bool>, t: int)
    requires ValidGraph(g) && NonDegenerate(g.indices)
    ensures !Step(g, sel, t, t)
  {
    if Step(g, sel, t, t) {
      var c :| 0 <= c < 3 && Neighbour(g, sel, t, c) == t;
      var key := CornerKey(g.indices, t, c);
      NeighbourSpec(g, sel, t, c);
      EdgeMapSides(g.indices, key);
      var s := g.edgeMap[key];
      assert s.left == t && s.right == t;
      var c1 :| Writes(g.indices, t, c1, key, true);
      var c2 :| Writes(g.indices, t, c2, key, false);
      DistinctCornerKeys(g.indices, t, c1, c2);
      assert false;
    }
  }

  /** Two triangles winding their shared edge (0, 1) the same way: no manifold, yet
      two-sided, because the second overwrites the first on the left of (0, 1) and
      leaves its right at `NoTriangle`, so (0, 1) is a border edge and no dual edge. */
  lemma SameWindingTwoSided()
    ensures var indices := [0, 1, 2, 0, 1, 3];
      && EdgeMapOf(indices)[(0, 1)] == Sides(1, NoTriangle)
      && !Manifold(indices) && TwoSided(indices)
  {
    var indices := [0, 1, 2, 0, 1, 3];
    SameWindingMap();
    var m := EdgeMapOf(indices);
    assert forall key :: key in m ==> !IsDual(m[key]);
    assert CornerKey(indices, 0, 0) == CornerKey(indices, 1, 0) && IsForward(indices, 0, 0) && IsForward(indices, 1, 0);
  }

  /** The edge map of [0, 1, 2, 0, 1, 3], corner by corner. */
  lemma SameWindingMap()
    ensures EdgeMapOf([0, 1, 2, 0, 1, 3]) ==
      map[(0, 1) := Sides(1, -1), (1, 2) := Sides(0, -1), (0, 2) := Sides(-1, 0), (1, 3) := Sides(1, -1), (0, 3) := Sides(-1, 1)]
  {
    var indices := [0, 1, 2, 0, 1, 3];
    var m1 := Record(map[], (0, 1), 0);
    var m2 := Record(m1, (1, 2), 0);
    assert EdgeMapUpTo(indices, 1) == m1;
    assert EdgeMapUpTo(indices, 2) == m2;
    var m3 := EdgeMapUpTo(indices, 3);
    assert m3 == map[(0, 1) := Sides(0, -1), (1, 2) := Sides(0, -1), (0, 2) := Sides(-1, 0)];
    var m4 := Record(m3, (0, 1), 1);
    var m5 := Record(m4, (1, 3), 1);
    assert EdgeMapUpTo(indices, 4) == m4;
    assert EdgeMapUpTo(indices, 5) == m5;
    assert EdgeMapUpTo(indices, 6) == Record(m5, (3, 0), 1);
  }

  /** A single triangle with the repeated vertex 0 is two-sided: it lies on both sides
      of its edge (0, 1), so that edge is a dual edge from the triangle to itself. */
  lemma DegenerateTwoSided()
    ensures var indices := [0, 1, 0];
      && EdgeMapOf(indices)[(0, 1)] == Sides(0, 0)
      && TwoSided(indices) && !NonDegenerate(indices)
  {
    var indices := [0, 1, 0];
    DegenerateTriangleMap();
    var m := EdgeMapOf(indices);
    assert forall key :: key in m ==> m[key].left == NoTriangle || m[key].left == 0;
  }

  /** The edge map of [0, 1, 0]. */
  lemma DegenerateTriangleMap()
    ensures EdgeMapOf([0, 1, 0]) == map[(0, 1) := Sides(0, 0), (0, 0) := Sides(-1, 0)]
  {
    var indices := [0, 1, 0];
    var m1 := Record(map[], (0, 1), 0);
    assert EdgeMapUpTo(indices, 1) == m1;
    assert EdgeMapUpTo(indices, 2) == Record(m1, (1, 0), 0);
  }

  /** Two triangles on the edge (0, 1), the second with the repeated vertex 0: no edge
      has more than two triangles, yet the mesh is not two-sided, since the second
      triangle writes both sides of (0, 1) and triangle 0 is on neither. */
  lemma DegenerateNotTwoSided()
    ensures var indices := [0, 1, 2, 0, 1, 0];
      && EdgeMapOf(indices)[(0, 1)] == Sides(1, 1)
      && AtMostTwoTriangles(indices) && !TwoSided(indices)
  {
    var indices := [0, 1, 2, 0, 1, 0];
    DegenerateMap();
    TwoTrianglesAtMostTwo(indices);
    assert CornerKey(indices, 0, 0) == (0, 1);
  }

  /** A list of two triangles has at most two triangles on any edge. */
  lemma TwoTrianglesAtMostTwo(indices: seq<int>)
    requires TriangleCount(indices) == 2
    ensures AtMostTwoTriangles(indices)
  {
  }

  /** The edge map of [0, 1, 2, 0, 1, 0]: the first triangle, then the second. */
  lemma DegenerateMap()
    ensures EdgeMapOf([0, 1, 2, 0, 1, 0]) ==
      map[(0, 1) := Sides(1, 1), (1, 2) := Sides(0, -1), (0, 2) := Sides(-1, 0), (0, 0) := Sides(-1, 1)]
  {
    var indices := [0, 1, 2, 0, 1, 0];
    DegenerateFirstTriangle();
    var m3 := EdgeMapUpTo(indices, 3);
    var m4 := Record(m3, (0, 1), 1);
    var m5 := Record(m4, (1, 0), 1);
    assert EdgeMapUpTo(indices, 4) == m4;
    assert EdgeMapUpTo(indices, 5) == m5;
    assert EdgeMapUpTo(indices, 6) == Record(m5, (0, 0), 1);
  }

  lemma DegenerateFirstTriangle()
    ensures EdgeMapUpTo([0, 1, 2, 0, 1, 0], 3) == map[(0, 1) := Sides(0, -1), (1, 2) := Sides(0, -1), (0, 2) := Sides(-1, 0)]
  {
    var indices := [0, 1, 2, 0, 1, 0];
    var m1 := Record(map[], (0, 1), 0);
    assert EdgeMapUpTo(indices, 1) == m1;
    assert EdgeMapUpTo(indices, 2) == Record(m1, (1, 2), 0);
  }

  /** The graph of [0, 1, 2, 0, 1, 0] with its one dual edge (0, 1) selected is not
      symmetric: triangle 0 has triangle 1 across (0, 1), while triangle 1 has only
      itself across that edge. A walk that reaches triangle 1 from triangle 0 finds
      triangle 1 itself, already visited, across the shared edge, where `Visit` asserts
      that a visited neighbour is the far end of the strip (triangle 0). */
  lemma DegenerateGraph()
    ensures var indices := [0, 1, 2, 0, 1, 0];
      var g := Graph(indices, EdgeMapOf(indices), [(0, 1)], map[(0, 1) := 0]);
      ValidGraph(g) && Step(g, [true], 0, 1) && !Step(g, [true], 1, 0) && Step(g, [true], 1, 1)
  {
    var indices := [0, 1, 2, 0, 1, 0];
    DegenerateMap();
    var m := EdgeMapOf(indices);
    var g := Graph(indices, m, [(0, 1)], map[(0, 1) := 0]);
    assert forall key :: key in m && IsDual(m[key]) ==> key == (0, 1);
    assert CornerKey(indices, 0, 0) == (0, 1);
    assert Neighbour(g, [true], 0, 0) == 1;
    assert CornerKey(indices, 1, 0) == (0, 1) && CornerKey(indices, 1, 1) == (0, 1) && CornerKey(indices, 1, 2) == (0, 0);
    assert Neighbour(g, [true], 1, 0) == 1 && Neighbour(g, [true], 1, 1) == 1 && Neighbour(g, [true], 1, 2) == NoTriangle;
  }
}
