/** The strip optimizer of src/OptimalStrips.cpp: it emits the program for a triangle
    list into a solver, reads the selected dual edges off a solution, and walks them
    into triangle strips. */
module Strips {
  import Collections
  import opened Milp
  import opened DualGraph
  import opened Formulation

  /** What `operator()` hands back: the strips, or the exception "Strip contains circles!". */
  datatype Extraction = Extracted(strips: seq<seq<int>>) | CircleError

  /** No triangle occurs twice. */
  predicate NoDup(s: seq<int>)
  {
    forall i, j :: 0 <= i < j < |s| ==> s[i] != s[j]
  }

  predicate InTriangles(g: Graph, s: seq<int>)
  {
    forall i :: 0 <= i < |s| ==> 0 <= s[i] < TriangleCount(g.indices)
  }

  /** Positions `i` and `i + 1` of `s` are across a selected dual edge of each other. */
  predicate LinkedAt(g: Graph, sel: seq<bool>, s: seq<int>, i: int)
    requires 0 <= i < |s| - 1
  {
    Step(g, sel, s[i], s[i + 1]) && Step(g, sel, s[i + 1], s[i])
  }

  /** Consecutive triangles of the strip share a selected dual edge. */
  predicate IsPath(g: Graph, sel: seq<bool>, s: seq<int>)
  {
    forall i :: 0 <= i < |s| - 1 ==> LinkedAt(g, sel, s, i)
  }

  predicate AdjacentAt(s: seq<int>, i: int, a: int, b: int)
    requires 0 <= i < |s| - 1
  {
    (s[i] == a && s[i + 1] == b) || (s[i] == b && s[i + 1] == a)
  }

  /** `a` and `b` stand next to each other in `s`. */
  predicate Adjacent(s: seq<int>, a: int, b: int)
  {
    exists i :: 0 <= i < |s| - 1 && AdjacentAt(s, i, a, b)
  }

  /** Every triangle across a selected dual edge of `u` stands next to `u` in `s`. */
  predicate Exact(g: Graph, sel: seq<bool>, s: seq<int>, u: int)
  {
    && 0 <= u < TriangleCount(g.indices)
    && forall c :: 0 <= c < 3 && Neighbour(g, sel, u, c) != NoTriangle ==> Adjacent(s, u, Neighbour(g, sel, u, c))
  }

  /** `s'` is `s` with triangles added at its front end (`front`) or at its back end. */
  predicate Extends(front: bool, s: seq<int>, s': seq<int>)
  {
    |s| <= |s'| && (if front then s'[|s'| - |s|..] == s else s'[..|s|] == s)
  }

  /** The end of the strip the walk grows: `strip.front()` or `strip.back()`. */
  function End(front: bool, s: seq<int>): int
    requires |s| > 0
  {
    if front then s[0] else s[|s| - 1]
  }

  /** The opposite end, the `side` of the circle check. */
  function OtherEnd(front: bool, s: seq<int>): int
    requires |s| > 0
  {
    if front then s[|s| - 1] else s[0]
  }

  /** `oldEnd`: the triangle next to the growing end, `NoTriangle` for a lone triangle. */
  function OldEnd(front: bool, s: seq<int>): int
    requires |s| > 0
  {
    if |s| == 1 then NoTriangle else if front then s[1] else s[|s| - 2]
  }

  /** `push_front` or `push_back`. */
  function Push(front: bool, s: seq<int>, v: int): (r: seq<int>)
    ensures |r| == |s| + 1 && Extends(front, s, r)
    ensures |s| > 0 ==> End(front, r) == v && OldEnd(front, r) == End(front, s)
  {
    if front then [v] + s else s + [v]
  }

  /** The triangles not yet visited. */
  function Unvisited(visited: seq<bool>): set<int>
  {
    set u | 0 <= u < |visited| && !visited[u]
  }

  /** A set of triangles with no selected dual edge leaving it. */
  ghost predicate Closed(g: Graph, sel: seq<bool>, done: set<int>)
  {
    && (forall u :: u in done ==> 0 <= u < TriangleCount(g.indices))
    && (forall u, v :: u in done && Step(g, sel, u, v) ==> v in done)
  }

  /** What the walks rely on: the graph of the mesh, a two-sided mesh (every triangle
      on a dual edge is one of its two sides, what `EdgeMapOther` and the assertion
      `side == other` of `Visit` need), and a selection with at most two selected dual
      edges per triangle (what the other assertions of `Visit` need). */
  ghost predicate Walkable(g: Graph, sel: seq<bool>)
  {
    ValidGraph(g) && TwoSided(g.indices) && |sel| == |g.edges| && DegreeAtMostTwo(g, sel)
  }

  /** The state in which `Visit(t, front, strip, ...)` is entered: `strip` is a path with
      `t` at its growing end, `done` holds the triangles of finished strips, and a triangle
      other than `t` is marked visited exactly when it is finished or in `strip`. */
  ghost predicate VisitPre(g: Graph, sel: seq<bool>, t: int, front: bool, strip: seq<int>, visited: seq<bool>, done: set<int>)
  {
    Walkable(g, sel) && WalkShape(g, sel, t, front, strip, visited, done)
  }

  /** `VisitPre` without the conditions on the graph and the selection. */
  ghost predicate WalkShape(g: Graph, sel: seq<bool>, t: int, front: bool, strip: seq<int>, visited: seq<bool>, done: set<int>)
  {
    && |visited| == TriangleCount(g.indices)
    && |strip| > 0 && NoDup(strip) && InTriangles(g, strip) && IsPath(g, sel, strip)
    && t == End(front, strip)
    && Closed(g, sel, done)
    && (forall u :: u in strip ==> u !in done)
    && (forall u :: 0 <= u < |visited| && u != t ==> (visited[u] <==> u in done || u in strip))
  }

  /** The state a walk that returns normally leaves: the strip only grew at the `front`
      end, it is still a path without repeats and disjoint from `done`, the visited marks
      are exactly the finished triangles and the strip, and every triangle the walk added
      has all its selected neighbours next to it. */
  ghost predicate VisitPost(g: Graph, sel: seq<bool>, front: bool, strip: seq<int>, strip': seq<int>, visited: seq<bool>, done: set<int>)
  {
    && Extends(front, strip, strip')
    && NoDup(strip') && InTriangles(g, strip') && IsPath(g, sel, strip')
    && (forall u :: u in strip' ==> u !in done)
    && (forall u :: 0 <= u < |visited| ==> (visited[u] <==> u in done || u in strip'))
    && (forall u :: u in strip' && u !in strip ==> Exact(g, sel, strip', u))
  }

  /** A finished strip: a non-empty path without repeats whose every triangle has all
      its selected neighbours next to it. */
  ghost predicate StripOk(g: Graph, sel: seq<bool>, s: seq<int>)
  {
    && |s| > 0 && NoDup(s) && InTriangles(g, s) && IsPath(g, sel, s)
    && (forall u :: u in s ==> Exact(g, sel, s, u))
  }

  /** The strips concatenated. */
  function Flatten(ss: seq<seq<int>>): seq<int>
  {
    if |ss| == 0 then [] else Flatten(ss[..|ss| - 1]) + ss[|ss| - 1]
  }

  /** The smallest triangle of a strip. */
  function Least(s: seq<int>): (m: int)
    requires |s| > 0
    ensures m in s
    ensures forall i :: 0 <= i < |s| ==> m <= s[i]
  {
    if |s| == 1 then s[0]
    else
      var rest := Least(s[1..]);
      if s[0] <= rest then s[0] else rest
  }

  /** The strips extracted so far: no triangle twice, all in range, each strip finished,
      and the least triangle of each strip is the smallest triangle not in an earlier
      strip (the seed it was grown from; which end of the strip comes first is not
      stated). */
  ghost predicate StripsSoFar(g: Graph, sel: seq<bool>, strips: seq<seq<int>>)
  {
    && NoDup(Flatten(strips))
    && (forall u :: u in Flatten(strips) ==> 0 <= u < TriangleCount(g.indices))
    && (forall k :: 0 <= k < |strips| ==> StripOk(g, sel, strips[k]))
    && (forall k :: 0 <= k < |strips| ==> forall u :: 0 <= u < Least(strips[k]) ==> u in Flatten(strips[..k]))
  }

  /** What `ExtractStrips` promises on success: the strips so far, and every triangle of
      the mesh is in one of them (so each lies in exactly one strip, exactly once). */
  ghost predicate StripsCover(g: Graph, sel: seq<bool>, strips: seq<seq<int>>)
  {
    StripsSoFar(g, sel, strips) && forall u :: 0 <= u < TriangleCount(g.indices) ==> u in Flatten(strips)
  }

  // ----- Facts about strips -----

  lemma ExtendsAdjacent(front: bool, s: seq<int>, s': seq<int>, a: int, b: int)
    requires Extends(front, s, s') && Adjacent(s, a, b)
    ensures Adjacent(s', a, b)
  {
    var i :| 0 <= i < |s| - 1 && AdjacentAt(s, i, a, b);
    var off := if front then |s'| - |s| else 0;
    assert s'[off + i] == s[i] && s'[off + i + 1] == s[i + 1];
    assert AdjacentAt(s', off + i, a, b);
  }

  lemma ExtendsExact(g: Graph, sel: seq<bool>, front: bool, s: seq<int>, s': seq<int>, u: int)
    requires Extends(front, s, s') && Exact(g, sel, s, u)
    ensures Exact(g, sel, s', u)
  {
    forall c | 0 <= c < 3 && Neighbour(g, sel, u, c) != NoTriangle
      ensures Adjacent(s', u, Neighbour(g, sel, u, c))
    {
      ExtendsAdjacent(front, s, s', u, Neighbour(g, sel, u, c));
    }
  }

  lemma ExtendsTrans(front: bool, s1: seq<int>, s2: seq<int>, s3: seq<int>)
    requires Extends(front, s1, s2) && Extends(front, s2, s3)
    ensures Extends(front, s1, s3)
  {
    if front {
      assert s3[|s3| - |s1|..] == s3[|s3| - |s2|..][|s2| - |s1|..];
    } else {
      assert s3[..|s1|] == s3[..|s2|][..|s1|];
    }
  }

  lemma ExtendsIn(front: bool, s: seq<int>, s': seq<int>, u: int)
    requires Extends(front, s, s') && u in s
    ensures u in s'
  {
    var i :| 0 <= i < |s| && s[i] == u;
    var off := if front then |s'| - |s| else 0;
    assert s'[off + i] == u;
  }

  /** A triangle whose selected neighbours are all next to it in `s` has them in `s`. */
  lemma ExactStep(g: Graph, sel: seq<bool>, s: seq<int>, u: int, v: int)
    requires Exact(g, sel, s, u) && Step(g, sel, u, v)
    ensures v in s
  {
    var c :| 0 <= c < 3 && Neighbour(g, sel, u, c) == v;
    var i :| 0 <= i < |s| - 1 && AdjacentAt(s, i, u, v);
  }

  /** The triangle next to the growing end is across a selected edge of it. */
  lemma OldEndStep(g: Graph, sel: seq<bool>, front: bool, s: seq<int>)
    requires |s| > 1 && IsPath(g, sel, s)
    ensures Step(g, sel, End(front, s), OldEnd(front, s))
    ensures Adjacent(s, End(front, s), OldEnd(front, s))
  {
    if front {
      assert LinkedAt(g, sel, s, 0) && AdjacentAt(s, 0, s[0], s[1]);
    } else {
      assert LinkedAt(g, sel, s, |s| - 2) && AdjacentAt(s, |s| - 2, s[|s| - 1], s[|s| - 2]);
    }
  }

  /** What the corner loop of `Visit` reads at corner `c`: the key is in the map, its
      id (if any) indexes the selection, the neighbour is the other side when the edge is
      selected and `NoTriangle` otherwise. */
  lemma CornerRead(g: Graph, sel: seq<bool>, t: int, c: int)
    requires ValidGraph(g) && |sel| == |g.edges| && 0 <= t < TriangleCount(g.indices) && 0 <= c < 3
    ensures CornerKey(g.indices, t, c) in g.edgeMap
    ensures CornerKey(g.indices, t, c) in g.ids ==> 0 <= g.ids[CornerKey(g.indices, t, c)] < |sel|
    ensures var key := CornerKey(g.indices, t, c);
      Neighbour(g, sel, t, c) == if key in g.ids && sel[g.ids[key]] then EdgeMapOther(g.edgeMap[key], t) else NoTriangle
    ensures Neighbour(g, sel, t, c) == NoTriangle || 0 <= Neighbour(g, sel, t, c) < TriangleCount(g.indices)
  {
    CornerSides(g.indices, t, c);
    NeighbourSpec(g, sel, t, c);
  }

  /** Marking `t` and then walking from an unvisited `other` shrinks the unvisited set. */
  lemma DecreasesAtPush(v: seq<bool>, t: int, other: int)
    requires 0 <= t < |v| && 0 <= other < |v| && other != t && !v[other]
    ensures Unvisited(v[t := true]) - {other} < Unvisited(v) - {t}
    ensures Unvisited(v[t := true]) - {t} == Unvisited(v) - {t}
  {
    UnvisitedMark(v, t);
    assert other in Unvisited(v[t := true]);
  }

  lemma UnvisitedMark(v: seq<bool>, t: int)
    requires 0 <= t < |v|
    ensures Unvisited(v[t := true]) == Unvisited(v) - {t}
  {
  }

  // ----- Facts about the walk -----

  /** A triangle across a selected edge of itself fills two of its corners with it, so
      one more selected neighbour fills the third. */
  lemma SelfStepTwoCorners(g: Graph, sel: seq<bool>, t: int, c: int)
    requires ValidGraph(g) && 0 <= t < TriangleCount(g.indices) && 0 <= c < 3
    requires Neighbour(g, sel, t, c) == t
    ensures exists c' :: 0 <= c' < 3 && c' != c && Neighbour(g, sel, t, c') == t
    ensures forall d :: 0 <= d < 3 && Neighbour(g, sel, t, d) != NoTriangle && Neighbour(g, sel, t, d) != t ==>
      Degree(g, sel, t) == 3
  {
    var key := CornerKey(g.indices, t, c);
    NeighbourSpec(g, sel, t, c);
    EdgeMapSides(g.indices, key);
    var s := g.edgeMap[key];
    assert s.left == t && s.right == t;
    var c1 :| Writes(g.indices, t, c1, key, true);
    var c2 :| Writes(g.indices, t, c2, key, false);
    assert Neighbour(g, sel, t, c1) == t && Neighbour(g, sel, t, c2) == t;
    assert c1 != c2;
    forall d | 0 <= d < 3 && Neighbour(g, sel, t, d) != NoTriangle && Neighbour(g, sel, t, d) != t
      ensures Degree(g, sel, t) == 3
    {
      FillsCorners(g, sel, t, d, c1, c2);
    }
  }

  /** Three different corners that all lead somewhere are all the corners. */
  lemma FillsCorners(g: Graph, sel: seq<bool>, t: int, a: int, b: int, c: int)
    requires 0 <= t < TriangleCount(g.indices) && 0 <= a < 3 && 0 <= b < 3 && 0 <= c < 3
    requires a != b && b != c && a != c
    requires Neighbour(g, sel, t, a) != NoTriangle && Neighbour(g, sel, t, b) != NoTriangle
    requires Neighbour(g, sel, t, c) != NoTriangle
    ensures Degree(g, sel, t) == 3
  {
  }

  /** With at most two selected corners, once corners lead to `a` and (at `i`) to
      `b != a`, every other corner of `t` is unselected or leads to `a`. */
  lemma OnlyTwoCorners(g: Graph, sel: seq<bool>, t: int, i: int, a: int, b: int)
    requires 0 <= t < TriangleCount(g.indices) && 0 <= i < 3 && DegreeAtMostTwo(g, sel)
    requires Step(g, sel, t, a)
    requires Neighbour(g, sel, t, i) == b && b != a && b != NoTriangle
    ensures forall c :: 0 <= c < 3 && c != i ==> Neighbour(g, sel, t, c) == NoTriangle || Neighbour(g, sel, t, c) == a
  {
    assert Degree(g, sel, t) <= 2;
  }

  /** Pushing a not yet visited neighbour `other` of the end `t` gives a state in which
      `Visit(other, ...)` may be entered. */
  lemma PushReady(g: Graph, sel: seq<bool>, t: int, front: bool, strip: seq<int>, entry: seq<bool>, done: set<int>, c: int)
    requires VisitPre(g, sel, t, front, strip, entry, done)
    requires 0 <= c < 3 && 0 <= t < TriangleCount(g.indices)
    requires var other := Neighbour(g, sel, t, c);
      0 <= other < |entry| && other != t && !entry[other]
    ensures var other := Neighbour(g, sel, t, c);
      VisitPre(g, sel, other, front, Push(front, strip, other), entry[t := true], done)
  {
    var other := Neighbour(g, sel, t, c);
    assert Step(g, sel, t, other);
    StepSymmetric(g, sel, t, other);
    PushShape(g, sel, t, front, strip, entry, done, other);
  }

  /** `PushReady` apart from the graph: a new neighbour linked both ways to the end. */
  lemma PushShape(g: Graph, sel: seq<bool>, t: int, front: bool, strip: seq<int>, entry: seq<bool>, done: set<int>, other: int)
    requires WalkShape(g, sel, t, front, strip, entry, done)
    requires 0 <= other < |entry| && other != t && !entry[other]
    requires Step(g, sel, t, other) && Step(g, sel, other, t)
    ensures WalkShape(g, sel, other, front, Push(front, strip, other), entry[t := true], done)
  {
    var s := Push(front, strip, other);
    assert other !in strip && other !in done;
    PushPath(g, sel, front, strip, other);
    MarksAfterPush(entry, t, other, done, strip, s);
    assert InTriangles(g, s);
  }

  /** Marking the end `t` visited and pushing `other` keeps the marks exactly the
      finished triangles and the strip, `other` aside. */
  lemma MarksAfterPush(entry: seq<bool>, t: int, other: int, done: set<int>, strip: seq<int>, s: seq<int>)
    requires 0 <= t < |entry| && t in strip && other != t
    requires forall u :: u in s <==> u in strip || u == other
    requires forall u :: 0 <= u < |entry| && u != t ==> (entry[u] <==> u in done || u in strip)
    ensures forall u :: 0 <= u < |entry[t := true]| && u != other ==> (entry[t := true][u] <==> u in done || u in s)
  {
  }

  /** Pushing a new triangle linked to the end keeps the strip a path without repeats. */
  lemma PushPath(g: Graph, sel: seq<bool>, front: bool, strip: seq<int>, other: int)
    requires |strip| > 0 && NoDup(strip) && IsPath(g, sel, strip) && other !in strip
    requires Step(g, sel, End(front, strip), other) && Step(g, sel, other, End(front, strip))
    ensures NoDup(Push(front, strip, other)) && IsPath(g, sel, Push(front, strip, other))
  {
    var s := Push(front, strip, other);
    var n := |strip|;
    if front {
      forall i | 0 <= i < |s| - 1
        ensures LinkedAt(g, sel, s, i)
      {
        if i > 0 {
          assert LinkedAt(g, sel, strip, i - 1);
        }
      }
      forall i, j | 0 <= i < j < |s|
        ensures s[i] != s[j]
      {
        if i > 0 {
          assert s[i] == strip[i - 1];
        }
        assert s[j] == strip[j - 1];
      }
    } else {
      forall i | 0 <= i < |s| - 1
        ensures LinkedAt(g, sel, s, i)
      {
        if i < n - 1 {
          assert LinkedAt(g, sel, strip, i);
        }
      }
      forall i, j | 0 <= i < j < |s|
        ensures s[i] != s[j]
      {
        assert s[i] == strip[i];
        if j < n {
          assert s[j] == strip[j];
        }
      }
    }
  }

  /** After the walk from a pushed neighbour `other` returns, the walk from `t` has
      extended `strip`, and `t` and `other` are next to each other. */
  lemma AfterPush(g: Graph, sel: seq<bool>, t: int, front: bool, strip: seq<int>, other: int, result: seq<int>, visited: seq<bool>, done: set<int>)
    requires |strip| > 0 && t == End(front, strip)
    requires VisitPost(g, sel, front, Push(front, strip, other), result, visited, done)
    requires Exact(g, sel, result, other)
    ensures VisitPost(g, sel, front, strip, result, visited, done)
    ensures Adjacent(result, t, other)
  {
    var pushed := Push(front, strip, other);
    ExtendsTrans(front, strip, pushed, result);
    if front {
      assert AdjacentAt(pushed, 0, t, other);
    } else {
      assert AdjacentAt(pushed, |pushed| - 2, t, other);
    }
    ExtendsAdjacent(front, pushed, result, t, other);
    forall u | u in result && u !in strip
      ensures Exact(g, sel, result, u)
    {
      if u != other {
        assert u !in pushed;
      }
    }
  }

  /** The circle check: a selected neighbour of the end `t` that is neither `oldEnd` nor
      unvisited must be the far end of the strip, and then the selection closes a loop. */
  lemma CircleFound(g: Graph, sel: seq<bool>, t: int, front: bool, strip: seq<int>, entry: seq<bool>, done: set<int>, c: int)
    requires VisitPre(g, sel, t, front, strip, entry, done)
    requires 0 <= c < 3 && 0 <= t < TriangleCount(g.indices)
    requires var other := Neighbour(g, sel, t, c);
      && other != NoTriangle && other != OldEnd(front, strip)
      && 0 <= other < |entry| && (other == t || entry[other])
    ensures Neighbour(g, sel, t, c) == OtherEnd(front, strip)
    ensures HasLoop(g, sel)
  {
    var other := Neighbour(g, sel, t, c);
    var n := |strip|;
    assert Step(g, sel, t, other);
    if other == t {
      if n > 1 {
        OldEndStep(g, sel, front, strip);
        var oldEnd := OldEnd(front, strip);
        assert oldEnd != t by {
          if front { assert strip[0] != strip[1]; } else { assert strip[n - 2] != strip[n - 1]; }
        }
        SelfStepTwoCorners(g, sel, t, c);
        assert false;
      }
    } else {
      StepSymmetric(g, sel, t, other);
      if other in done {
        assert false;
      }
      assert other in strip;
      var p :| 0 <= p < n && strip[p] == other;
      if !front {
        assert p != n - 1 && p != n - 2;
        if p > 0 {
          assert LinkedAt(g, sel, strip, p - 1) && LinkedAt(g, sel, strip, p);
          ThreeNeighbours(g, sel, other, strip[p - 1], strip[p + 1], t);
          assert false;
        }
      } else {
        assert p != 0 && p != 1;
        if p < n - 1 {
          assert LinkedAt(g, sel, strip, p - 1) && LinkedAt(g, sel, strip, p);
          ThreeNeighbours(g, sel, other, strip[p - 1], strip[p + 1], t);
          assert false;
        }
      }
      assert other == OtherEnd(front, strip);
      forall i | 0 <= i < n
        ensures Step(g, sel, strip[i], Next(strip, i))
      {
        if i < n - 1 {
          assert LinkedAt(g, sel, strip, i);
        }
      }
      assert SelectedCycle(g, sel, strip);
    }
  }

  /** When the walk ends, every selected neighbour of `t` is one it stands next to. */
  lemma EndExact(g: Graph, sel: seq<bool>, s: seq<int>, t: int, a: int, b: int)
    requires 0 <= t < TriangleCount(g.indices)
    requires forall c :: 0 <= c < 3 ==> Neighbour(g, sel, t, c) in {NoTriangle, a, b}
    requires a == NoTriangle || Adjacent(s, t, a)
    requires b == NoTriangle || Adjacent(s, t, b)
    ensures Exact(g, sel, s, t)
  {
  }

  /** The state of the corner loop of `Visit` before corner `i`. Before any recursive
      walk (`nVisited == 0`) nothing has changed since `t` was marked and every corner
      so far was unselected or led back to `oldEnd`. After it (`nVisited == 1`) the strip
      holds the neighbour `q` next to `t`, and the remaining corners lead nowhere new. */
  ghost predicate WalkState(g: Graph, sel: seq<bool>, t: int, front: bool, strip: seq<int>, marked: seq<bool>,
                            done: set<int>, oldEnd: int, i: int, nVisited: int, q: int, result: seq<int>, visited: seq<bool>)
  {
    && 0 <= i <= 3 && 0 <= t < TriangleCount(g.indices)
    && (nVisited == 0 || nVisited == 1)
    && (nVisited == 0 ==> result == strip && visited == marked)
    && (nVisited == 0 ==> forall c :: 0 <= c < i ==> Neighbour(g, sel, t, c) in {NoTriangle, oldEnd})
    && (nVisited == 1 ==> oldEnd != NoTriangle && Adjacent(result, t, q))
    && (nVisited == 1 ==> forall c :: 0 <= c < 3 ==> Neighbour(g, sel, t, c) in {NoTriangle, oldEnd, q})
    && (nVisited == 1 ==> forall c :: i <= c < 3 ==> Neighbour(g, sel, t, c) in {NoTriangle, oldEnd})
    && VisitPost(g, sel, front, strip, result, visited, done)
  }

  /** Marking `t` visited starts the walk over its corners. */
  lemma WalkStart(g: Graph, sel: seq<bool>, t: int, front: bool, strip: seq<int>, entry: seq<bool>, done: set<int>)
    requires VisitPre(g, sel, t, front, strip, entry, done)
    ensures 0 <= t < |entry|
    ensures WalkState(g, sel, t, front, strip, entry[t := true], done, OldEnd(front, strip), 0, 0, NoTriangle, strip, entry[t := true])
  {
    assert t in strip by {
      if front { assert strip[0] == t; } else { assert strip[|strip| - 1] == t; }
    }
  }

  /** A corner that is unselected or leads back to `oldEnd` changes nothing. */
  lemma WalkSkip(g: Graph, sel: seq<bool>, t: int, front: bool, strip: seq<int>, marked: seq<bool>,
                 done: set<int>, oldEnd: int, i: int, nVisited: int, q: int, result: seq<int>, visited: seq<bool>)
    requires WalkState(g, sel, t, front, strip, marked, done, oldEnd, i, nVisited, q, result, visited) && i < 3
    requires Neighbour(g, sel, t, i) in {NoTriangle, oldEnd}
    ensures WalkState(g, sel, t, front, strip, marked, done, oldEnd, i + 1, nVisited, q, result, visited)
  {
  }

  /** A walk can only start at a corner that leads somewhere new before any other walk
      from `t` has run. */
  lemma WalkFirst(g: Graph, sel: seq<bool>, t: int, front: bool, strip: seq<int>, marked: seq<bool>,
                  done: set<int>, oldEnd: int, i: int, nVisited: int, q: int, result: seq<int>, visited: seq<bool>)
    requires WalkState(g, sel, t, front, strip, marked, done, oldEnd, i, nVisited, q, result, visited) && i < 3
    requires Neighbour(g, sel, t, i) !in {NoTriangle, oldEnd}
    ensures nVisited == 0 && result == strip && visited == marked
  {
  }

  /** After the walk from the neighbour `other` at corner `i` returns normally, the
      loop goes on with `q == other` and `nVisited == 1`. */
  lemma WalkAfterVisit(g: Graph, sel: seq<bool>, t: int, front: bool, strip: seq<int>, entry: seq<bool>,
                       done: set<int>, i: int, result: seq<int>, visited: seq<bool>)
    requires VisitPre(g, sel, t, front, strip, entry, done)
    requires 0 <= t < TriangleCount(g.indices) && 0 <= i < 3
    requires var oldEnd := OldEnd(front, strip);
      && oldEnd != NoTriangle
      && WalkState(g, sel, t, front, strip, entry[t := true], done, oldEnd, i, 0, NoTriangle, strip, entry[t := true])
    requires var other := Neighbour(g, sel, t, i);
      && other != NoTriangle && other != OldEnd(front, strip)
      && VisitPost(g, sel, front, Push(front, strip, other), result, visited, done)
      && Exact(g, sel, result, other)
    ensures WalkState(g, sel, t, front, strip, entry[t := true], done, OldEnd(front, strip), i + 1, 1,
                      Neighbour(g, sel, t, i), result, visited)
  {
    var other := Neighbour(g, sel, t, i);
    var oldEnd := OldEnd(front, strip);
    AfterPush(g, sel, t, front, strip, other, result, visited, done);
    OldEndStep(g, sel, front, strip);
    OnlyTwoCorners(g, sel, t, i, oldEnd, other);
  }

  /** When the corner loop is over, `t` has all its selected neighbours next to it,
      unless `t` was a lone triangle that the walk left behind. */
  lemma WalkEnd(g: Graph, sel: seq<bool>, t: int, front: bool, strip: seq<int>, marked: seq<bool>,
                done: set<int>, nVisited: int, q: int, result: seq<int>, visited: seq<bool>)
    requires |strip| > 0 && IsPath(g, sel, strip) && t == End(front, strip)
    requires WalkState(g, sel, t, front, strip, marked, done, OldEnd(front, strip), 3, nVisited, q, result, visited)
    ensures |strip| > 1 || |result| == 1 ==> Exact(g, sel, result, t)
  {
    var oldEnd := OldEnd(front, strip);
    if |strip| > 1 {
      OldEndStep(g, sel, front, strip);
      ExtendsAdjacent(front, strip, result, t, oldEnd);
    }
    if nVisited == 0 {
      EndExact(g, sel, result, t, oldEnd, NoTriangle);
    } else {
      EndExact(g, sel, result, t, oldEnd, q);
    }
  }

  // ----- Facts about the list of strips -----

  /** The triangles of a sequence, as a set. */
  function Members(s: seq<int>): (m: set<int>)
    ensures forall u :: u in m <==> u in s
  {
    set u | u in s
  }

  /** The position of `u` in `s`. */
  function IndexOf(s: seq<int>, u: int): (i: int)
    requires u in s
    ensures 0 <= i < |s| && s[i] == u
  {
    if s[0] == u then 0 else 1 + IndexOf(s[1..], u)
  }

  lemma FlattenAppend(ss: seq<seq<int>>, s: seq<int>)
    ensures Flatten(ss + [s]) == Flatten(ss) + s
  {
    assert (ss + [s])[..|ss|] == ss;
  }

  /** A triangle of the flattened strips lies in one of the strips. */
  lemma {:induction false} FlattenIndex(ss: seq<seq<int>>, u: int) returns (k: int)
    requires u in Flatten(ss)
    ensures 0 <= k < |ss| && u in ss[k]
  {
    var init := ss[..|ss| - 1];
    if u in ss[|ss| - 1] {
      k := |ss| - 1;
    } else {
      k := FlattenIndex(init, u);
      assert ss[k] == init[k];
    }
  }

  lemma NoDupConcat(a: seq<int>, b: seq<int>)
    requires NoDup(a) && NoDup(b) && forall u :: u in b ==> u !in a
    ensures NoDup(a + b)
  {
    forall i, j | 0 <= i < j < |a + b|
      ensures (a + b)[i] != (a + b)[j]
    {
      if i < |a| && j >= |a| {
        assert (a + b)[j] in b;
      }
    }
  }

  /** With `u` at position `p`, a triangle next to `u` stands at `p - 1` or `p + 1`. */
  lemma AdjacentPosition(s: seq<int>, a: int, b: int, p: int)
    requires NoDup(s) && Adjacent(s, a, b) && 0 <= p < |s| && s[p] == a
    ensures (p + 1 < |s| && s[p + 1] == b) || (p > 0 && s[p - 1] == b)
  {
    var i :| 0 <= i < |s| - 1 && AdjacentAt(s, i, a, b);
  }

  /** A triangle next to `s[p]` that stands no later than `p` stands just before it. */
  lemma AdjacentBelow(s: seq<int>, a: int, b: int, p: int)
    requires NoDup(s) && Adjacent(s, a, b) && 0 <= p < |s| && s[p] == a
    requires b in s && IndexOf(s, b) <= p
    ensures p > 0 && s[p - 1] == b
  {
    AdjacentPosition(s, a, b, p);
    var q := IndexOf(s, b);
    assert p + 1 < |s| && s[p + 1] == b ==> q == p + 1;
  }

  lemma AdjacentSymmetric(s: seq<int>, a: int, b: int)
    requires Adjacent(s, a, b)
    ensures Adjacent(s, b, a)
  {
    var i :| 0 <= i < |s| - 1 && AdjacentAt(s, i, a, b);
    assert AdjacentAt(s, i, b, a);
  }

  /** A finished triangle stands next to every triangle across a selected edge of it. */
  lemma ExactAdjacent(g: Graph, sel: seq<bool>, s: seq<int>, u: int, v: int)
    requires Exact(g, sel, s, u) && Step(g, sel, u, v)
    ensures Adjacent(s, u, v)
  {
    var c :| 0 <= c < 3 && Neighbour(g, sel, u, c) == v;
  }

  /** A cycle that enters a finished strip stays in it. */
  lemma {:induction false} CycleInStrip(g: Graph, sel: seq<bool>, s: seq<int>, cyc: seq<int>, n: int)
    requires StripOk(g, sel, s) && SelectedCycle(g, sel, cyc) && cyc[0] in s
    requires 0 <= n < |cyc|
    ensures forall j :: 0 <= j <= n ==> cyc[j] in s
  {
    if n > 0 {
      CycleInStrip(g, sel, s, cyc, n - 1);
      assert Step(g, sel, cyc[n - 1], Next(cyc, n - 1));
      StripStep(g, sel, s, cyc[n - 1], cyc[n]);
    }
  }

  /** A selected dual edge leaving a triangle of a finished strip stays in the strip. */
  lemma StripStep(g: Graph, sel: seq<bool>, s: seq<int>, u: int, v: int)
    requires StripOk(g, sel, s) && u in s && Step(g, sel, u, v)
    ensures v in s
  {
    ExactStep(g, sel, s, u, v);
  }

  /** The element of `cyc` that stands last in `s`. */
  lemma LastInStrip(s: seq<int>, cyc: seq<int>) returns (j: int)
    requires |cyc| > 0 && forall m :: 0 <= m < |cyc| ==> cyc[m] in s
    ensures 0 <= j < |cyc|
    ensures forall m :: 0 <= m < |cyc| ==> IndexOf(s, cyc[m]) <= IndexOf(s, cyc[j])
  {
    j := 0;
    var k := 1;
    while k < |cyc|
      invariant 1 <= k <= |cyc| && 0 <= j < k
      invariant forall m :: 0 <= m < k ==> IndexOf(s, cyc[m]) <= IndexOf(s, cyc[j])
    {
      if IndexOf(s, cyc[k]) > IndexOf(s, cyc[j]) {
        j := k;
      }
      k := k + 1;
    }
  }

  /** No cycle of selected dual edges passes through a finished strip: its element that
      stands last would need both of its cycle neighbours just before it. */
  lemma StripHasNoCycle(g: Graph, sel: seq<bool>, s: seq<int>, cyc: seq<int>)
    requires StripOk(g, sel, s) && |cyc| > 0 && cyc[0] in s
    ensures !SelectedCycle(g, sel, cyc)
  {
    if SelectedCycle(g, sel, cyc) {
      CycleInStrip(g, sel, s, cyc, |cyc| - 1);
      var j := LastInStrip(s, cyc);
      var p := IndexOf(s, cyc[j]);
      var nx := NextIndex(|cyc|, j);
      var pv := if j == 0 then |cyc| - 1 else j - 1;
      assert NextIndex(|cyc|, pv) == j;
      assert Step(g, sel, cyc[j], Next(cyc, j));
      assert Step(g, sel, cyc[pv], Next(cyc, pv));
      ExactAdjacent(g, sel, s, cyc[j], cyc[nx]);
      ExactAdjacent(g, sel, s, cyc[pv], cyc[j]);
      AdjacentSymmetric(s, cyc[pv], cyc[j]);
      AdjacentBelow(s, cyc[j], cyc[nx], p);
      AdjacentBelow(s, cyc[j], cyc[pv], p);
      assert false;
    }
  }

  /** No triangle of a finished strip is across a selected edge of itself. */
  lemma StripHasNoSelfStep(g: Graph, sel: seq<bool>, s: seq<int>, t: int)
    requires StripOk(g, sel, s) && t in s
    ensures !Step(g, sel, t, t)
  {
    if Step(g, sel, t, t) {
      ExactAdjacent(g, sel, s, t, t);
      assert false;
    }
  }

  /** Strips that cover the mesh leave no loop in the selection: this is why extraction
      only fails on a selection that closes one. */
  lemma CoverNoLoop(g: Graph, sel: seq<bool>, strips: seq<seq<int>>)
    requires StripsCover(g, sel, strips)
    ensures !HasLoop(g, sel)
  {
    forall t | Step(g, sel, t, t)
      ensures false
    {
      var k := FlattenIndex(strips, t);
      StripHasNoSelfStep(g, sel, strips[k], t);
    }
    forall cyc | SelectedCycle(g, sel, cyc)
      ensures false
    {
      assert Step(g, sel, cyc[0], Next(cyc, 0));
      var k := FlattenIndex(strips, cyc[0]);
      StripHasNoCycle(g, sel, strips[k], cyc);
    }
  }

  /** The set of finished strips is closed under selected dual edges. */
  lemma StripsClosed(g: Graph, sel: seq<bool>, strips: seq<seq<int>>)
    requires StripsSoFar(g, sel, strips)
    ensures Closed(g, sel, Members(Flatten(strips)))
  {
    forall u, v | u in Members(Flatten(strips)) && Step(g, sel, u, v)
      ensures v in Members(Flatten(strips))
    {
      var k := FlattenIndex(strips, u);
      ExactStep(g, sel, strips[k], u, v);
      FlattenHas(strips, k, v);
    }
  }

  lemma {:induction false} FlattenHas(ss: seq<seq<int>>, k: int, u: int)
    requires 0 <= k < |ss| && u in ss[k]
    ensures u in Flatten(ss)
  {
    var init := ss[..|ss| - 1];
    if k < |ss| - 1 {
      assert init[k] == ss[k];
      FlattenHas(init, k, u);
    }
  }

  /** The state of the loop of `ExtractStrips` before triangle `f`: the strips so far,
      the visited marks are exactly their triangles, and every triangle below `f` is
      visited. */
  ghost predicate ExtractState(g: Graph, sel: seq<bool>, f: int, strips: seq<seq<int>>, visited: seq<bool>)
  {
    && Walkable(g, sel)
    && 0 <= f <= TriangleCount(g.indices) && |visited| == TriangleCount(g.indices)
    && StripsSoFar(g, sel, strips)
    && (forall u :: 0 <= u < |visited| ==> (visited[u] <==> u in Flatten(strips)))
    && (forall u :: 0 <= u < f ==> visited[u])
  }

  lemma ExtractStart(g: Graph, sel: seq<bool>, visited: seq<bool>)
    requires Walkable(g, sel) && |visited| == TriangleCount(g.indices)
    requires forall u :: 0 <= u < |visited| ==> !visited[u]
    ensures ExtractState(g, sel, 0, [], visited)
  {
  }

  lemma ExtractSkip(g: Graph, sel: seq<bool>, f: int, strips: seq<seq<int>>, visited: seq<bool>)
    requires ExtractState(g, sel, f, strips, visited) && f < |visited| && visited[f]
    ensures ExtractState(g, sel, f + 1, strips, visited)
  {
  }

  /** An unvisited `f` starts a strip `[f]` that the backward walk can take. */
  lemma ExtractReady(g: Graph, sel: seq<bool>, f: int, strips: seq<seq<int>>, visited: seq<bool>)
    requires ExtractState(g, sel, f, strips, visited) && f < |visited| && !visited[f]
    ensures VisitPre(g, sel, f, false, [f], visited, Members(Flatten(strips)))
  {
    StripsClosed(g, sel, strips);
  }

  /** After the backward walk, the forward walk from `f` can start. */
  lemma ExtractMiddle(g: Graph, sel: seq<bool>, f: int, strips: seq<seq<int>>, visited: seq<bool>,
                      back: seq<int>, visited': seq<bool>)
    requires ExtractState(g, sel, f, strips, visited) && f < |visited| && !visited[f]
    requires VisitPost(g, sel, false, [f], back, visited', Members(Flatten(strips)))
    requires |visited'| == |visited|
    ensures VisitPre(g, sel, f, true, back, visited', Members(Flatten(strips)))
  {
    StripsClosed(g, sel, strips);
    assert back[..1] == [f];
  }

  /** The strip the two walks from `f` leave is finished and contains `f`. */
  lemma StripFinished(g: Graph, sel: seq<bool>, f: int, back: seq<int>, s: seq<int>, visited: seq<bool>,
                      visited': seq<bool>, done: set<int>)
    requires VisitPost(g, sel, false, [f], back, visited, done)
    requires |back| == 1 ==> Exact(g, sel, back, f)
    requires VisitPost(g, sel, true, back, s, visited', done)
    requires |back| > 1 ==> Exact(g, sel, s, f)
    ensures StripOk(g, sel, s) && f in s
  {
    assert back[..1] == [f];
    assert back[0] == f;
    ExtendsIn(true, back, s, f);
    if |back| == 1 {
      ExtendsExact(g, sel, true, back, s, f);
    }
    forall u | u in s
      ensures Exact(g, sel, s, u)
    {
      if u in back && u != f {
        ExtendsExact(g, sel, true, back, s, u);
      }
    }
  }

  /** Appending the finished strip of `f` gives the state before `f + 1`. */
  lemma ExtractAppend(g: Graph, sel: seq<bool>, f: int, strips: seq<seq<int>>, visited: seq<bool>,
                      s: seq<int>, visited': seq<bool>)
    requires ExtractState(g, sel, f, strips, visited) && f < |visited| && !visited[f]
    requires StripOk(g, sel, s) && f in s && |visited'| == |visited|
    requires forall u :: u in s ==> u !in Flatten(strips)
    requires forall u :: 0 <= u < |visited'| ==> (visited'[u] <==> u in Flatten(strips) || u in s)
    ensures ExtractState(g, sel, f + 1, strips + [s], visited')
  {
    StripsAppend(g, sel, strips, s, f);
    VisitedAppend(Flatten(strips), s, Flatten(strips + [s]), f, visited, visited');
  }

  /** The marks after a strip `s` is appended are the triangles of the longer list, and
      they include every triangle up to its seed `f`. */
  lemma VisitedAppend(before: seq<int>, s: seq<int>, after: seq<int>, f: int, visited: seq<bool>, visited': seq<bool>)
    requires after == before + s && f in s && 0 <= f < |visited| && |visited'| == |visited|
    requires forall u :: 0 <= u < |visited| ==> (visited[u] <==> u in before)
    requires forall u :: 0 <= u < f ==> visited[u]
    requires forall u :: 0 <= u < |visited'| ==> (visited'[u] <==> u in before || u in s)
    ensures forall u :: 0 <= u < |visited'| ==> (visited'[u] <==> u in after)
    ensures forall u :: 0 <= u < f + 1 ==> visited'[u]
  {
  }

  /** A finished strip disjoint from the strips so far, containing `f` and started after
      every triangle below `f` was taken, extends the strips so far. */
  lemma StripsAppend(g: Graph, sel: seq<bool>, strips: seq<seq<int>>, s: seq<int>, f: int)
    requires StripsSoFar(g, sel, strips) && StripOk(g, sel, s) && f in s
    requires forall u :: u in s ==> u !in Flatten(strips)
    requires forall u :: 0 <= u < f ==> u in Flatten(strips)
    ensures Flatten(strips + [s]) == Flatten(strips) + s
    ensures StripsSoFar(g, sel, strips + [s])
  {
    FlattenAppend(strips, s);
    NoDupConcat(Flatten(strips), s);
    SeedsAppend(g, sel, strips, s, f);
  }

  /** The seed condition of `StripsSoFar` survives appending a strip that contains `f`
      and no triangle of the earlier strips. */
  lemma SeedsAppend(g: Graph, sel: seq<bool>, strips: seq<seq<int>>, s: seq<int>, f: int)
    requires StripsSoFar(g, sel, strips) && StripOk(g, sel, s) && f in s
    requires forall u :: 0 <= u < f ==> u in Flatten(strips)
    ensures forall k :: 0 <= k < |strips + [s]| ==> StripOk(g, sel, (strips + [s])[k])
    ensures forall k :: 0 <= k < |strips + [s]| ==>
      forall u :: 0 <= u < Least((strips + [s])[k]) ==> u in Flatten((strips + [s])[..k])
  {
    var strips' := strips + [s];
    forall k | 0 <= k < |strips|
      ensures strips'[..k] == strips[..k]
    {
    }
    assert strips'[..|strips|] == strips;
    var i := IndexOf(s, f);
  }

  /** After the last triangle the strips cover the mesh. */
  lemma ExtractEnd(g: Graph, sel: seq<bool>, strips: seq<seq<int>>, visited: seq<bool>)
    requires ExtractState(g, sel, |visited|, strips, visited)
    ensures StripsCover(g, sel, strips)
  {
  }

  // ----- Counting strips -----

  /** The ids of the selected dual edges. */
  function SelectedIds(sel: seq<bool>): (ids: set<int>)
    ensures forall i :: i in ids <==> 0 <= i < |sel| && sel[i]
  {
    set i | 0 <= i < |sel| && sel[i]
  }

  /** The id of the dual edge that links positions `j` and `j + 1` of a strip: the id of
      the key of the corner of `s[j]` that leads to `s[j + 1]`, or -1 if it has none. */
  function LinkId(g: Graph, sel: seq<bool>, s: seq<int>, j: int): int
    requires 0 <= j < |s| - 1 && 0 <= s[j] < TriangleCount(g.indices)
  {
    var key := CornerKey(g.indices, s[j], OutCorner(g, sel, s[j], s[j + 1]));
    if key in g.ids then g.ids[key] else -1
  }

  /** The two triangles of dual edge `id`. */
  function EdgeEnds(g: Graph, id: int): set<int>
    requires 0 <= id < |g.edges| && g.edges[id] in g.edgeMap
  {
    {g.edgeMap[g.edges[id]].left, g.edgeMap[g.edges[id]].right}
  }

  /** The link between positions `j` and `j + 1` of a path is a selected dual edge
      whose two triangles are the two at those positions. */
  lemma LinkEnds(g: Graph, sel: seq<bool>, s: seq<int>, j: int)
    requires ValidGraph(g) && TwoSided(g.indices) && |sel| == |g.edges|
    requires NoDup(s) && InTriangles(g, s) && IsPath(g, sel, s) && 0 <= j < |s| - 1
    ensures var id := LinkId(g, sel, s, j);
      0 <= id < |sel| && sel[id] && g.edges[id] in g.edgeMap && EdgeEnds(g, id) == {s[j], s[j + 1]}
  {
    assert LinkedAt(g, sel, s, j);
    BackCorner(g, sel, s[j], s[j + 1]);
  }

  /** Two different links of a path are different dual edges. */
  lemma LinksDiffer(g: Graph, sel: seq<bool>, s: seq<int>, i: int, j: int)
    requires ValidGraph(g) && TwoSided(g.indices) && |sel| == |g.edges|
    requires NoDup(s) && InTriangles(g, s) && IsPath(g, sel, s) && 0 <= i < j < |s| - 1
    ensures LinkId(g, sel, s, i) != LinkId(g, sel, s, j)
  {
    LinkEnds(g, sel, s, i);
    LinkEnds(g, sel, s, j);
    assert s[i] !in {s[j], s[j + 1]};
  }

  /** The ids of the links of a strip, in order. */
  function Links(g: Graph, sel: seq<bool>, s: seq<int>): (r: seq<int>)
    requires |s| > 0 && InTriangles(g, s)
    ensures |r| == |s| - 1 && forall j :: 0 <= j < |r| ==> r[j] == LinkId(g, sel, s, j)
  {
    seq(|s| - 1, j requires 0 <= j < |s| - 1 => LinkId(g, sel, s, j))
  }

  /** What counting needs of a strip: its links are different selected dual edges, each
      with both triangles in the strip. */
  ghost predicate LinksOk(g: Graph, sel: seq<bool>, s: seq<int>)
  {
    && |s| > 0 && InTriangles(g, s) && NoDup(Links(g, sel, s))
    && (forall id :: id in Links(g, sel, s) ==>
          0 <= id < |sel| && sel[id] && id < |g.edges| && g.edges[id] in g.edgeMap && EdgeEnds(g, id) <= Members(s))
  }

  /** A finished strip has the links counting needs. */
  lemma StripLinks(g: Graph, sel: seq<bool>, s: seq<int>)
    requires ValidGraph(g) && TwoSided(g.indices) && |sel| == |g.edges|
    requires StripOk(g, sel, s)
    ensures LinksOk(g, sel, s)
  {
    var r := Links(g, sel, s);
    forall i, j | 0 <= i < j < |r|
      ensures r[i] != r[j]
    {
      LinksDiffer(g, sel, s, i, j);
    }
    forall id | id in r
      ensures 0 <= id < |sel| && sel[id] && id < |g.edges| && g.edges[id] in g.edgeMap && EdgeEnds(g, id) <= Members(s)
    {
      var j :| 0 <= j < |r| && r[j] == id;
      LinkEnds(g, sel, s, j);
    }
  }

  /** The ids of the links of all strips, strip after strip. */
  ghost function AllLinks(g: Graph, sel: seq<bool>, ss: seq<seq<int>>): seq<int>
    requires forall k :: 0 <= k < |ss| ==> LinksOk(g, sel, ss[k])
  {
    if |ss| == 0 then []
    else
      assert forall k :: 0 <= k < |ss| - 1 ==> ss[..|ss| - 1][k] == ss[k];
      assert LinksOk(g, sel, ss[|ss| - 1]);
      AllLinks(g, sel, ss[..|ss| - 1]) + Links(g, sel, ss[|ss| - 1])
  }

  /** Strips without a common triangle have `|Flatten(ss)| - |ss|` links between them,
      all different selected dual edges with both triangles in the strips; every link of
      every strip is among them. */
  lemma {:induction false} AllLinksSpec(g: Graph, sel: seq<bool>, ss: seq<seq<int>>)
    requires NoDup(Flatten(ss)) && forall k :: 0 <= k < |ss| ==> LinksOk(g, sel, ss[k])
    ensures |AllLinks(g, sel, ss)| == |Flatten(ss)| - |ss|
    ensures NoDup(AllLinks(g, sel, ss))
    ensures forall id :: id in AllLinks(g, sel, ss) ==>
      0 <= id < |sel| && sel[id] && id < |g.edges| && g.edges[id] in g.edgeMap && EdgeEnds(g, id) <= Members(Flatten(ss))
    ensures forall k, j :: 0 <= k < |ss| && 0 <= j < |ss[k]| - 1 ==> LinkId(g, sel, ss[k], j) in AllLinks(g, sel, ss)
  {
    if |ss| > 0 {
      var init, last := ss[..|ss| - 1], ss[|ss| - 1];
      assert forall k :: 0 <= k < |init| ==> init[k] == ss[k];
      assert Flatten(ss) == Flatten(init) + last;
      NoDupSplit(Flatten(init), last);
      AllLinksSpec(g, sel, init);
      var a, b := AllLinks(g, sel, init), Links(g, sel, last);
      assert LinksOk(g, sel, last);
      forall id | id in b
        ensures id !in a
      {
        var l := g.edgeMap[g.edges[id]].left;
        assert l in EdgeEnds(g, id);
      }
      NoDupConcat(a, b);
      forall k, j | 0 <= k < |ss| && 0 <= j < |ss[k]| - 1
        ensures LinkId(g, sel, ss[k], j) in AllLinks(g, sel, ss)
      {
        if k < |init| {
          assert init[k] == ss[k];
        } else {
          assert b[j] == LinkId(g, sel, last, j);
        }
      }
    }
  }

  /** A sequence without repeats splits into two without repeats and without a common
      triangle. */
  lemma NoDupSplit(a: seq<int>, b: seq<int>)
    requires NoDup(a + b)
    ensures NoDup(a) && NoDup(b) && forall u :: u in a ==> u !in b
  {
    forall i, j | 0 <= i < j < |a|
      ensures a[i] != a[j]
    {
      assert (a + b)[i] == a[i] && (a + b)[j] == a[j];
    }
    forall i, j | 0 <= i < j < |b|
      ensures b[i] != b[j]
    {
      assert (a + b)[|a| + i] == b[i] && (a + b)[|a| + j] == b[j];
    }
    forall u | u in a
      ensures u !in b
    {
      var i :| 0 <= i < |a| && a[i] == u;
      assert (a + b)[i] == u;
      forall j | 0 <= j < |b|
        ensures b[j] != u
      {
        assert (a + b)[|a| + j] == b[j];
      }
    }
  }

  /** With every triangle having three distinct vertices and no two triangles joined by
      two selected dual edges, every selected dual edge links two neighbours in some
      strip of a cover. */
  lemma SelectedIsLink(g: Graph, sel: seq<bool>, strips: seq<seq<int>>, i: int)
    requires ValidGraph(g) && TwoSided(g.indices) && NonDegenerate(g.indices) && |sel| == |g.edges|
    requires SingleLinks(g, sel) && StripsCover(g, sel, strips)
    requires 0 <= i < |sel| && sel[i]
    ensures exists k, j :: 0 <= k < |strips| && 0 <= j < |strips[k]| - 1 && i == LinkId(g, sel, strips[k], j)
  {
    var l, cl, r, cr := SelectedEnds(g, sel, i);
    var k := FlattenIndex(strips, l);
    var s := strips[k];
    ExactAdjacent(g, sel, s, l, r);
    var j :| 0 <= j < |s| - 1 && AdjacentAt(s, j, l, r);
    if s[j] == l {
      OutCornerKey(g, sel, l, cl, r);
    } else {
      OutCornerKey(g, sel, r, cr, l);
    }
    assert i == LinkId(g, sel, s, j);
  }

  /** The two triangles of selected dual edge `i` and their corners on it: each corner
      leads to the other triangle, and without repeated vertices they are different. */
  lemma SelectedEnds(g: Graph, sel: seq<bool>, i: int) returns (l: int, cl: int, r: int, cr: int)
    requires ValidGraph(g) && NonDegenerate(g.indices) && |sel| == |g.edges|
    requires 0 <= i < |sel| && sel[i]
    ensures 0 <= l < TriangleCount(g.indices) && 0 <= cl < 3 && 0 <= r < TriangleCount(g.indices) && 0 <= cr < 3
    ensures l != r && CornerKey(g.indices, l, cl) == g.edges[i] && CornerKey(g.indices, r, cr) == g.edges[i]
    ensures g.edges[i] in g.ids && g.ids[g.edges[i]] == i
    ensures Neighbour(g, sel, l, cl) == r && Neighbour(g, sel, r, cr) == l && Step(g, sel, l, r)
  {
    var key := g.edges[i];
    var sd := g.edgeMap[key];
    EdgeMapSides(g.indices, key);
    l, r := sd.left, sd.right;
    cl :| Writes(g.indices, l, cl, key, true);
    cr :| Writes(g.indices, r, cr, key, false);
    assert Neighbour(g, sel, l, cl) == r;
    NonDegenerateNoSelfStep(g, sel, l);
    assert Neighbour(g, sel, r, cr) == l;
  }

  /** When no two triangles are joined by two selected dual edges, the corner of `a`
      that leads to `b` is any corner of `a` that does, up to its key. */
  lemma OutCornerKey(g: Graph, sel: seq<bool>, a: int, c: int, b: int)
    requires ValidGraph(g) && SingleLinks(g, sel)
    requires 0 <= a < TriangleCount(g.indices) && 0 <= c < 3
    requires Neighbour(g, sel, a, c) == b && b != a && b != NoTriangle
    ensures CornerKey(g.indices, a, OutCorner(g, sel, a, b)) == CornerKey(g.indices, a, c)
  {
    NeighbourSpec(g, sel, a, c);
    assert Step(g, sel, a, b);
  }

  /** A sequence without repeats has as many different triangles as positions. */
  lemma {:induction false} MembersCount(s: seq<int>)
    requires NoDup(s)
    ensures |Members(s)| == |s|
  {
    if |s| > 0 {
      var init := s[..|s| - 1];
      assert NoDup(init);
      MembersCount(init);
      assert Members(s) == Members(init) + {s[|s| - 1]};
    }
  }

  /** The triangles `0 .. n - 1`. */
  function Range(n: nat): (r: set<int>)
    ensures forall u :: u in r <==> 0 <= u < n
  {
    if n == 0 then {} else Range(n - 1) + {n - 1}
  }

  lemma {:induction false} RangeCount(n: nat)
    ensures |Range(n)| == n
  {
    if n > 0 {
      RangeCount(n - 1);
    }
  }

  /** The design's count: on a mesh without repeated vertices, strips that cover it
      along a selection in which no two triangles share two selected dual edges use
      every selected dual edge exactly once between neighbours, so the number of strips
      is the number of triangles minus the number of selected dual edges. Maximising
      the selected edges thus minimises the strips. */
  lemma StripCount(g: Graph, sel: seq<bool>, strips: seq<seq<int>>)
    requires ValidGraph(g) && TwoSided(g.indices) && NonDegenerate(g.indices) && |sel| == |g.edges|
    requires SingleLinks(g, sel) && StripsCover(g, sel, strips)
    ensures |strips| == TriangleCount(g.indices) - |SelectedIds(sel)|
  {
    var n := TriangleCount(g.indices);
    forall k | 0 <= k < |strips|
      ensures LinksOk(g, sel, strips[k])
    {
      StripLinks(g, sel, strips[k]);
    }
    AllLinksSpec(g, sel, strips);
    var all := AllLinks(g, sel, strips);
    forall i | i in SelectedIds(sel)
      ensures i in all
    {
      SelectedIsLink(g, sel, strips, i);
    }
    forall i | i in all
      ensures i in SelectedIds(sel)
    {
    }
    assert Members(all) == SelectedIds(sel);
    MembersCount(all);
    MembersCount(Flatten(strips));
    assert Members(Flatten(strips)) == Range(n);
    RangeCount(n);
  }

  // ----- The program: the optimizer object -----

  /** `StripOptimizer`: the index list, its edge map and dual-edge numbering (fixed at
      construction), the solver it owns, and the handles of the variables it declared. */
  class StripOptimizer {
    const indices: seq<int>
    const edgeMap: EdgeMap
    const dualEdgeIdToEdge: seq<Edge>
    const edgeToDualEdgeId: map<Edge, int>
    const solver: Recorder
    var x: seq<Variable>
    var y: seq<(Variable, Variable)>

    /** The graph the methods read. */
    function G(): Graph
    {
      Graph(indices, edgeMap, dualEdgeIdToEdge, edgeToDualEdgeId)
    }

    /** The constructor: compute the edge map, then give each dual edge, in the order
        the map is visited, the next id. */
    constructor (indices: seq<int>, optimizer: Recorder)
      ensures this.indices == indices && solver == optimizer
      ensures ValidGraph(G())
      ensures x == [] && y == []
    {
      this.indices := indices;
      solver := optimizer;
      var m := ComputeEdgeMap(indices);
      var edges, ids := NumberDualEdges(m);
      edgeMap := m;
      dualEdgeIdToEdge := edges;
      edgeToDualEdgeId := ids;
      x := [];
      y := [];
    }

    /** `CreateVariables`: one binary `x` with objective 1 per dual edge, then per dual
        edge a pair `y` of continuous variables in `[0, DoubleMax]` with objective 0. */
    method CreateVariables()
      modifies this, solver
      ensures var e, b := |dualEdgeIdToEdge|, |old(solver.vars)|;
        && |x| == |old(x)| + e && x[..|old(x)|] == old(x)
        && (forall k :: |old(x)| <= k < |x| ==> x[k] == b + (k - |old(x)|))
        && |y| == |old(y)| + e && y[..|old(y)|] == old(y)
        && (forall k :: |old(y)| <= k < |y| ==> y[k] == (b + e + 2 * (k - |old(y)|), b + e + 2 * (k - |old(y)|) + 1))
      ensures solver.vars == old(solver.vars) + ModelVars(|dualEdgeIdToEdge|)
      ensures solver.constraints == old(solver.constraints) && solver.maximize == old(solver.maximize)
    {
      var e := |dualEdgeIdToEdge|;
      ghost var b := |solver.vars|;
      for i := 0 to e
        invariant |x| == |old(x)| + i && x[..|old(x)|] == old(x)
        invariant forall k :: |old(x)| <= k < |x| ==> x[k] == b + (k - |old(x)|)
        invariant |solver.vars| == b + i && solver.vars[..b] == old(solver.vars)
        invariant forall k :: b <= k < |solver.vars| ==> solver.vars[k] == VarDecl(Binary, 0.0, 1.0, 1.0)
        invariant solver.constraints == old(solver.constraints) && solver.maximize == old(solver.maximize)
        invariant y == old(y)
      {
        var v := solver.AddBinaryVariable(1.0);
        x := x + [v];
      }
      ghost var xs := x;
      ghost var binaries := solver.vars;
      for i := 0 to e
        invariant x == xs
        invariant |y| == |old(y)| + i && y[..|old(y)|] == old(y)
        invariant forall k :: |old(y)| <= k < |y| ==> y[k] == (b + e + 2 * (k - |old(y)|), b + e + 2 * (k - |old(y)|) + 1)
        invariant |solver.vars| == b + e + 2 * i && solver.vars[..b + e] == binaries
        invariant forall k :: b + e <= k < |solver.vars| ==> solver.vars[k] == VarDecl(Continuous, 0.0, DoubleMax, 0.0)
        invariant solver.constraints == old(solver.constraints) && solver.maximize == old(solver.maximize)
      {
        var first := solver.AddVariable(0.0, DoubleMax, 0.0);
        var second := solver.AddVariable(0.0, DoubleMax, 0.0);
        y := y + [(first, second)];
      }
      ghost var want := old(solver.vars) + ModelVars(e);
      assert |want| == |solver.vars|;
      forall k | 0 <= k < |want|
        ensures want[k] == solver.vars[k]
      {
        if k < b {
          assert solver.vars[k] == binaries[k] == binaries[..b][k];
        } else if k < b + e {
          assert solver.vars[k] == binaries[k];
        }
      }
    }

    /** `CreateConstraints`: per triangle the anti-fork row (only when all three corners
        are dual edges) and the cap row, then per dual edge the coupling row. */
    method CreateConstraints()
      requires Sized(G(), x, y)
      modifies solver
      ensures solver.constraints == old(solver.constraints) + ModelRows(G(), x, y)
      ensures solver.vars == old(solver.vars) && solver.maximize == old(solver.maximize)
    {
      ghost var g, xs, ys, start := G(), x, y, solver.constraints;
      var n := TriangleCount(indices);
      for t := 0 to n
        invariant x == xs && y == ys
        invariant solver.constraints == start + TriangleRowsUpTo(g, xs, ys, t)
        invariant solver.vars == old(solver.vars) && solver.maximize == old(solver.maximize)
      {
        ghost var done := TriangleRowsUpTo(g, xs, ys, t);
        AddTriangleRows(t);
        Collections.AppendAssoc(start, done, TriangleRows(g, xs, ys, t));
      }
      ghost var triangleRows := TriangleRowsUpTo(g, xs, ys, n);
      AddCouplingRows();
      Collections.AppendAssoc(start, triangleRows, CouplingRowsUpTo(xs, ys, |xs|));
    }

    /** The edge loop of `CreateConstraints`: one coupling row per dual edge, in id order. */
    method AddCouplingRows()
      requires |x| == |dualEdgeIdToEdge| && |y| == |x|
      modifies solver
      ensures solver.constraints == old(solver.constraints) + CouplingRowsUpTo(x, y, |x|)
      ensures solver.vars == old(solver.vars) && solver.maximize == old(solver.maximize)
    {
      ghost var xs, ys, start := x, y, solver.constraints;
      for eIdx := 0 to |dualEdgeIdToEdge|
        invariant x == xs && y == ys
        invariant solver.constraints == start + CouplingRowsUpTo(xs, ys, eIdx)
        invariant solver.vars == old(solver.vars) && solver.maximize == old(solver.maximize)
      {
        ghost var done := CouplingRowsUpTo(xs, ys, eIdx);
        AddCouplingRow(eIdx);
        Collections.AppendAssoc(start, done, [CouplingRow(xs, ys, eIdx)]);
      }
    }

    /** One pass of the triangle loop of `CreateConstraints`: sum the `x` of the dual
        edges of `t` and the `y` of the side `t` is on, then add the rows of `t`. */
    method AddTriangleRows(t: int)
      requires Sized(G(), x, y) && 0 <= t < TriangleCount(indices)
      modifies solver
      ensures solver.constraints == old(solver.constraints) + TriangleRows(G(), x, y, t)
      ensures solver.vars == old(solver.vars) && solver.maximize == old(solver.maximize)
    {
      ghost var g, xs, ys := G(), x, y;
      var sumX := new LinearExpression();
      var sumY := new LinearExpression();
      var numberOfDualEdges := 0;
      for i := 0 to 3
        invariant x == xs && y == ys && sumX != sumY
        invariant sumX.terms == SumX(g, xs, ys, t, i) && sumY.terms == SumY(g, xs, ys, t, i)
        invariant numberOfDualEdges == DualCount(g, t, i)
        invariant solver.constraints == old(solver.constraints)
        invariant solver.vars == old(solver.vars) && solver.maximize == old(solver.maximize)
      {
        var isDual := AddCorner(t, i, sumX, sumY);
        if isDual {
          numberOfDualEdges := numberOfDualEdges + 1;
        }
      }
      ghost var start := solver.constraints;
      ghost var fork: seq<Constraint> := [];
      if numberOfDualEdges == 3 {
        solver.AddConstraint(sumX, LessEqual, 2.0);
        fork := [Constraint(sumX.terms, LessEqual, 2.0)];
      }
      solver.AddConstraint(sumY, LessEqual, F - Epsilon);
      Collections.AppendAssoc(start, fork, [Constraint(sumY.terms, LessEqual, F - Epsilon)]);
    }

    /** The body of the corner loop of `CreateConstraints`: a corner whose edge is a dual
        edge adds its `x` to `sumX` and the `y` of the side `t` is on to `sumY`. */
    method AddCorner(t: int, i: int, sumX: LinearExpression, sumY: LinearExpression) returns (isDual: bool)
      requires Sized(G(), x, y) && 0 <= t < TriangleCount(indices) && 0 <= i < 3 && sumX != sumY
      requires sumX.terms == SumX(G(), x, y, t, i) && sumY.terms == SumY(G(), x, y, t, i)
      modifies sumX, sumY
      ensures sumX.terms == SumX(G(), x, y, t, i + 1) && sumY.terms == SumY(G(), x, y, t, i + 1)
      ensures isDual == (CornerKey(indices, t, i) in edgeToDualEdgeId)
      ensures DualCount(G(), t, i + 1) == DualCount(G(), t, i) + (if isDual then 1 else 0)
    {
      ghost var g := G();
      var uniqueEdge := Canon(indices[3 * t + i], indices[3 * t + (i + 1) % 3]);
      assert uniqueEdge == CornerKey(indices, t, i);
      if uniqueEdge !in edgeToDualEdgeId {
        return false;
      }
      ghost var ySoFar := sumY.terms;
      var xTerm := new LinearExpression.Of(x[edgeToDualEdgeId[uniqueEdge]]);
      var _ := sumX.AddAssign(xTerm);
      assert sumY.terms == ySoFar;
      var faces := edgeMap[uniqueEdge];
      var edgeIdx := edgeToDualEdgeId[uniqueEdge];
      ghost var xSoFar := sumX.terms;
      if faces.left == t {
        var yTerm := new LinearExpression.Of(y[edgeIdx].0);
        var _ := sumY.AddAssign(yTerm);
      } else if faces.right == t {
        var yTerm := new LinearExpression.Of(y[edgeIdx].1);
        var _ := sumY.AddAssign(yTerm);
      }
      assert sumX.terms == xSoFar;
      return true;
    }

    /** One pass of the edge loop of `CreateConstraints`: the row
        `-F x[eIdx] + y[eIdx].first + y[eIdx].second == 0`. */
    method AddCouplingRow(eIdx: int)
      requires 0 <= eIdx < |x| && |y| == |x|
      modifies solver
      ensures solver.constraints == old(solver.constraints) + [CouplingRow(x, y, eIdx)]
      ensures solver.vars == old(solver.vars) && solver.maximize == old(solver.maximize)
    {
      var e := new LinearExpression();
      var xTerm := new LinearExpression.Scaled(-F, x[eIdx]);
      var _ := e.AddAssign(xTerm);
      var firstTerm := new LinearExpression.Of(y[eIdx].0);
      var _ := e.AddAssign(firstTerm);
      var secondTerm := new LinearExpression.Of(y[eIdx].1);
      var _ := e.AddAssign(secondTerm);
      solver.AddConstraint(e, Equal, 0.0);
    }

    /** `Run`: after the solve, dual edge `i` is in a strip when its `x` exceeds 0.5. The
        solver's values are the argument `solution`, indexed by variable handle. */
    method Run(solution: seq<real>) returns (edgeIsInStrip: seq<bool>)
      requires forall i :: 0 <= i < |x| ==> 0 <= x[i] < |solution|
      ensures |edgeIsInStrip| == |x|
      ensures forall i :: 0 <= i < |x| ==> (edgeIsInStrip[i] <==> solution[x[i]] > 0.5)
      ensures edgeIsInStrip == Selection(x, solution)
    {
      edgeIsInStrip := [];
      for i := 0 to |x|
        invariant |edgeIsInStrip| == i
        invariant forall k :: 0 <= k < i ==> (edgeIsInStrip[k] <==> solution[x[k]] > 0.5)
      {
        edgeIsInStrip := edgeIsInStrip + [solution[x[i]] > 0.5];
      }
    }

    /** `Visit`: grow `strip` at its `front` (or back) end from the end triangle `t`
        along selected dual edges, recursively, marking the triangles visited. A selected
        neighbour that is already visited and is not `oldEnd` ends it with the circle
        exception (`ok` false). */
    method Visit(t: int, front: bool, strip: seq<int>, visited: array<bool>, edgeIsInStrip: seq<bool>, ghost done: set<int>)
      returns (result: seq<int>, ok: bool)
      requires VisitPre(G(), edgeIsInStrip, t, front, strip, visited[..], done)
      modifies visited
      ensures ok ==> VisitPost(G(), edgeIsInStrip, front, strip, result, visited[..], done)
      ensures ok && (|strip| > 1 || |result| == 1) ==> Exact(G(), edgeIsInStrip, result, t)
      ensures !ok ==> HasLoop(G(), edgeIsInStrip)
      decreases Unvisited(visited[..]) - {t}, 1
    {
      ghost var g := G();
      ghost var sel := edgeIsInStrip;
      ghost var entry := visited[..];
      WalkStart(g, sel, t, front, strip, entry, done);
      var oldEnd := NoTriangle;
      if |strip| != 1 {
        if front {
          oldEnd := strip[1];
        } else {
          oldEnd := strip[|strip| - 2];
        }
      }
      assert oldEnd == OldEnd(front, strip);
      visited[t] := true;
      ghost var marked := visited[..];
      assert marked == entry[t := true];
      result := strip;
      ok := true;
      var nVisited := 0;
      ghost var q := NoTriangle;
      for i := 0 to 3
        invariant ok
        invariant WalkState(g, sel, t, front, strip, marked, done, oldEnd, i, nVisited, q, result, visited[..])
      {
        var uniqueEdge := CornerKey(indices, t, i);
        CornerRead(g, sel, t, i);
        var other := EdgeMapOther(edgeMap[uniqueEdge], t);
        if uniqueEdge in edgeToDualEdgeId && edgeIsInStrip[edgeToDualEdgeId[uniqueEdge]] && other != oldEnd {
          WalkFirst(g, sel, t, front, strip, marked, done, oldEnd, i, nVisited, q, result, visited[..]);
          assert nVisited == 0;
          result, ok := Grow(t, front, result, visited, edgeIsInStrip, done, entry, i, other);
          if !ok {
            return;
          }
          if oldEnd == NoTriangle {
            AfterPush(g, sel, t, front, strip, other, result, visited[..], done);
            return;
          }
          WalkAfterVisit(g, sel, t, front, strip, entry, done, i, result, visited[..]);
          nVisited := nVisited + 1;
          q := other;
        } else {
          WalkSkip(g, sel, t, front, strip, marked, done, oldEnd, i, nVisited, q, result, visited[..]);
        }
      }
      WalkEnd(g, sel, t, front, strip, marked, done, nVisited, q, result, visited[..]);
    }

    /** The branch of `Visit` for a selected neighbour `other` of `t` that is not
        `oldEnd`: if it is visited the strip contains a circle (`ok` false; `other` is
        then the far end of the strip), otherwise push it and walk on from it. */
    method Grow(t: int, front: bool, strip: seq<int>, visited: array<bool>, edgeIsInStrip: seq<bool>,
                ghost done: set<int>, ghost entry: seq<bool>, ghost i: int, other: int)
      returns (result: seq<int>, ok: bool)
      requires VisitPre(G(), edgeIsInStrip, t, front, strip, entry, done)
      requires 0 <= t < |entry| && visited[..] == entry[t := true] && 0 <= i < 3
      requires other == Neighbour(G(), edgeIsInStrip, t, i) && other != NoTriangle && other != OldEnd(front, strip)
      modifies visited
      ensures ok ==> VisitPost(G(), edgeIsInStrip, front, Push(front, strip, other), result, visited[..], done)
      ensures ok ==> Exact(G(), edgeIsInStrip, result, other)
      ensures !ok ==> HasLoop(G(), edgeIsInStrip)
      decreases Unvisited(visited[..]) - {t}, 0
    {
      ghost var g := G();
      ghost var sel := edgeIsInStrip;
      CornerRead(g, sel, t, i);
      if visited[other] {
        var side := if front then strip[|strip| - 1] else strip[0];
        CircleFound(g, sel, t, front, strip, entry, done, i);
        assert side == other;
        return strip, false;
      }
      PushReady(g, sel, t, front, strip, entry, done, i);
      DecreasesAtPush(entry, t, other);
      result := strip;
      if front {
        result := [other] + result;
      } else {
        result := result + [other];
      }
      assert result == Push(front, strip, other);
      result, ok := Visit(other, front, result, visited, edgeIsInStrip, done);
    }

    /** `ExtractStrips`: walk every unvisited triangle `f` in increasing order backward
        and then forward into a strip. It fails ("Strip contains circles!") exactly when
        the selection closes a loop; otherwise every triangle lies in exactly one
        finished strip. */
    method ExtractStrips(edgeIsInStrip: seq<bool>) returns (r: Extraction)
      requires Walkable(G(), edgeIsInStrip)
      ensures r.CircleError? <==> HasLoop(G(), edgeIsInStrip)
      ensures r.Extracted? ==> StripsCover(G(), edgeIsInStrip, r.strips)
    {
      ghost var g := G();
      var triangleStrips: seq<seq<int>> := [];
      var visitedTriangles := new bool[|indices| / 3](_ => false);
      ExtractStart(g, edgeIsInStrip, visitedTriangles[..]);
      for f := 0 to |indices| / 3
        invariant ExtractState(g, edgeIsInStrip, f, triangleStrips, visitedTriangles[..])
      {
        if visitedTriangles[f] {
          ExtractSkip(g, edgeIsInStrip, f, triangleStrips, visitedTriangles[..]);
          continue;
        }
        ghost var before := visitedTriangles[..];
        ghost var done := Members(Flatten(triangleStrips));
        ExtractReady(g, edgeIsInStrip, f, triangleStrips, before);
        var strip := [f];
        var ok;
        strip, ok := Visit(f, false, strip, visitedTriangles, edgeIsInStrip, done);
        if !ok {
          return CircleError;
        }
        ghost var back := strip;
        ghost var middle := visitedTriangles[..];
        ExtractMiddle(g, edgeIsInStrip, f, triangleStrips, before, back, middle);
        strip, ok := Visit(f, true, strip, visitedTriangles, edgeIsInStrip, done);
        if !ok {
          return CircleError;
        }
        StripFinished(g, edgeIsInStrip, f, back, strip, middle, visitedTriangles[..], done);
        ExtractAppend(g, edgeIsInStrip, f, triangleStrips, before, strip, visitedTriangles[..]);
        triangleStrips := triangleStrips + [strip];
      }
      ExtractEnd(g, edgeIsInStrip, triangleStrips, visitedTriangles[..]);
      CoverNoLoop(g, edgeIsInStrip, triangleStrips);
      r := Extracted(triangleStrips);
    }

    /** The first three statements of `operator()`: declare the variables, emit the
        rows and ask for a maximum, on a solver that starts empty. */
    method Formulate()
      requires Numbering(edgeMap, dualEdgeIdToEdge, edgeToDualEdgeId)
      requires solver.vars == [] && solver.constraints == [] && x == [] && y == []
      modifies this, solver
      ensures x == XHandles(|dualEdgeIdToEdge|) && y == YHandles(|dualEdgeIdToEdge|)
      ensures solver.vars == ModelVars(|dualEdgeIdToEdge|)
      ensures solver.constraints == ModelRows(G(), x, y)
      ensures solver.maximize
    {
      CreateVariables();
      HandlesFromZero(x, y, |dualEdgeIdToEdge|);
      CreateConstraints();
      solver.SetObjective(true);
    }

    /** `operator()`: declare the variables, emit the rows, ask for a maximum, read the
        selected dual edges off the solution and walk them into strips. The solver's
        answer is the parameter `solution`, a feasible point of the emitted program. On
        such a point the walk fails only at a triangle across a selected edge of itself,
        which takes a triangle with a repeated vertex, and no two triangles are joined by
        two selected dual edges (a cycle of two the walk itself would not notice). Without
        repeated vertices there are then as many strips as triangles minus selected dual
        edges, which is why the program maximises the selected edges. */
    method Solve(solution: seq<real>) returns (r: Extraction)
      requires ValidGraph(G()) && TwoSided(indices)
      requires solver.vars == [] && solver.constraints == [] && x == [] && y == []
      requires FeasibleFor(G(), solution)
      modifies this, solver
      ensures x == XHandles(|dualEdgeIdToEdge|) && y == YHandles(|dualEdgeIdToEdge|)
      ensures solver.vars == ModelVars(|dualEdgeIdToEdge|)
      ensures solver.constraints == ModelRows(G(), x, y)
      ensures solver.maximize
      ensures r.CircleError? <==> exists t :: Step(G(), Selection(x, solution), t, t)
      ensures SingleLinks(G(), Selection(x, solution))
      ensures NonDegenerate(indices) ==> r.Extracted?
      ensures r.Extracted? ==> StripsCover(G(), Selection(x, solution), r.strips)
      ensures NonDegenerate(indices) && r.Extracted? ==>
        |r.strips| == TriangleCount(indices) - |SelectedIds(Selection(x, solution))|
    {
      ghost var g := G();
      Formulate();
      FeasibleValues(g, solution);
      var edgeIsInStrip := Run(solution);
      AntiForkBoundsDegree(g, solution);
      FeasibleLoops(g, solution);
      FlowRowsSingleLinks(g, solution);
      r := ExtractStrips(edgeIsInStrip);
      if NonDegenerate(indices) && r.Extracted? {
        StripCount(g, edgeIsInStrip, r.strips);
      }
    }
  }
}
