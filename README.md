# Optimal triangle strips: a Dafny model

This project models the triangle-strip pipeline of the compressed-meshlet code base
together with the linear-expression type it writes its integer program with.

The input is a flat index list, three vertex indices per triangle. The pipeline runs in three stages:

1. **Dual graph.** `ComputeEdgeMap` maps every undirected edge, written `(min, max)`, to the triangle on its left side and the triangle on its right side. A side with no triangle holds `-1`. The optimizer's constructor then gives a dense id to every edge that has a triangle on both sides. These are the *dual edges*.
2. **Program.** `CreateVariables` and `CreateConstraints` declare, for each dual edge, a binary selection variable `x` and two non-negative flow variables `y`. They then emit three kinds of rows:
   - an anti-fork row per triangle with three dual edges (`sum x <= 2`);
   - a cap row per triangle (`sum y <= F - epsilon`);
   - a coupling row per dual edge (`y.first + y.second = F x`).
3. **Strips.** The solution is thresholded at `0.5` into a selection of dual edges. `ExtractStrips` takes each unvisited triangle in increasing order and grows it backwards, then forwards, along selected dual edges (`Visit`). It fails with "Strip contains circles!" when a walk reaches a triangle it has already visited.

Modules:

- `Collections` holds sequence and sum helpers.
- `Milp` holds `LinearExpression`, a class whose field is the coefficient map, with `+=` as an in-place loop. It also holds `Recorder`, a solver that only records the variables, rows and direction submitted to it. The model states the meaning of rows through `Eval` and `Satisfies` over real-valued assignments.
- `DualGraph` holds the edge map as an imperative loop, proved equal to a fold over the corners (`EdgeMapOf`). It characterises each entry by its last writer, and it holds the dual-edge numbering, `EdgeMapOther`, and the selected dual graph (`Neighbour`, `Step`, `Degree`, cycles).
- `Formulation` holds the rows exactly as emitted (`ModelVars`, `ModelRows`) and two theorems about them:
  - any feasible point selects at most two dual edges per triangle;
  - on a two-sided mesh (defined below), any feasible point selects no cycle of three or more triangles, and never two dual edges between the same two triangles.
- `Strips` holds the class `StripOptimizer`. Its fields are those of the C++ class, and it has the constructor, `CreateVariables`, `CreateConstraints`, `Run`, the recursive `Visit` over a `visited` array, `ExtractStrips` and `operator()` (here `Solve`).
  - `ExtractStrips` fails exactly when the selection closes a loop. Otherwise its strips partition the triangles into paths along selected edges, each grown from the smallest triangle not yet covered, which is then the least triangle of that strip.
  - The end-to-end theorem `Solve` says that on a feasible point extraction fails exactly when some triangle is across a selected edge of itself. That happens only for a triangle with a repeated vertex.
  - Without repeated vertices, `Solve` also proves the count behind the objective: the number of strips is the number of triangles minus the number of selected dual edges (`StripCount`). Maximising the selected edges therefore minimises the strips.

The assertions of `Visit` (`nVisited == 0` and `side == other`) are proof obligations of the model. They hold on a *two-sided* mesh with at most two selected dual edges per triangle. Every feasible point of the emitted program meets the second condition. Two-sided (`TwoSided`) means that every triangle with a corner on a dual edge is one of that edge's two recorded sides, so `EdgeMapOther` from it returns the triangle across the edge. It is weaker than a manifold, where no edge has two triangles on the same side: a second triangle winding an edge the same way leaves that edge a border edge. For triangles with three distinct vertices it follows from "each edge touches at most two triangles" (`TwoTrianglesTwoSided`). With a repeated vertex, either can happen:
- The single triangle `[0,1,0]` is two-sided (`DegenerateTwoSided`). With its edge `(0,1)` selected, the triangle is across that edge from itself, and extraction ends with the circle error, as in the source.
- `[0,1,2, 0,1,0]` has at most two triangles per edge but is not two-sided (`DegenerateNotTwoSided`). Once its edge `(0,1)` is selected, the walk from triangle 0 reaches triangle 1 and finds triangle 1 itself across that edge, not the far end of the strip. That is where the source's assertion `side == other` fails (`DegenerateGraph`).

## Model

| member | source | states |
|---|---|---|
| Milp.LinearExpression.constructor | include/MILP.h:23 | the default expression has no terms |
| Milp.LinearExpression.Of | src/MILP.cpp:14-17 | `LinearExpression(v)` is the map `{v: 1}` |
| Milp.LinearExpression.Scaled | src/MILP.cpp:19-22 | `LinearExpression(f, v)` is the map `{v: f}` |
| Milp.LinearExpression.AddAssign | src/MILP.cpp:24-33 | after `a += b` the terms of `a` are `Merge` of the old terms of `a` and of `b`; the same object is returned, and `b` is read before anything is written, so `a += a` doubles `a` |
| Milp.Merge | src/MILP.cpp:26-30 | the keys are the union of both key sets, and every coefficient is the sum of the two sides' coefficients |
| Milp.MergeOneSided | src/MILP.cpp:26-30 | a key only in `a` keeps its coefficient, a key only in `b` is copied from `b`, and a key in both gets the sum |
| Milp.MergeEmptyRight | src/MILP.cpp:24-33 | adding the empty expression leaves the terms unchanged |
| Milp.EvalMerge | src/MILP.cpp:24-33 | the merged expression evaluates to the sum of the two values under every assignment |
| Milp.EvalSingle | src/MILP.cpp:19-22 | `factor * v` evaluates to `factor` times the value of `v` |
| Milp.EvalEmpty | include/MILP.h:23 | the empty expression evaluates to 0 |
| Milp.BinaryValue | include/MILP.h:37 | a value within the bounds of a binary variable is 0 or 1 |
| Milp.Recorder.AddVariable | include/MILP.h:35 | returns a fresh dense handle and records a continuous variable with the given bounds and objective |
| Milp.Recorder.AddIntegerVariable | include/MILP.h:36 | returns a fresh dense handle and records an integer variable |
| Milp.Recorder.AddBinaryVariable | include/MILP.h:37 | returns a fresh dense handle and records an integer variable in `[0, 1]` |
| Milp.Recorder.AddConstraint | include/MILP.h:38 | appends the row with the expression's terms at the time of the call |
| Milp.Recorder.SetObjective | include/MILP.h:39 | sets the direction and leaves variables and rows alone |
| DualGraph.Canon | src/OptimalStrips.cpp:48 | `minmax`: the key is ordered and holds the same two vertices |
| DualGraph.ComputeEdgeMap | src/OptimalStrips.cpp:40-73 | the map built by the nested corner loop equals the fold of `Record` over all corners of the first `floor(n/3)` triangles, in order |
| DualGraph.RecordCorner | src/OptimalStrips.cpp:47-68 | one corner: emplace `(-1, -1)` if the key is absent, then set `left` when the edge runs from the smaller vertex, otherwise `right` |
| DualGraph.EdgeMapUpToKeys | src/OptimalStrips.cpp:43-49 | after `k` corners a key is present exactly when one of those corners has it as its canonical edge |
| DualGraph.LastWriterSpec | src/OptimalStrips.cpp:64-68 | the last writer of a side is `-1` exactly when no corner writes it; otherwise it writes it and no later corner does |
| DualGraph.EdgeMapUpToValues | src/OptimalStrips.cpp:49-68 | every side of every entry is its last writer |
| DualGraph.EdgeMapKeys | src/OptimalStrips.cpp:43-49 | every key has `first <= second`; a key is present exactly when it is some corner's canonical edge |
| DualGraph.EdgeMapSides | src/OptimalStrips.cpp:49-68 | a side stays `-1` exactly when no corner writes it; a written side is an in-range triangle that writes it, and no later triangle does |
| DualGraph.CornerSides | src/OptimalStrips.cpp:64-68 | a corner's key is present; its triangle or a later one is on the side given by the winding; on a manifold it is exactly that triangle |
| DualGraph.ManifoldTwoSided | src/OptimalStrips.cpp:64-82 | a manifold mesh is two-sided |
| DualGraph.TwoTrianglesTwoSided | src/OptimalStrips.cpp:64-82 | a mesh whose triangles have distinct vertices and whose edges touch at most two triangles is two-sided |
| DualGraph.SameWindingTwoSided | src/OptimalStrips.cpp:43-68 | for `[0,1,2, 0,1,3]` the edge `(0,1)` maps to `(1, -1)`, a border edge; the mesh is two-sided but not a manifold |
| DualGraph.DegenerateTwoSided | src/OptimalStrips.cpp:43-68 | for the single triangle `[0,1,0]` the edge `(0,1)` maps to `(0, 0)`; the mesh is two-sided although the triangle has a repeated vertex |
| DualGraph.DegenerateNotTwoSided | src/OptimalStrips.cpp:43-68 | for `[0,1,2, 0,1,0]` the edge `(0,1)` maps to `(1, 1)`; no edge touches more than two triangles, yet the mesh is not two-sided |
| DualGraph.DegenerateGraph | src/OptimalStrips.cpp:210-227 | with `(0,1)` selected in `[0,1,2, 0,1,0]`, triangle 1 is across `(0,1)` from triangle 0 but not the other way round; the walk from 0 to 1 then finds 1 itself across that edge, not the far end 0 that `side == other` expects |
| DualGraph.NumberDualEdges | src/OptimalStrips.cpp:100-107 | an edge gets an id exactly when both sides are `>= 0`; ids are dense `0 .. E-1`; the edge list and the id map are inverse to each other |
| DualGraph.EdgeMapOther | src/OptimalStrips.cpp:76-82 | the result is a side of the pair; when `cmp` is a side, `{cmp, result}` is the pair as a multiset |
| DualGraph.NeighbourSpec | src/OptimalStrips.cpp:210-220 | a corner has a neighbour exactly when its edge is a selected dual edge; the neighbour is in range, and on a two-sided mesh the triangle and the neighbour are the two sides of the edge |
| DualGraph.BackCornerAt | src/OptimalStrips.cpp:210-220 | on a two-sided mesh, a selected dual edge from a corner of `a` to a different triangle `b` has `a` and `b` as its two sides, and the corner of `b` with the same key leads back to `a` |
| DualGraph.StepSymmetric | src/OptimalStrips.cpp:210-220 | on a two-sided mesh, if `b` is across a selected edge of `a` then `a` is across a selected edge of `b` |
| DualGraph.NonDegenerateNoSelfStep | src/OptimalStrips.cpp:43-68 | a triangle with three distinct vertices is never across a selected edge of itself |
| Formulation.ModelVarsSpec | src/OptimalStrips.cpp:120-132 | `3E` variables: handles `0..E-1` are binary with objective 1, and the `y` pairs are distinct handles of continuous variables in `[0, max]` with objective 0 |
| Formulation.TriangleRowsUpToCount | src/OptimalStrips.cpp:139-169 | the triangle loop emits one cap row per triangle plus one anti-fork row per triangle whose three edges are dual |
| Formulation.CouplingRowsUpToCount | src/OptimalStrips.cpp:171-178 | the edge loop emits one row per dual edge |
| Formulation.ModelRowCount | src/OptimalStrips.cpp:139-178 | the number of rows is triangles + fork triangles + dual edges |
| Formulation.ModelRowsContain | src/OptimalStrips.cpp:139-178 | every triangle's cap row is emitted; every triangle with three dual edges gets its anti-fork row; every dual edge gets its coupling row |
| Formulation.EvalSumX | src/OptimalStrips.cpp:144-153 | `sumX` evaluates to the sum over the triangle's dual corners of their `x` values |
| Formulation.EvalSumY | src/OptimalStrips.cpp:155-161 | `sumY` evaluates to the sum over the dual corners of the `y` slot on the triangle's own side |
| Formulation.EvalCouplingRow | src/OptimalStrips.cpp:171-178 | the coupling row holds exactly when `y.first + y.second == F * x` |
| Formulation.FeasibleValues | src/OptimalStrips.cpp:120-132 | a feasible point gives every `x` the value 0 or 1 and every `y` a non-negative value |
| Formulation.FeasibleRows | src/OptimalStrips.cpp:139-178 | a feasible point meets every cap, anti-fork and coupling row |
| Formulation.ForkRowBoundsDegree | src/OptimalStrips.cpp:163-166 | where the anti-fork row holds (or is absent), the triangle has at most two selected dual edges |
| Formulation.AntiForkBoundsDegree | src/OptimalStrips.cpp:144-166 | on a feasible point no triangle has more than two selected dual edges |
| Formulation.CornerCarriesUnitFlow | src/OptimalStrips.cpp:155-178 | on a two-sided mesh, the selected dual edge of a corner of `a` leading to a different triangle `b` carries flow 1: the `y` slot of `a`'s corner plus that of `b`'s matching corner is 1 |
| Formulation.EdgeCarriesUnitFlow | src/OptimalStrips.cpp:171-178 | a selected dual edge between two different triangles carries flow 1, split between the slots of its two sides |
| Formulation.CapBoundsTwoCorners | src/OptimalStrips.cpp:168 | under the cap row any two corners' `y` values sum to at most `F - epsilon` |
| Formulation.CycleCapStep | src/OptimalStrips.cpp:157-168 | along a selected path `a, b, c` the flow into `b` from `a` plus the flow out of `b` to `c` is at most `F - epsilon` |
| Formulation.NoCircularFlow | src/OptimalStrips.cpp:167-178 | unit flow per edge with every consecutive pair capped below 1 admits no closed cycle |
| Formulation.FlowRowsExcludeCycles | src/OptimalStrips.cpp:157-178 | on a two-sided mesh, no feasible point selects a cycle of three or more distinct triangles |
| Formulation.TwoLinksOverflow | src/OptimalStrips.cpp:157-178 | under the cap and coupling rows, two corners of `a` with different keys never lead to the same other triangle: that would put flow 2 on two caps of at most `F - epsilon` each |
| Formulation.FlowRowsSingleLinks | src/OptimalStrips.cpp:157-178 | on a two-sided mesh, no feasible point selects two different dual edges between the same two triangles (the cycle of length two) |
| Formulation.FeasibleLoops | src/OptimalStrips.cpp:157-178 | on a two-sided mesh and a feasible point the selection closes a loop exactly when a triangle is across a selected edge of itself, which cannot happen when every triangle has three distinct vertices |
| Strips.OldEndStep | src/OptimalStrips.cpp:198-205 | in a path of length two or more, `oldEnd` is the neighbour just behind the growing end |
| Strips.CircleFound | src/OptimalStrips.cpp:221-227 | reaching a visited triangle through a selected edge other than towards `oldEnd` means it is the far end of the strip (`side == other`), and the selection closes a loop |
| Strips.StripHasNoCycle | src/OptimalStrips.cpp:242-256 | a finished strip touches no selected cycle |
| Strips.CoverNoLoop | src/OptimalStrips.cpp:242-256 | when finished strips cover all triangles, the selection closes no loop |
| Strips.LinkEnds | src/OptimalStrips.cpp:210-220 | on a two-sided mesh, the link between two neighbours of a strip is a selected dual edge whose two triangles are exactly those neighbours |
| Strips.LinksDiffer | src/OptimalStrips.cpp:210-220 | two different links of a repeat-free path are different dual edges |
| Strips.StripLinks | src/OptimalStrips.cpp:242-256 | a finished strip's `|s| - 1` links are different selected dual edges, each with both triangles in the strip |
| Strips.AllLinksSpec | src/OptimalStrips.cpp:242-265 | strips with no common triangle have `|Flatten| - |strips|` links in all, all different selected dual edges, and every link of every strip is among them |
| Strips.OutCornerKey | src/OptimalStrips.cpp:210-220 | when no two triangles share two selected dual edges, any corner of `a` leading to `b` has the key of the corner the walk uses |
| Strips.SelectedEnds | src/OptimalStrips.cpp:49-68 | without repeated vertices, a dual edge joins two different triangles, each with a corner on it that leads to the other |
| Strips.SelectedIsLink | src/OptimalStrips.cpp:242-265 | without repeated vertices and double links, every selected dual edge links two neighbours in some strip of a cover |
| Strips.StripCount | src/OptimalStrips.cpp:242-265 | without repeated vertices and double links, covering strips number exactly the triangles minus the selected dual edges, the count that the objective (`x` with weight 1) maximises against |
| Strips.StripOptimizer.constructor | src/OptimalStrips.cpp:97-108 | keeps the index list and the solver; the edge map is `EdgeMapOf(indices)` and the ids number exactly the dual edges, both ways |
| Strips.StripOptimizer.CreateVariables | src/OptimalStrips.cpp:120-132 | appends `x` handles `b .. b+E-1` and then `y` pairs `(b+E+2k, b+E+2k+1)`, with the matching declarations, and touches no rows |
| Strips.StripOptimizer.CreateConstraints | src/OptimalStrips.cpp:134-179 | appends exactly `ModelRows`: per triangle its anti-fork and cap rows, then per dual edge its coupling row |
| Strips.StripOptimizer.AddTriangleRows | src/OptimalStrips.cpp:140-168 | one triangle: the anti-fork row only when all three corners are dual, then the cap row |
| Strips.StripOptimizer.AddCorner | src/OptimalStrips.cpp:144-161 | a non-dual corner is skipped; a dual one adds its `x` to `sumX` and the `y` of the side the triangle is on to `sumY` |
| Strips.StripOptimizer.AddCouplingRows | src/OptimalStrips.cpp:171-178 | appends one coupling row per dual edge, in id order |
| Strips.StripOptimizer.AddCouplingRow | src/OptimalStrips.cpp:172-177 | appends `-F x[e] + y[e].first + y[e].second == 0` |
| Strips.StripOptimizer.Run | src/OptimalStrips.cpp:181-190 | dual edge `i` is selected exactly when its `x` value is greater than 0.5 |
| Strips.StripOptimizer.Visit | src/OptimalStrips.cpp:192-240 | on a two-sided mesh with at most two selected dual edges per triangle, on return the strip only grew at its `front` end and is still a repeat-free path with the visited marks exact, and every added triangle has all its selected neighbours next to it; the circle exception only when the selection closes a loop |
| Strips.StripOptimizer.Grow | src/OptimalStrips.cpp:221-237 | under the same conditions as `Visit`, a visited neighbour raises the circle exception (a loop exists); otherwise the neighbour is pushed at the growing end and the walk continues from it |
| Strips.StripOptimizer.ExtractStrips | src/OptimalStrips.cpp:242-265 | on a two-sided mesh with at most two selected dual edges per triangle, fails exactly when the selection closes a loop; otherwise every triangle is in exactly one strip exactly once, each strip is a path along selected edges, and the least triangle of each strip is the smallest triangle not in an earlier strip (its seed). Which end of a strip comes first is left open; the source's back-then-front growth fixes one order |
| Strips.StripOptimizer.Formulate | src/OptimalStrips.cpp:112-114 | on an empty solver: the `x` and `y` handles are laid out from 0, the declarations are exactly `ModelVars`, the rows exactly `ModelRows`, and the direction is maximise |
| Strips.StripOptimizer.Solve | src/OptimalStrips.cpp:110-117 | on a two-sided mesh, declares exactly `ModelVars`, emits exactly `ModelRows` and maximises; on a feasible point it fails only when a triangle is across a selected edge of itself, never for triangles with distinct vertices, no two triangles are joined by two selected dual edges, and otherwise it partitions the triangles into strips; without repeated vertices there are exactly as many strips as triangles minus selected dual edges |

## Left out

- The SCIP and Gurobi backends are not part of this model: they are wrappers over native libraries. `Optimize` and `GetSolutionVariableValue` become the parameter `solution` of `Run` and `Solve`, one real value per variable handle.
- Gurobi's throw on a non-optimal status is not modelled. `Solve` assumes a feasible point instead.
- Whether the objective `sum x` is maximised is a property of the solver and is not stated.
- Solver variable handles are dense indices `0, 1, 2, ...` in order of creation, as both backends hand them out.
- `double` coefficients, `epsilon = 0.0001` and the `0.5` threshold are modelled as exact reals, not IEEE doubles. `DoubleMax` stands for `numeric_limits<double>::max()`.
- The demo program (OBJ file I/O) and `CreateTriangleStrips`, which picks a backend at compile time, are not modelled.
- `EdgeHash` and the iteration order of `unordered_map` are not modelled:
  - the maps are Dafny maps;
  - `NumberDualEdges` visits the keys in an arbitrary order, so the model allows every numbering and proves only that it is a bijection.
- `LinearExpression` iterates `other.expression_` in an arbitrary order; `AddAssign` picks keys in any order with the same result.
- `GetExpression` is not a separate member: it returns the coefficient map, which is the field `terms` that the rows record.
- `std::deque` is modelled as a `seq<int>`: `Visit` takes it and returns the grown one instead of mutating it through a reference. `visited` is an `array<bool>` updated in place.
- `Visit`, `Grow` and `ExtractStrips` require a two-sided mesh and at most two selected dual edges per triangle (`Walkable`). Under those conditions the C++ `assert`s provably hold. Builds with `NDEBUG`, which drop those asserts for other inputs, are not modelled.
- `Solve`, `FeasibleLoops`, `FlowRowsExcludeCycles`, `FlowRowsSingleLinks` and `StripCount` also require a two-sided mesh. That is implied by "each edge touches at most two triangles" when every triangle has three distinct vertices (`TwoTrianglesTwoSided`).
- `Walkable`, and with it `Visit`, `Grow`, `ExtractStrips` and `Solve`, requires the whole mesh to be two-sided. That is stronger than the assertions of `Visit` need for a given selection: a side overwritten on an unselected edge is never crossed (src/OptimalStrips.cpp:213-220). A mesh that fails to be two-sided only at unselected edges is outside the model. An example is `[0,1,2, 0,1,0]` with nothing selected, for which the source returns `[[0],[1]]`.
- `ExtractStrips` on its own does not notice two selected dual edges between the same two triangles: the walk skips the corner leading back to `oldEnd`, as the source does. Such a selection is excluded by the program's rows instead (`FlowRowsSingleLinks`), and `Solve` states it.
- The thrown `std::exception` becomes `ok == false` from `Visit` and `CircleError` from `ExtractStrips`.
- `edgeMap_.at(...)` throws when the key is absent; that throw is not modelled because the key is always present (`CornerRead`).
- `std::make_pair(AddVariable(...), AddVariable(...))` in `CreateVariables`: C++ leaves the order of the two calls unspecified. The model takes it as left to right, so `y.first` gets the smaller handle.
- The model moves some loop bodies and statement groups into their own methods so that each can be verified on its own: `RecordCorner`, `AddCorner`, `AddTriangleRows`, `AddCouplingRows`, `AddCouplingRow`, `Grow`, `NumberDualEdges` and `Formulate`. The order of calls and rows is the source's.
- Integer widths are not modelled (`int` vertex indices and `int32_t` handles). The model uses unbounded integers, on the assumption that IDs never overflow.
