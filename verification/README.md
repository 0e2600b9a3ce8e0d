# TSP heuristics and subtour elimination, modelled in Dafny

This project models the three pieces of travelling-salesman logic in the repository:

- **The greedy nearest-neighbour tour builder** of `AddHeuristicTSP` (module `Heuristic`).
  `find_subtour` starts from a city and keeps taking the cheapest row from the current
  city to a still-unvisited city. It then closes the tour with a "last mile" lookup.
  `final_df` runs the builder once per city and memoises the table. `shortest_distance`
  and `shortest_tour` read the first row of least length.
- **The assignment model of `CreateModel`** (module `Formulation`). It covers
  `define_constraints` (one selected arc out of and one into every city),
  `define_subtour_constraints` (the arcs of `remove_nodes` leaving a city are forced to 0)
  and `solve_model` (objective, lower-bound append, solution list). The model is a
  feasibility predicate over a 0/1 selection, plus pure state updates.
- **The solve / check / branch loop of `subtour_tsp.py`** (module `Controller`). The MIP
  solver and the two queries of the subtour checker are oracles passed in as functions.
  The loop is a fuel-bounded recursion over a loop body passed in as a function.
  `Controller.Branching` is the body the script uses. The loop lemmas hold for every body
  with the stated property, and separate lemmas show that `Branching` has it.
- **The Miller–Tucker–Zemlin formulation of `TSP.py`** (module `Mtz`), modelled as a
  validator of a candidate `(x, u)`, together with the arc table and the sorted visit table
  built from a solution.

`Graph` holds what the four share: arcs, rows of the distance table, the distance
dictionary, sums of variables over arcs (`Flow`), the objective and the positive-arc
report. `Results` holds `Option` and `Result`, which model the source's exceptions as
error values.

Modelling decisions:

- Cities are strings and distances are integers. Only addition, multiplication by a 0/1
  arc value (the objective), and comparison occur on distances.
- The distance table is a sequence of rows in file order. Python's `set` iteration order
  becomes an explicit city sequence.
- `AddHeuristicTSP` builds both `self.cities` and the unvisited list of every
  `find_subtour` call from `list(set(...))` of the same column. One city sequence plays
  both roles.
- Every Python exception the code can raise on the modelled paths, except the
  constraint-name formatting listed under "Left out", becomes an error value. These are: `pop` on an empty list, `idxmin` over no row, a missing dictionary key, a
  missing variable, a missing solution, iterating a `remove_nodes` that is still `None`,
  a `pd.DataFrame` built from columns of unequal length, and a town name with no first
  letter.
- The model follows the code where a textbook subtour-elimination loop would differ:
  - `CreateModel` adds degree constraints for every city with no exemption for the start
    city. Only `TSP.py` exempts `T` (out) and `O` (in).
  - The branch taken is always the first candidate the checker offers. No "smallest
    cycle" policy is applied.
  - Nothing is claimed about the lower-bound list being non-decreasing. The solver runs
    with a 15% optimality gap.
  - The loop is not shown to terminate: the same arc can be forbidden again.
- Two quirks of `find_subtour` are modelled as written:
  - The initial `pop(0)` drops the head of the city list, which need not be the start
    city.
  - The closing leg is looked up under `(start, last)`, not `(last, start)`.

## Model

| member | source | states |
|---|---|---|
| Graph.Distances | Add/add_heuristic_engine.py:12 | the distance dictionary has exactly one key per (origin, destination) pair that occurs in the table |
| Graph.DistancesRoundTrip | Add/add_heuristic_engine.py:12 | a key maps to the distance of the last row carrying it (later rows overwrite earlier ones) |
| Graph.FlowZero | solve_model.py:35 | a sum of non-negative variables over the arcs a filter keeps is 0 exactly when each of those variables is 0 |
| Graph.FlowOne | solve_model.py:28 | a sum of 0/1 variables over the kept arcs that equals 1 implies one position is selected: some position is, and any two are the same |
| Graph.OneChosenFlowIsOne | solve_model.py:28 | conversely, when exactly one kept position of a 0/1 selection is selected, the sum is 1; with `Graph.FlowOne` the sum is 1 exactly when one position is selected |
| Graph.ObjectiveIsSelectedLength | solve_model.py:40 | for a 0/1 selection, the objective sum of distance times value equals the total distance of the selected arcs |
| Graph.Report | solve_model.py:47-51 | the solution list holds a triple (i, j, v) exactly when (i, j) is an edge whose value v is positive, and it holds no triple twice |
| Heuristic.NearestIn | Add/add_heuristic_engine.py:36-44 | `idxmin` over the candidate rows: none exactly when no row leaves the current city for an unvisited one; otherwise a candidate of least distance, with no earlier candidate as short |
| Heuristic.Remove | Add/add_heuristic_engine.py:55-56 | `index` then `pop` removes exactly one occurrence of the city: the length drops by one and the multiset loses that city |
| Heuristic.Step | Add/add_heuristic_engine.py:34-57 | one iteration: it fails exactly when there is no candidate row; otherwise it appends the new city and leg, adds the leg to the total, and removes the new city from the unvisited list |
| Heuristic.StepTakesNearestRow | Add/add_heuristic_engine.py:36-51 | the city and leg a step appends come from the row `idxmin` designates |
| Heuristic.Loop | Add/add_heuristic_engine.py:34-57 | the loop ends with no unvisited city; its only failure is a step with no candidate |
| Heuristic.LoopExtendsTour | Add/add_heuristic_engine.py:30-57 | the loop appends exactly one city per unvisited city, keeps the tour so far as a prefix, and the appended cities are a permutation of the unvisited list |
| Heuristic.LoopExtendsLegs | Add/add_heuristic_engine.py:31-51 | the loop appends one leg per unvisited city, keeps earlier legs, and keeps the total equal to the sum of the legs (up to the starting offset) |
| Heuristic.FindSubtour | Add/add_heuristic_engine.py:22-74 | `find_subtour` fails on an empty city list exactly when the list is empty; a missing closing leg is reported under a key that leaves the start city and is absent from the dictionary |
| Heuristic.MissingLastMileKey | Add/add_heuristic_engine.py:24-71 | the key of a missing closing leg is (start, last city reached): (start, start) for a one-city list, otherwise a city after the head |
| Heuristic.Close | Add/add_heuristic_engine.py:68-74 | the closing leg is looked up under (start, last city): it fails exactly when that key is missing, naming it; otherwise it appends the start city and that key's distance as the last leg, and adds it to the total |
| Heuristic.FindSubtourCities | Add/add_heuristic_engine.py:24-72 | a tour has one entry more than the city list, begins and ends with the start city, and in between is a permutation of the list after its head |
| Heuristic.FindSubtourLegs | Add/add_heuristic_engine.py:25-74 | the leg list is as long as the tour, starts with 0, sums to the total, and its last entry is the distance stored under (start, last city before the return) |
| Heuristic.HeadIsStartVisitsEveryOtherCityOnce | Add/add_heuristic_engine.py:26-30 | when the head of a repeat-free city list is the start city, the tour visits every other city exactly once before returning |
| Heuristic.HeadNotStartSkipsHead | Add/add_heuristic_engine.py:26-30 | when the head is not the start city, `pop(0)` drops it: the tour never visits the head and passes the start city again before closing |
| Heuristic.Record | Add/add_heuristic_engine.py:84-86 | a `find_subtour` call succeeds exactly when the tour builder does; then tour, leg list and length are appended to the three lists and nothing else changes |
| Heuristic.RecordAll | Add/add_heuristic_engine.py:96-99 | the loop over cities only appends to the three lists, keeps them of equal length and leaves the table, the cities and the cache alone |
| Heuristic.RecordAllSucceedsIffEveryTourDoes | Add/add_heuristic_engine.py:96-99 | the loop over cities runs to the end exactly when every city's `find_subtour` succeeds |
| Heuristic.RecordAllAppendsOneTourPerCity | Add/add_heuristic_engine.py:96-105 | after a complete loop the lists hold one entry per city, in city order, with that city's tour, legs and length |
| Heuristic.FinalDf | Add/add_heuristic_engine.py:88-93 | a cached table is returned unchanged; a generated table is cached; a failure leaves the cache empty; the table and cities never change |
| Heuristic.FinalDfIsComputedOnce | Add/add_heuristic_engine.py:91-93 | after one successful access, another access returns the same table and changes nothing |
| Heuristic.FreshFinalDfRunsEveryCityOnce | Add/add_heuristic_engine.py:95-105 | on a new object `final_df` succeeds exactly when every city's tour does, and row i holds the i-th city with its tour, legs and length |
| Heuristic.FirstMin | Add/add_heuristic_engine.py:114 | `idxmin`: none exactly on an empty column; otherwise the first position of a least value |
| Heuristic.ShortestRow | Add/add_heuristic_engine.py:114-115 | the row of `final_df` whose distance is least, the first such row on ties |
| Heuristic.ShortestDistance | Add/add_heuristic_engine.py:107-116 | the result is some row's distance and no row's distance is smaller; it fails exactly when `final_df` fails or is empty |
| Heuristic.ShortestTour | Add/add_heuristic_engine.py:118-127 | the result is the tour of the first row of least distance; it fails exactly when `final_df` fails or is empty |
| Formulation.DefineConstraints | solve_model.py:26-31 | `define_constraints` appends 2·(number of cities) constraints and changes nothing else |
| Formulation.DegreeConstraintsHold | solve_model.py:28-31 | a selection feasible for a model with a city's two degree constraints has exactly one selected arc out of and one into that city |
| Formulation.DefineConstraintsCoversCities | solve_model.py:26-31 | after `define_constraints` every city carries both its "out" and its "in" constraint |
| Formulation.DefineConstraintsMeansOneInOneOut | solve_model.py:26-31 | after `define_constraints` a selection is feasible exactly when it was before and every city, with no exemption, has one selected arc out and one in |
| Formulation.ForbidBatch | solve_model.py:33-36 | one constraint per city in order, naming that city and `remove_nodes`; it fails exactly when some arc of `remove_nodes` leaving a city is not an edge |
| Formulation.DefineSubtourConstraints | solve_model.py:33-36 | appends one forbid constraint per city and changes nothing else; an unset `remove_nodes` is an error exactly when there are cities |
| Formulation.AppendForbidsForceZero | solve_model.py:33-36 | appending one forbid constraint per city over arcs that are all edges: feasible after exactly when feasible before and those arcs leaving a city are 0 |
| Formulation.SubtourConstraintsKeepForbidsOnlyEdges | solve_model.py:33-36 | a successful `define_subtour_constraints` only constrains arcs that have a variable, so every forbid constraint still names only edges |
| Formulation.SubtourConstraintsForceArcsToZero | solve_model.py:33-36 | after `define_subtour_constraints` a selection is feasible exactly when it was before and gives 0 to every arc of `remove_nodes` whose origin is a city |
| Formulation.SolveModel | solve_model.py:39-51 | a solve succeeds exactly when the solver answers and every edge has a distance; it appends one lower bound, replaces `lst` with the positive arcs, and changes nothing else |
| Formulation.SoundSolveReportsFeasibleSelection | solve_model.py:39-51 | with a trusted answer the new `lst` reports a feasible selection, and the appended bound is the length of the selected arcs |
| Formulation.FeasibleForLaterIsFeasibleForEarlier | solve_model.py:28-35 | constraints are only appended, so each later feasible set is contained in every earlier one |
| Formulation.ForbiddenArcsStayZero | solve_model.py:33-36 | any arc forbidden by a constraint added at any earlier point is 0 in every feasible selection |
| Formulation.ReportOmitsForbidden | solve_model.py:33-51 | a solution list that reports a feasible selection lists no arc named by a forbid constraint of the model |
| Formulation.SuccessorIndex | solve_model.py:27-28 | the first selected edge leaving a city, none exactly when no edge leaving it is selected |
| Formulation.SuccessorDefined | solve_model.py:27-28 | under the degree constraints, with every edge joining two cities, every city has a successor, and it is a city |
| Formulation.SuccessorInjective | solve_model.py:30-31 | under the degree constraints, with every edge joining two cities, no two cities share a successor |
| Formulation.SuccessorOnto | solve_model.py:30-31 | under the degree constraints, with every edge joining two cities, every city is some city's successor |
| Formulation.DegreeFeasibleIsPermutation | solve_model.py:26-31 | when every city carries both degree constraints and every edge joins two cities, a feasible selection defines a successor map that is a bijection on the cities |
| Controller.Branch | subtour_tsp.py:30-40 | `remove_nodes` becomes the one-element list of the first candidate, one forbid batch naming only that arc is appended, and one lower bound is added |
| Controller.Advance | subtour_tsp.py:29-44 | a branching appends the remaining candidates as one backlog entry and performs one solve and one forbid batch |
| Controller.Loop | subtour_tsp.py:22-46 | for any loop body, the loop stops with a single tour only when the checker says so, on no candidates only with an empty candidate list, and out of budget only while the checker still offers candidates |
| Controller.BranchingBranchesOnce | subtour_tsp.py:29-44 | each pass of the script's loop body performs exactly one branching and never finds `remove_nodes` unset |
| Controller.LoopBookkeeping | subtour_tsp.py:29-44 | for any body that branches once per pass, every branching adds exactly one backlog entry, one lower bound, and one batch of (number of cities) appended constraints, never removes any, and leaves a one-arc `remove_nodes`; running out of budget means every allowed branching ran |
| Controller.LoopNeverFindsRemoveNodesUnset | subtour_tsp.py:32-39 | the loop never fails on an unset `remove_nodes`, because each branching sets it before the constraints are added |
| Controller.Run | subtour_tsp.py:13-46 | one solve after the degree constraints and before the loop; the lower-bound list has 1 + (number of branchings) entries; the degree constraints stay in place |
| Controller.LoopFromFirstSolve | subtour_tsp.py:14-44 | from the state after the first solve, the loop keeps 1 + (branchings) lower bounds, (branchings) backlog entries and (2 + branchings)·(cities) constraints, and keeps the first lower bound |
| Controller.InitialShape | subtour_tsp.py:13-14 | the model of the first solve has both degree constraints of every city and nothing else |
| Controller.FirstSolveShape | subtour_tsp.py:13-15 | after the first solve the model keeps its degree constraints and holds one lower bound, the solver's objective |
| Controller.DegreeConstraintsPersist | subtour_tsp.py:14-39 | constraints are only appended, so the degree constraints remain throughout the loop |
| Controller.BranchingIgnoresBacklog | subtour_tsp.py:29-40 | the script's loop body appends to the backlog but never reads it |
| Controller.BacklogNeverRead | subtour_tsp.py:11-46 | for any body that ignores the backlog, replacing the backlog changes neither the models, nor the number of branchings, nor why the loop stops |
| Controller.AdvanceReportsFeasible | subtour_tsp.py:39-44 | with a trusted solver a branching's solution list reports a feasible selection of the new model |
| Controller.BranchingKeepsFeasible | subtour_tsp.py:29-44 | with a trusted solver, each pass of the script's loop body ends reporting a feasible selection and naming only edges in its forbid constraints |
| Controller.LoopPreserves | subtour_tsp.py:22-46 | any property of the state that every pass keeps holds where the loop stops |
| Controller.LoopReportsFeasible | subtour_tsp.py:22-44 | for any body that keeps reporting feasible selections, the loop ends with a solution list that reports a feasible selection |
| Controller.RunReportsFeasible | subtour_tsp.py:13-44 | with a trusted solver the script ends with a solution list of a selection meeting every constraint added, so no listed arc is one a forbid constraint names |
| Mtz.Build | TSP.py:37-63 | building succeeds exactly when every edge not entering `O` joins two towns that have an order variable; otherwise it names a town lacking one |
| Mtz.DegreeExemptions | TSP.py:50-58 | every town but `T` has exactly one selected arc out, and every town but `O` exactly one in |
| Mtz.OrderAlongPath | TSP.py:60-63 | along a selected path avoiding `O` the order variable grows by exactly one per arc |
| Mtz.CycleAsPath | TSP.py:60-63 | a selected cycle avoiding `O` is a selected path plus a closing arc that raises the first town's order by one over the last |
| Mtz.EveryCycleVisitsHome | TSP.py:60-63 | every cycle of selected arcs passes through `O`, so no subtour avoids the hometown |
| Mtz.ArcTable | TSP.py:79-84 | the arc table holds (i, j, v) exactly for the edges with positive value v, each once |
| Mtz.ArcTableOfFeasible | TSP.py:79-84 | for a feasible answer the arc table lists exactly the selected arcs, each with value 1 |
| Mtz.VisitRows | TSP.py:88-92 | one row per town in order, holding its first letter and its order value; it fails exactly when some town name is empty |
| Mtz.Insert | TSP.py:93 | inserting into a sorted table keeps it sorted and adds exactly that row |
| Mtz.SortByOrder | TSP.py:93 | the sorted table is in ascending order of visit order and is a permutation of its input |
| Mtz.VisitTable | TSP.py:87-93 | the visit table is sorted ascending and is a permutation of the town rows, one per town; it fails exactly on an empty town name |

## Left out

- Reading CSV files, building pandas DataFrames, every `print`, and the CSV export of `util.py`: these are I/O. util.py is not part of this model.
- The CPLEX solver itself, its time limit, branching strategy and 15% MIP gap. A solve is an oracle answer. Only `Formulation.Sound` constrains that answer, and only where a lemma asks for it. Optimality is not modelled.
- Controller.Loop: the lower-bound list is not claimed to be non-decreasing. The gap tolerance means the code does not guarantee it.
- Controller.Loop: a `fuel` budget bounds the number of branchings, because the source's loop has no bound (the same arc can be forbidden again). A run out of fuel ends with exit `OutOfFuel`. The source would keep looping instead.
- `SubtourChecker`: its source is not part of this model. `subtour_checker()` and `branches_to_set_to_zero()` are oracle functions of the solution list. The checker is rebuilt from the latest `lst`, so these are functions of that list alone.
- The order variables `self.u` and `self.starting_city` of `CreateModel`: the subtour model never constrains or reads them.
- Constraint and variable names (`ctname`, the `'city_out_%d'` reuse).
- City labels are opaque strings in all three scripts. `CreateModel` formats its constraint names with `'city_out_%d' % c` and `'city_in_%d' % c`, which raises `TypeError` for a label that is not an integer. That error is not modelled: `Formulation.DefineConstraints` and `Formulation.DefineSubtourConstraints` never return it. `subtour_tsp.py` loads numbered cities, so the script does not reach it.
- The global `df` used inside `AddHeuristicTSP.__init__`: the rows and the city listing are passed in explicitly.
- The never-set caches `_shortest_distance` and `_shortest_tour`: the model recomputes on every access, as the code does.
- Floating-point distances and solver values: distances and arc values are integers, and order variables are reals.
- Mtz.VisitTable: pandas' default sort is not stable, so the order among towns with equal visit order is not fixed. The model keeps input order among equals and proves only that the result is sorted and a permutation of the input.
- Mtz.MtzFeasible: the comments in `TSP.py` label the "out" and "in" constraints the wrong way round, and call the order constraint "if and only if". The model follows the code: an implication for arcs not entering `O`.
