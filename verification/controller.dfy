/**
 The solve / check / branch loop of `subtour_tsp.py`. The solver and the two queries of the
 subtour checker ("is the solution a single tour?" and "which arcs to branch on?") are
 oracles: functions the loop calls and knows nothing else about.
 */
module Controller {
  import opened Results
  import opened Graph
  import opened Formulation

  /** The outside services the loop calls. */
  datatype Oracles = Oracles(
    solve: Model -> Option<Solution>,       // `m.solve(...)`; None when no solution is found
    noSubtour: seq<Triple> -> bool,         // `SubtourChecker(lst).subtour_checker()`
    candidates: seq<Triple> -> seq<Arc>)    // `SubtourChecker(lst).branches_to_set_to_zero()`

  /** A solver that only ever returns feasible values together with their objective value. */
  ghost predicate SoundSolver(o: Oracles) {
    forall m {:trigger Sound(m, o.solve(m))} :: Sound(m, o.solve(m))
  }

  /** The loop's state: the model and `to_be_forced_to_zero`, plus how many branchings ran. */
  datatype Search = Search(model: Model, backlog: seq<seq<Arc>>, branchings: nat)

  /** Why the loop stopped. */
  datatype Exit =
    | SingleTour     // the checker finds no subtour
    | NoCandidates   // the checker offers no arc to branch on: `break`
    | OutOfFuel      // the iteration budget of the model ran out

  datatype Stop = Stop(search: Search, exit: Exit)

  /** `solve_model` on a model, with the oracle's answer for that model. */
  function Solve(o: Oracles, m: Model): Result<Model, ModelError> {
    SolveModel(m, o.solve(m))
  }

  /**
   One branching: `remove_nodes` becomes the one-element list of the first candidate,
   its forbid constraints are added and the model is solved again.
   */
  function Branch(o: Oracles, m: Model, cand: seq<Arc>): (r: Result<Model, ModelError>)
    requires |cand| > 0
    ensures r.Ok? ==>
      && r.value.removeNodes == Some([cand[0]])
      && r.value.edges == m.edges && r.value.cities == m.cities && r.value.distance == m.distance
    ensures r.Ok? ==>
      && m.constraints <= r.value.constraints
      && |r.value.constraints| == |m.constraints| + |m.cities|
      && forall i | 0 <= i < |m.cities| :: r.value.constraints[|m.constraints| + i] == ForbidOut(m.cities[i], [cand[0]])
    ensures r.Ok? ==> m.lowerBounds <= r.value.lowerBounds && |r.value.lowerBounds| == |m.lowerBounds| + 1
    ensures r.Err? ==> r.error == UnknownVariable(cand[0]) || r.error == NoSolution || r.error.UnknownDistance?
  {
    var forced := m.(removeNodes := Some([cand[0]]));
    var constrained :- DefineSubtourConstraints(forced);
    Solve(o, constrained)
  }

  /** One pass of the loop body with a non-empty candidate list. */
  function Advance(o: Oracles, s: Search, cand: seq<Arc>): (r: Result<Search, ModelError>)
    requires |cand| > 0
    ensures r.Ok? ==> Branched(s, r.value, 1) && r.value.backlog == s.backlog + [cand[1..]]
    ensures r.Ok? ==> r.value.model.removeNodes == Some([cand[0]])
    ensures r.Err? ==> r.error == UnknownVariable(cand[0]) || r.error == NoSolution || r.error.UnknownDistance?
  {
    var m :- Branch(o, s.model, cand);
    Ok(Search(m, s.backlog + [cand[1..]], s.branchings + 1))
  }

  /** A loop body: what happens to the state when the checker offers candidates. */
  type Brancher = (Search, seq<Arc>) -> Result<Search, ModelError>

  /** The loop body of the script. The loop only runs it with candidates, so the empty case never arises. */
  function Branching(o: Oracles): Brancher {
    (s: Search, cand: seq<Arc>) => if |cand| == 0 then Ok(s) else Advance(o, s, cand)
  }

  /**
   The `while` loop from a given state with loop body `body`, for at most `fuel` branchings.
   It runs while the checker reports a subtour; an empty candidate list ends it.
   */
  function Loop(o: Oracles, body: Brancher, s: Search, fuel: nat): (r: Result<Stop, ModelError>)
    decreases fuel
    ensures r.Ok? ==> match r.value.exit
      case SingleTour => o.noSubtour(r.value.search.model.lst)
      case NoCandidates => !o.noSubtour(r.value.search.model.lst) && o.candidates(r.value.search.model.lst) == []
      case OutOfFuel => !o.noSubtour(r.value.search.model.lst) && |o.candidates(r.value.search.model.lst)| > 0
  {
    var lst := s.model.lst;
    if o.noSubtour(lst) then Ok(Stop(s, SingleTour))
    else
      var cand := o.candidates(lst);
      if |cand| == 0 then Ok(Stop(s, NoCandidates))
      else if fuel == 0 then Ok(Stop(s, OutOfFuel))
      else
        var next :- body(s, cand);
        Loop(o, body, next, fuel - 1)
  }

  /** One unfolding of the loop: it stops at once, fails with the body, or continues from it. */
  lemma LoopStep(o: Oracles, body: Brancher, s: Search, fuel: nat)
    ensures var lst := s.model.lst;
      if o.noSubtour(lst) || |o.candidates(lst)| == 0 || fuel == 0 then
        Loop(o, body, s, fuel).Ok? && Loop(o, body, s, fuel).value.search == s
      else
        var next := body(s, o.candidates(lst));
        && (next.Err? ==> Loop(o, body, s, fuel) == Err(next.error))
        && (next.Ok? ==> Loop(o, body, s, fuel) == Loop(o, body, next.value, fuel - 1))
  {
  }

  /** What `k` branchings do to the state: one backlog entry, one solve and one forbid batch each. */
  predicate Branched(s: Search, t: Search, k: nat) {
    && t.branchings == s.branchings + k
    && s.backlog <= t.backlog && |t.backlog| == |s.backlog| + k
    && s.model.lowerBounds <= t.model.lowerBounds && |t.model.lowerBounds| == |s.model.lowerBounds| + k
    && s.model.constraints <= t.model.constraints && |t.model.constraints| == |s.model.constraints| + Batches(k, |s.model.cities|)
    && t.model.edges == s.model.edges && t.model.cities == s.model.cities && t.model.distance == s.model.distance
    && (k == 0 ==> t == s)
    && (k > 0 ==> t.model.removeNodes.Some? && |t.model.removeNodes.value| == 1)
  }

  /** The number of constraints `k` forbid batches of `n` constraints add. */
  function Batches(k: nat, n: nat): nat {
    if k == 0 then 0 else n + Batches(k - 1, n)
  }

  lemma {:induction false} BatchesIsProduct(k: nat, n: nat)
    ensures Batches(k, n) == k * n
  {
    if k > 0 {
      BatchesIsProduct(k - 1, n);
      assert k * n == n + (k - 1) * n;
    }
  }

  /** The degree constraints and `k` forbid batches: (2 + k) batches of `n` constraints. */
  lemma BatchesAfterDegree(k: nat, n: nat)
    ensures (2 + k) * n == 2 * n + Batches(k, n)
  {
    BatchesIsProduct(k, n);
    assert (2 + k) * n == 2 * n + k * n;
  }

  lemma BranchedThen(s: Search, t: Search, u: Search, k: nat)
    requires Branched(s, t, 1)
    requires Branched(t, u, k)
    ensures Branched(s, u, k + 1)
  {
    var n := |s.model.cities|;
    assert Batches(1, n) == n + Batches(0, n) == n;
    assert Batches(k + 1, n) == n + Batches(k, n);
  }

  /** A loop body that performs exactly one branching, and never finds `remove_nodes` unset. */
  ghost predicate BranchesOnce(body: Brancher) {
    forall s: Search, cand: seq<Arc> {:trigger body(s, cand)} | |cand| > 0 ::
      && (body(s, cand).Ok? ==> Branched(s, body(s, cand).value, 1))
      && (body(s, cand).Err? ==> !body(s, cand).error.RemoveNodesUnset?)
  }

  lemma BranchingBranchesOnce(o: Oracles)
    ensures BranchesOnce(Branching(o))
  {
    forall s: Search, cand: seq<Arc> | |cand| > 0
      ensures Branching(o)(s, cand) == Advance(o, s, cand)
    {
    }
  }

  /** With a body that branches once, every branching adds exactly one of each and removes nothing. */
  lemma {:induction false} LoopBookkeeping(o: Oracles, body: Brancher, s: Search, fuel: nat)
    requires BranchesOnce(body)
    requires Loop(o, body, s, fuel).Ok?
    ensures var t := Loop(o, body, s, fuel).value;
      && s.branchings <= t.search.branchings <= s.branchings + fuel
      && Branched(s, t.search, t.search.branchings - s.branchings)
      && (t.exit == OutOfFuel ==> t.search.branchings == s.branchings + fuel)
    decreases fuel
  {
    var lst := s.model.lst;
    LoopStep(o, body, s, fuel);
    if !o.noSubtour(lst) && |o.candidates(lst)| > 0 && fuel > 0 {
      var next := body(s, o.candidates(lst)).value;
      LoopBookkeeping(o, body, next, fuel - 1);
      var t := Loop(o, body, next, fuel - 1).value.search;
      BranchedThen(s, next, t, t.branchings - next.branchings);
    }
  }

  /** With a body that never finds `remove_nodes` unset, neither does the loop. */
  lemma {:induction false} LoopNeverFindsRemoveNodesUnset(o: Oracles, body: Brancher, s: Search, fuel: nat)
    requires BranchesOnce(body)
    ensures Loop(o, body, s, fuel).Err? ==> !Loop(o, body, s, fuel).error.RemoveNodesUnset?
    decreases fuel
  {
    LoopStep(o, body, s, fuel);
    var lst := s.model.lst;
    if !o.noSubtour(lst) && |o.candidates(lst)| > 0 && fuel > 0 {
      var next := body(s, o.candidates(lst));
      if next.Ok? {
        LoopNeverFindsRemoveNodesUnset(o, body, next.value, fuel - 1);
      }
    }
  }

  /** The model as it stands when the first solve is made. */
  function Initial(edges: seq<Arc>, cities: seq<City>, distance: map<Arc, int>): Model {
    DefineConstraints(CreateModel(edges, cities, distance, None))
  }

  /**
   The whole script: build the model with no `remove_nodes`, add the degree constraints,
   solve once, then run the loop.
   */
  function Run(o: Oracles, edges: seq<Arc>, cities: seq<City>, distance: map<Arc, int>, fuel: nat): (r: Result<Stop, ModelError>)
    ensures r.Ok? ==>
      var t := r.value.search;
      && |t.model.lowerBounds| == 1 + t.branchings
      && |t.backlog| == t.branchings
      && t.branchings <= fuel
      && |t.model.constraints| == (2 + t.branchings) * |cities|
      && HasDegreeConstraints(t.model)
      && o.solve(Initial(edges, cities, distance)).Some?
      && t.model.lowerBounds[0] == o.solve(Initial(edges, cities, distance)).value.objective
    ensures r.Err? ==> !r.error.RemoveNodesUnset?
  {
    var m0 := Initial(edges, cities, distance);
    var m1 :- Solve(o, m0);
    FirstSolveShape(o, edges, cities, distance);
    BranchingBranchesOnce(o);
    var s := Search(m1, [], 0);
    LoopNeverFindsRemoveNodesUnset(o, Branching(o), s, fuel);
    var r := Loop(o, Branching(o), s, fuel);
    if r.Ok? then
      LoopFromFirstSolve(o, Branching(o), m1, fuel);
      r
    else r
  }

  /** The loop started right after the first solve keeps the counts of `Run` in step. */
  lemma LoopFromFirstSolve(o: Oracles, body: Brancher, m1: Model, fuel: nat)
    requires BranchesOnce(body)
    requires HasDegreeConstraints(m1) && |m1.constraints| == 2 * |m1.cities| && |m1.lowerBounds| == 1
    requires Loop(o, body, Search(m1, [], 0), fuel).Ok?
    ensures var t := Loop(o, body, Search(m1, [], 0), fuel).value.search;
      && |t.model.lowerBounds| == 1 + t.branchings
      && |t.backlog| == t.branchings
      && t.branchings <= fuel
      && |t.model.constraints| == (2 + t.branchings) * |m1.cities|
      && HasDegreeConstraints(t.model)
      && t.model.lowerBounds[0] == m1.lowerBounds[0]
  {
    var s := Search(m1, [], 0);
    LoopBookkeeping(o, body, s, fuel);
    var t := Loop(o, body, s, fuel).value.search;
    DegreeConstraintsPersist(m1, t.model);
    BatchesAfterDegree(t.branchings, |m1.cities|);
  }

  lemma InitialShape(edges: seq<Arc>, cities: seq<City>, distance: map<Arc, int>)
    ensures var m := Initial(edges, cities, distance);
      HasDegreeConstraints(m) && |m.constraints| == 2 * |cities| && m.lowerBounds == [] && m.cities == cities
  {
    DefineConstraintsCoversCities(CreateModel(edges, cities, distance, None));
  }

  /** The model after the first solve: the degree constraints and one lower bound, the solver's objective. */
  lemma FirstSolveShape(o: Oracles, edges: seq<Arc>, cities: seq<City>, distance: map<Arc, int>)
    requires Solve(o, Initial(edges, cities, distance)).Ok?
    ensures var m0 := Initial(edges, cities, distance);
      var m1 := Solve(o, m0).value;
      && HasDegreeConstraints(m1) && |m1.constraints| == 2 * |cities| && m1.cities == cities
      && o.solve(m0).Some? && m1.lowerBounds == [o.solve(m0).value.objective]
  {
    var m0 := Initial(edges, cities, distance);
    InitialShape(edges, cities, distance);
    var m1 := Solve(o, m0).value;
    assert m1.constraints == m0.constraints && m1.cities == m0.cities;
  }

  /** Constraints are only appended, so the degree constraints, once added, stay. */
  lemma DegreeConstraintsPersist(m: Model, later: Model)
    requires HasDegreeConstraints(m)
    requires m.constraints <= later.constraints && m.cities == later.cities
    ensures HasDegreeConstraints(later)
  {
    forall c | c in m.cities
      ensures OutDegree(c) in later.constraints && InDegree(c) in later.constraints
    {
      var i :| 0 <= i < |m.constraints| && m.constraints[i] == OutDegree(c);
      var j :| 0 <= j < |m.constraints| && m.constraints[j] == InDegree(c);
      assert later.constraints[i] == OutDegree(c) && later.constraints[j] == InDegree(c);
    }
  }

  /** A loop body that never reads the backlog: only the backlog of its result depends on it. */
  ghost predicate IgnoresBacklog(body: Brancher) {
    forall s: Search, b: seq<seq<Arc>>, cand: seq<Arc> {:trigger body(s.(backlog := b), cand)} | |cand| > 0 ::
      && body(s.(backlog := b), cand).Ok? == body(s, cand).Ok?
      && (body(s, cand).Err? ==> body(s.(backlog := b), cand).error == body(s, cand).error)
      && (body(s, cand).Ok? ==>
            && body(s.(backlog := b), cand).value.model == body(s, cand).value.model
            && body(s.(backlog := b), cand).value.branchings == body(s, cand).value.branchings)
  }

  lemma BranchingIgnoresBacklog(o: Oracles)
    ensures IgnoresBacklog(Branching(o))
  {
    forall s: Search, b: seq<seq<Arc>>, cand: seq<Arc> | |cand| > 0
      ensures Branching(o)(s.(backlog := b), cand) == Advance(o, s.(backlog := b), cand)
      ensures Branching(o)(s, cand) == Advance(o, s, cand)
    {
    }
  }

  /** The backlog `to_be_forced_to_zero` is written but never read: it does not steer the loop. */
  lemma {:induction false} BacklogNeverRead(o: Oracles, body: Brancher, s: Search, b: seq<seq<Arc>>, fuel: nat)
    requires IgnoresBacklog(body)
    ensures Loop(o, body, s, fuel).Ok? <==> Loop(o, body, s.(backlog := b), fuel).Ok?
    ensures Loop(o, body, s, fuel).Err? ==> Loop(o, body, s, fuel).error == Loop(o, body, s.(backlog := b), fuel).error
    ensures Loop(o, body, s, fuel).Ok? ==>
      var t := Loop(o, body, s, fuel).value;
      var u := Loop(o, body, s.(backlog := b), fuel).value;
      t.exit == u.exit && t.search.model == u.search.model && t.search.branchings == u.search.branchings
    decreases fuel
  {
    var s' := s.(backlog := b);
    LoopStep(o, body, s, fuel);
    LoopStep(o, body, s', fuel);
    var lst := s.model.lst;
    if !o.noSubtour(lst) && |o.candidates(lst)| > 0 && fuel > 0 {
      var cand := o.candidates(lst);
      var r := body(s, cand);
      var r' := body(s', cand);
      if r.Ok? {
        assert r'.value == r.value.(backlog := r'.value.backlog);
        BacklogNeverRead(o, body, r.value, r'.value.backlog, fuel - 1);
      }
    }
  }

  /** A loop body that, from a state reporting a feasible selection, reaches another such state. */
  ghost predicate KeepsFeasible(body: Brancher) {
    forall s: Search, cand: seq<Arc> {:trigger body(s, cand)} | |cand| > 0 && body(s, cand).Ok? && ForbidsOnlyEdges(s.model) ::
      ReportsFeasible(body(s, cand).value.model) && ForbidsOnlyEdges(body(s, cand).value.model)
  }

  /** Under a sound solver, one pass reports a feasible selection and names only edges in its forbid constraints. */
  lemma AdvanceReportsFeasible(o: Oracles, s: Search, cand: seq<Arc>)
    requires SoundSolver(o)
    requires |cand| > 0
    requires Advance(o, s, cand).Ok?
    ensures ReportsFeasible(Advance(o, s, cand).value.model)
    ensures ForbidsOnlyEdges(s.model) ==> ForbidsOnlyEdges(Advance(o, s, cand).value.model)
  {
    var forced := s.model.(removeNodes := Some([cand[0]]));
    var constrained := DefineSubtourConstraints(forced).value;
    assert Sound(constrained, o.solve(constrained));
    SoundSolveReportsFeasibleSelection(constrained, o.solve(constrained));
    if ForbidsOnlyEdges(s.model) {
      assert ForbidsOnlyEdges(forced);
      SubtourConstraintsKeepForbidsOnlyEdges(forced);
    }
  }

  lemma BranchingKeepsFeasible(o: Oracles)
    requires SoundSolver(o)
    ensures KeepsFeasible(Branching(o))
  {
    forall s: Search, cand: seq<Arc> | |cand| > 0 && Branching(o)(s, cand).Ok? && ForbidsOnlyEdges(s.model)
      ensures ReportsFeasible(Branching(o)(s, cand).value.model) && ForbidsOnlyEdges(Branching(o)(s, cand).value.model)
    {
      AdvanceReportsFeasible(o, s, cand);
    }
  }

  /** A loop body that keeps `inv` whenever it branches. */
  ghost predicate Preserves(body: Brancher, inv: Search -> bool) {
    forall s: Search, cand: seq<Arc> {:trigger body(s, cand)} | |cand| > 0 && body(s, cand).Ok? && inv(s) ::
      inv(body(s, cand).value)
  }

  /** A property every pass keeps holds of the state the loop stops in. */
  lemma {:induction false} LoopPreserves(o: Oracles, body: Brancher, inv: Search -> bool, s: Search, fuel: nat)
    requires Preserves(body, inv)
    requires inv(s)
    requires Loop(o, body, s, fuel).Ok?
    ensures inv(Loop(o, body, s, fuel).value.search)
    decreases fuel
  {
    var lst := s.model.lst;
    LoopStep(o, body, s, fuel);
    if !o.noSubtour(lst) && |o.candidates(lst)| > 0 && fuel > 0 {
      var next := body(s, o.candidates(lst)).value;
      LoopPreserves(o, body, inv, next, fuel - 1);
    }
  }

  /** With a body that keeps reporting feasible selections, the loop ends reporting one. */
  lemma LoopReportsFeasible(o: Oracles, body: Brancher, s: Search, fuel: nat)
    requires KeepsFeasible(body)
    requires ReportsFeasible(s.model) && ForbidsOnlyEdges(s.model)
    requires Loop(o, body, s, fuel).Ok?
    ensures ReportsFeasible(Loop(o, body, s, fuel).value.search.model)
    ensures ForbidsOnlyEdges(Loop(o, body, s, fuel).value.search.model)
  {
    var inv := (t: Search) => ReportsFeasible(t.model) && ForbidsOnlyEdges(t.model);
    assert Preserves(body, inv);
    LoopPreserves(o, body, inv, s, fuel);
  }

  /**
   Under a sound solver the script ends with `lst` listing the positive arcs of a selection
   that meets every constraint added, so every arc ever forbidden is absent from it.
   */
  lemma RunReportsFeasible(o: Oracles, edges: seq<Arc>, cities: seq<City>, distance: map<Arc, int>, fuel: nat)
    requires SoundSolver(o)
    requires Run(o, edges, cities, distance, fuel).Ok?
    ensures ReportsFeasible(Run(o, edges, cities, distance, fuel).value.search.model)
    ensures ForbidsOnlyEdges(Run(o, edges, cities, distance, fuel).value.search.model)
    ensures var m := Run(o, edges, cities, distance, fuel).value.search.model;
      forall t, a | t in m.lst && Forbidden(m, a) :: Arc(t.origin, t.destination) != a
  {
    var m0 := Initial(edges, cities, distance);
    InitialShape(edges, cities, distance);
    assert Sound(m0, o.solve(m0));
    SoundSolveReportsFeasibleSelection(m0, o.solve(m0));
    var m1 := Solve(o, m0).value;
    forall i | 0 <= i < |m1.constraints|
      ensures !m1.constraints[i].ForbidOut?
    {
      DegreeBatchAt(cities, if i < |cities| then i else i - |cities|);
    }
    BranchingKeepsFeasible(o);
    LoopReportsFeasible(o, Branching(o), Search(m1, [], 0), fuel);
    ReportOmitsForbidden(Run(o, edges, cities, distance, fuel).value.search.model);
  }
}
