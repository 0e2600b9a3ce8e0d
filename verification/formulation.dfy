/**
 The assignment model of `CreateModel`: one 0/1 variable per edge, "one selected arc out"
 and "one selected arc in" per city, batches of "forbidden arc" constraints added by the
 subtour loop, and `solve_model`, which records the objective value and the selected arcs.
 The solver is not modelled: a solve hands back whatever answer the oracle gives.
 */
module Formulation {
  import opened Results
  import opened Graph

  /** A linear constraint of the model, as it is added with `add_constraint`. */
  datatype Constraint =
    | OutDegree(city: City)                   // sum of x over edges leaving city == 1
    | InDegree(city: City)                    // sum of x over edges entering city == 1
    | ForbidOut(city: City, arcs: seq<Arc>)   // sum of x over `arcs` leaving city == 0

  /** The fields of a `CreateModel` object that the loop reads or writes. */
  datatype Model = Model(
    edges: seq<Arc>,
    cities: seq<City>,
    distance: map<Arc, int>,
    removeNodes: Option<seq<Arc>>,
    constraints: seq<Constraint>,
    lst: seq<Triple>,
    lowerBounds: seq<int>)

  /** A solver answer: a value for every arc variable and the objective value it reports. */
  datatype Solution = Solution(x: Arc -> int, objective: int)

  datatype ModelError =
    | RemoveNodesUnset          // iterating `remove_nodes` while it is still None
    | UnknownVariable(arc: Arc) // `self.x[(i, j)]` for an arc that is not an edge
    | UnknownDistance(arc: Arc) // `self.distance[e]` for an edge without a distance
    | NoSolution                // the solver returned no solution

  /** `CreateModel(edges, cities, distance, remove_nodes)`: no constraints, empty lists. */
  function CreateModel(edges: seq<Arc>, cities: seq<City>, distance: map<Arc, int>, removeNodes: Option<seq<Arc>>): Model {
    Model(edges, cities, distance, removeNodes, [], [], [])
  }

  /** Whether the values `x` meet one constraint. */
  predicate Holds(edges: seq<Arc>, x: Arc -> int, c: Constraint) {
    match c
    case OutDegree(city) => Flow(edges, x, Leaving(city)) == 1
    case InDegree(city) => Flow(edges, x, Entering(city)) == 1
    case ForbidOut(city, arcs) => Flow(arcs, x, Leaving(city)) == 0
  }

  /** The values `x` are 0/1 on the edges and meet every constraint added so far. */
  predicate Feasible(m: Model, x: Arc -> int) {
    Binary(m.edges, x) && forall i | 0 <= i < |m.constraints| :: Holds(m.edges, x, m.constraints[i])
  }

  /** The constraints `define_constraints` adds: every "out" constraint, then every "in" constraint. */
  function DegreeBatch(cities: seq<City>): seq<Constraint> {
    seq(|cities|, i requires 0 <= i < |cities| => OutDegree(cities[i]))
      + seq(|cities|, i requires 0 <= i < |cities| => InDegree(cities[i]))
  }

  /** `define_constraints`: appends the degree constraints and changes nothing else. */
  function DefineConstraints(m: Model): (r: Model)
    ensures m.constraints <= r.constraints
    ensures |r.constraints| == |m.constraints| + 2 * |m.cities|
    ensures r.(constraints := m.constraints) == m
  {
    m.(constraints := m.constraints + DegreeBatch(m.cities))
  }

  /** Every city carries both degree constraints. */
  predicate HasDegreeConstraints(m: Model) {
    forall c | c in m.cities :: OutDegree(c) in m.constraints && InDegree(c) in m.constraints
  }

  /** City `c` has exactly one selected edge out and exactly one selected edge in. */
  predicate OneInOneOut(edges: seq<Arc>, x: Arc -> int, c: City) {
    Flow(edges, x, Leaving(c)) == 1 && Flow(edges, x, Entering(c)) == 1
  }

  lemma DegreeBatchAt(cities: seq<City>, i: int)
    requires 0 <= i < |cities|
    ensures |DegreeBatch(cities)| == 2 * |cities|
    ensures DegreeBatch(cities)[i] == OutDegree(cities[i])
    ensures DegreeBatch(cities)[|cities| + i] == InDegree(cities[i])
  {
  }

  /** Under the degree constraints of a model every city has one arc out and one in. */
  lemma DegreeConstraintsHold(m: Model, x: Arc -> int, c: City)
    requires Feasible(m, x)
    requires OutDegree(c) in m.constraints && InDegree(c) in m.constraints
    ensures OneInOneOut(m.edges, x, c)
  {
    var i :| 0 <= i < |m.constraints| && m.constraints[i] == OutDegree(c);
    var j :| 0 <= j < |m.constraints| && m.constraints[j] == InDegree(c);
    assert Holds(m.edges, x, m.constraints[i]);
    assert Holds(m.edges, x, m.constraints[j]);
  }

  /** `define_constraints` gives every city both degree constraints. */
  lemma DefineConstraintsCoversCities(m: Model)
    ensures HasDegreeConstraints(DefineConstraints(m))
  {
    var r := DefineConstraints(m);
    var n := |m.constraints|;
    var k := |m.cities|;
    forall c | c in m.cities
      ensures OutDegree(c) in r.constraints && InDegree(c) in r.constraints
    {
      var i :| 0 <= i < k && m.cities[i] == c;
      DegreeBatchAt(m.cities, i);
      assert r.constraints[n + i] == OutDegree(c);
      assert r.constraints[n + k + i] == InDegree(c);
    }
  }

  /** The constraints of `define_constraints` hold for a selection where every city has one arc out and in. */
  lemma DegreeBatchHolds(m: Model, x: Arc -> int, i: int)
    requires 0 <= i < 2 * |m.cities|
    requires forall c | c in m.cities :: OneInOneOut(m.edges, x, c)
    ensures Holds(m.edges, x, DegreeBatch(m.cities)[i])
  {
    var k := |m.cities|;
    var j := if i < k then i else i - k;
    DegreeBatchAt(m.cities, j);
    assert OneInOneOut(m.edges, x, m.cities[j]);
  }

  /** A selection feasible after `define_constraints` was feasible before and has one arc out and in per city. */
  lemma DegreeFeasibleAfterDefine(m: Model, x: Arc -> int)
    requires Feasible(DefineConstraints(m), x)
    ensures Feasible(m, x) && forall c | c in m.cities :: OneInOneOut(m.edges, x, c)
  {
    var r := DefineConstraints(m);
    DefineConstraintsCoversCities(m);
    FeasibleForLaterIsFeasibleForEarlier(m, r, x);
    forall c | c in m.cities
      ensures OneInOneOut(m.edges, x, c)
    {
      DegreeConstraintsHold(r, x, c);
    }
  }

  /** A feasible selection with one arc out and in per city stays feasible after `define_constraints`. */
  lemma OneInOneOutFeasibleAfterDefine(m: Model, x: Arc -> int)
    requires Feasible(m, x) && forall c | c in m.cities :: OneInOneOut(m.edges, x, c)
    ensures Feasible(DefineConstraints(m), x)
  {
    var r := DefineConstraints(m);
    var n := |m.constraints|;
    forall i | 0 <= i < |r.constraints|
      ensures Holds(m.edges, x, r.constraints[i])
    {
      if i >= n {
        assert r.constraints[i] == DegreeBatch(m.cities)[i - n];
        DegreeBatchHolds(m, x, i - n);
      } else {
        assert r.constraints[i] == m.constraints[i];
      }
    }
  }

  /**
   After `define_constraints` a selection is feasible exactly when it was feasible before
   and every city has exactly one selected arc out and one selected arc in.
   */
  lemma DefineConstraintsMeansOneInOneOut(m: Model, x: Arc -> int)
    ensures HasDegreeConstraints(DefineConstraints(m))
    ensures Feasible(DefineConstraints(m), x) <==>
      Feasible(m, x) && forall c | c in m.cities :: OneInOneOut(m.edges, x, c)
  {
    DefineConstraintsCoversCities(m);
    if Feasible(DefineConstraints(m), x) {
      DegreeFeasibleAfterDefine(m, x);
    }
    if Feasible(m, x) && forall c | c in m.cities :: OneInOneOut(m.edges, x, c) {
      OneInOneOutFeasibleAfterDefine(m, x);
    }
  }

  /** The first arc of `arcs` leaving `c` that is not an edge, if any (`self.x[(i, j)]` raises on it). */
  function UnknownLeaving(edges: seq<Arc>, arcs: seq<Arc>, c: City): (r: Option<Arc>)
    ensures r.None? <==> forall a | a in arcs && a.origin == c :: a in edges
    ensures r.Some? ==> r.value in arcs && r.value.origin == c && r.value !in edges
  {
    if |arcs| == 0 then None
    else if arcs[0].origin == c && arcs[0] !in edges then Some(arcs[0])
    else UnknownLeaving(edges, arcs[1..], c)
  }

  /**
   The constraints `define_subtour_constraints` adds, one per city in order, or the first
   arc whose variable lookup raises.
   */
  function ForbidBatch(edges: seq<Arc>, cities: seq<City>, arcs: seq<Arc>): (r: Result<seq<Constraint>, ModelError>)
    ensures r.Ok? <==> forall a | a in arcs && a.origin in cities :: a in edges
    ensures r.Ok? ==> |r.value| == |cities| && forall i | 0 <= i < |cities| :: r.value[i] == ForbidOut(cities[i], arcs)
    ensures r.Err? ==> r.error.UnknownVariable? && r.error.arc in arcs && r.error.arc.origin in cities && r.error.arc !in edges
  {
    if |cities| == 0 then Ok([])
    else
      match UnknownLeaving(edges, arcs, cities[0])
      case Some(a) => Err(UnknownVariable(a))
      case None =>
        var rest :- ForbidBatch(edges, cities[1..], arcs);
        assert forall c :: c in cities <==> c == cities[0] || c in cities[1..];
        Ok([ForbidOut(cities[0], arcs)] + rest)
  }

  /**
   `define_subtour_constraints`: for every city, the arcs of `remove_nodes` leaving it are
   forced to 0. With no city the loop body never runs, so an unset `remove_nodes` is only
   an error when there are cities.
   */
  function DefineSubtourConstraints(m: Model): (r: Result<Model, ModelError>)
    ensures r.Ok? ==> m.constraints <= r.value.constraints && r.value.(constraints := m.constraints) == m
    ensures r.Ok? ==> |r.value.constraints| == |m.constraints| + |m.cities|
    ensures r.Ok? && |m.cities| > 0 ==>
      && m.removeNodes.Some?
      && forall i | 0 <= i < |m.cities| :: r.value.constraints[|m.constraints| + i] == ForbidOut(m.cities[i], m.removeNodes.value)
    ensures r == Err(RemoveNodesUnset) <==> |m.cities| > 0 && m.removeNodes.None?
  {
    if |m.cities| == 0 then Ok(m)
    else
      match m.removeNodes
      case None => Err(RemoveNodesUnset)
      case Some(arcs) =>
        var batch :- ForbidBatch(m.edges, m.cities, arcs);
        Ok(m.(constraints := m.constraints + batch))
  }

  /** Every forbid constraint names only edges among the arcs it constrains. */
  predicate ForbidsOnlyEdges(m: Model) {
    forall i | 0 <= i < |m.constraints| && m.constraints[i].ForbidOut? ::
      forall a | a in m.constraints[i].arcs && a.origin == m.constraints[i].city :: a in m.edges
  }

  /** Appending a forbid constraint per city, over arcs that are all edges, keeps `ForbidsOnlyEdges`. */
  lemma AppendForbidsKeepsOnlyEdges(m: Model, batch: seq<Constraint>, arcs: seq<Arc>)
    requires ForbidsOnlyEdges(m)
    requires |batch| == |m.cities| && forall i | 0 <= i < |batch| :: batch[i] == ForbidOut(m.cities[i], arcs)
    requires forall a | a in arcs && a.origin in m.cities :: a in m.edges
    ensures ForbidsOnlyEdges(m.(constraints := m.constraints + batch))
  {
    var r := m.(constraints := m.constraints + batch);
    var n := |m.constraints|;
    forall i | 0 <= i < |r.constraints| && r.constraints[i].ForbidOut?
      ensures forall a | a in r.constraints[i].arcs && a.origin == r.constraints[i].city :: a in r.edges
    {
      if i < n {
        assert r.constraints[i] == m.constraints[i];
      } else {
        assert r.constraints[i] == batch[i - n];
        assert m.cities[i - n] in m.cities;
      }
    }
  }

  /** `define_subtour_constraints` only forbids arcs whose variables exist, so it keeps `ForbidsOnlyEdges`. */
  lemma SubtourConstraintsKeepForbidsOnlyEdges(m: Model)
    requires DefineSubtourConstraints(m).Ok?
    requires ForbidsOnlyEdges(m)
    ensures ForbidsOnlyEdges(DefineSubtourConstraints(m).value)
  {
    if |m.cities| > 0 {
      var arcs := m.removeNodes.value;
      var batch := ForbidBatch(m.edges, m.cities, arcs).value;
      assert DefineSubtourConstraints(m).value == m.(constraints := m.constraints + batch);
      AppendForbidsKeepsOnlyEdges(m, batch, arcs);
    }
  }

  /** A selection meeting a forbid constraint of city `c` gives 0 to every edge of it leaving `c`. */
  lemma ForbidOutHolds(edges: seq<Arc>, x: Arc -> int, c: City, arcs: seq<Arc>)
    requires Binary(edges, x)
    requires forall a | a in arcs && a.origin == c :: a in edges
    ensures Holds(edges, x, ForbidOut(c, arcs)) <==> forall a | a in arcs && a.origin == c :: x(a) == 0
  {
    FlowZero(arcs, x, Leaving(c));
  }

  /** Appending a forbid constraint per city: feasible after exactly when feasible before with the arcs at 0. */
  lemma AppendForbidsForceZero(m: Model, batch: seq<Constraint>, arcs: seq<Arc>, x: Arc -> int)
    requires |batch| == |m.cities| && forall i | 0 <= i < |batch| :: batch[i] == ForbidOut(m.cities[i], arcs)
    requires forall a | a in arcs && a.origin in m.cities :: a in m.edges
    ensures Feasible(m.(constraints := m.constraints + batch), x) <==>
      && Feasible(m, x)
      && forall a | a in arcs && a.origin in m.cities :: x(a) == 0
  {
    var r := m.(constraints := m.constraints + batch);
    var n := |m.constraints|;
    if Feasible(r, x) {
      forall i | 0 <= i < n
        ensures Holds(m.edges, x, m.constraints[i])
      {
        assert r.constraints[i] == m.constraints[i];
      }
      forall a | a in arcs && a.origin in m.cities
        ensures x(a) == 0
      {
        var i :| 0 <= i < |m.cities| && m.cities[i] == a.origin;
        assert r.constraints[n + i] == ForbidOut(a.origin, arcs);
        ForbidOutHolds(m.edges, x, a.origin, arcs);
      }
    }
    if Feasible(m, x) && forall a | a in arcs && a.origin in m.cities :: x(a) == 0 {
      forall i | 0 <= i < |r.constraints|
        ensures Holds(m.edges, x, r.constraints[i])
      {
        if i >= n {
          assert r.constraints[i] == ForbidOut(m.cities[i - n], arcs);
          assert m.cities[i - n] in m.cities;
          ForbidOutHolds(m.edges, x, m.cities[i - n], arcs);
        } else {
          assert r.constraints[i] == m.constraints[i];
        }
      }
    }
  }

  /**
   After `define_subtour_constraints` a selection is feasible exactly when it was feasible
   before and gives 0 to every arc of `remove_nodes` that leaves a city.
   */
  lemma SubtourConstraintsForceArcsToZero(m: Model, x: Arc -> int)
    requires DefineSubtourConstraints(m).Ok?
    requires m.removeNodes.Some?
    ensures Feasible(DefineSubtourConstraints(m).value, x) <==>
      && Feasible(m, x)
      && forall a | a in m.removeNodes.value && a.origin in m.cities :: x(a) == 0
  {
    var arcs := m.removeNodes.value;
    if |m.cities| > 0 {
      var batch := ForbidBatch(m.edges, m.cities, arcs).value;
      assert DefineSubtourConstraints(m).value == m.(constraints := m.constraints + batch);
      AppendForbidsForceZero(m, batch, arcs, x);
    } else {
      assert DefineSubtourConstraints(m).value == m;
    }
  }

  /** The first edge without a distance, if any (`self.distance[e]` raises on it). */
  function MissingDistance(edges: seq<Arc>, distance: map<Arc, int>): (r: Option<Arc>)
    ensures r.None? <==> forall a | a in edges :: a in distance
    ensures r.Some? ==> r.value in edges && r.value !in distance
  {
    if |edges| == 0 then None
    else if edges[0] !in distance then Some(edges[0])
    else MissingDistance(edges[1..], distance)
  }

  /**
   `solve_model`: builds the objective, asks the solver, appends the reported objective
   value to `lower_bound_lst` and replaces `lst` with the positive arcs of the answer.
   */
  function SolveModel(m: Model, answer: Option<Solution>): (r: Result<Model, ModelError>)
    ensures r.Ok? <==> answer.Some? && forall a | a in m.edges :: a in m.distance
    ensures r.Ok? ==>
      && r.value.lowerBounds == m.lowerBounds + [answer.value.objective]
      && (forall t :: t in r.value.lst <==> exists a :: a in m.edges && answer.value.x(a) > 0 && t == Triple(a.origin, a.destination, answer.value.x(a)))
      && NoDuplicates(r.value.lst)
      && r.value.(lst := m.lst, lowerBounds := m.lowerBounds) == m
  {
    match MissingDistance(m.edges, m.distance)
    case Some(a) => Err(UnknownDistance(a))
    case None =>
      match answer
      case None => Err(NoSolution)
      case Some(sol) => Ok(m.(lowerBounds := m.lowerBounds + [sol.objective], lst := Report(m.edges, sol.x)))
  }

  /**
   What the solver is trusted to return for a model: nothing, or values that meet every
   constraint together with the objective value of those values.
   */
  predicate Sound(m: Model, answer: Option<Solution>) {
    answer.Some? ==>
      && Feasible(m, answer.value.x)
      && ((forall a | a in m.edges :: a in m.distance) ==> answer.value.objective == Objective(m.edges, m.distance, answer.value.x))
  }

  /** `lst` reports a feasible selection of the model's current constraints. */
  ghost predicate ReportsFeasible(m: Model) {
    exists x :: Feasible(m, x) && m.lst == Report(m.edges, x)
  }

  /**
   A solve with a sound answer reports a feasible selection, and the value it appends to
   `lower_bound_lst` is the length of the selected arcs.
   */
  lemma SoundSolveReportsFeasibleSelection(m: Model, answer: Option<Solution>)
    requires Sound(m, answer)
    requires SolveModel(m, answer).Ok?
    ensures ReportsFeasible(SolveModel(m, answer).value)
    ensures var r := SolveModel(m, answer).value;
      r.lowerBounds[|r.lowerBounds| - 1] == SelectedLength(m.edges, m.distance, answer.value.x)
  {
    var x := answer.value.x;
    var r := SolveModel(m, answer).value;
    assert Feasible(r, x) && r.lst == Report(r.edges, x);
    ObjectiveIsSelectedLength(m.edges, m.distance, x);
  }

  /**
   Constraints are only ever appended, so a selection feasible for a later model is
   feasible for every earlier one.
   */
  lemma FeasibleForLaterIsFeasibleForEarlier(earlier: Model, later: Model, x: Arc -> int)
    requires earlier.edges == later.edges
    requires earlier.constraints <= later.constraints
    requires Feasible(later, x)
    ensures Feasible(earlier, x)
  {
    forall i | 0 <= i < |earlier.constraints|
      ensures Holds(earlier.edges, x, earlier.constraints[i])
    {
      assert earlier.constraints[i] == later.constraints[i];
    }
  }

  /** Arc `a` is forced to 0 by some forbid constraint already in the model. */
  predicate Forbidden(m: Model, a: Arc) {
    exists i :: 0 <= i < |m.constraints| && m.constraints[i].ForbidOut? && a in m.constraints[i].arcs && a.origin == m.constraints[i].city
  }

  /** Every arc forbidden by any constraint added so far is 0 in every feasible selection. */
  lemma ForbiddenArcsStayZero(m: Model, x: Arc -> int, a: Arc)
    requires ForbidsOnlyEdges(m)
    requires Feasible(m, x)
    requires Forbidden(m, a)
    ensures x(a) == 0
  {
    var i :| 0 <= i < |m.constraints| && m.constraints[i].ForbidOut? && a in m.constraints[i].arcs && a.origin == m.constraints[i].city;
    var con := m.constraints[i];
    assert Holds(m.edges, x, con);
    FlowZero(con.arcs, x, Leaving(con.city));
    var k :| 0 <= k < |con.arcs| && con.arcs[k] == a;
  }

  /** A reported feasible selection never lists an arc that a forbid constraint of the model names. */
  lemma ReportOmitsForbidden(m: Model)
    requires ReportsFeasible(m) && ForbidsOnlyEdges(m)
    ensures forall t, a | t in m.lst && Forbidden(m, a) :: Arc(t.origin, t.destination) != a
  {
    var x :| Feasible(m, x) && m.lst == Report(m.edges, x);
    forall t, a | t in m.lst && Forbidden(m, a)
      ensures Arc(t.origin, t.destination) != a
    {
      ForbiddenArcsStayZero(m, x, a);
      var b :| b in m.edges && x(b) > 0 && t == Triple(b.origin, b.destination, x(b));
      assert Arc(t.origin, t.destination) == b;
    }
  }

  /** The position of the first selected edge leaving `c`, if any. */
  function SuccessorIndex(edges: seq<Arc>, x: Arc -> int, c: City): (r: Option<nat>)
    ensures r.None? <==> forall k :: 0 <= k < |edges| ==> !Chosen(edges, x, Leaving(c), k)
    ensures r.Some? ==> Chosen(edges, x, Leaving(c), r.value)
    ensures r.Some? ==> forall k :: 0 <= k < r.value ==> !Chosen(edges, x, Leaving(c), k)
  {
    if |edges| == 0 then None
    else
      var rest := SuccessorIndex(edges[1..], x, c);
      assert forall k :: 0 < k < |edges| ==> (Chosen(edges, x, Leaving(c), k) <==> Chosen(edges[1..], x, Leaving(c), k - 1));
      if Chosen(edges, x, Leaving(c), 0) then Some(0)
      else if rest.None? then None
      else
        assert Chosen(edges, x, Leaving(c), rest.value + 1);
        Some(rest.value + 1)
  }

  /** The city a selection moves to from `c`: the destination of its selected outgoing edge. */
  function Successor(edges: seq<Arc>, x: Arc -> int, c: City): Option<City> {
    match SuccessorIndex(edges, x, c)
    case None => None
    case Some(k) => Some(edges[k].destination)
  }

  /** The conditions under which a selection picks one successor per city. */
  predicate DegreeFeasible(m: Model, x: Arc -> int) {
    && HasDegreeConstraints(m)
    && Feasible(m, x)
    && forall a | a in m.edges :: a.origin in m.cities && a.destination in m.cities
  }

  lemma SuccessorDefined(m: Model, x: Arc -> int, c: City)
    requires DegreeFeasible(m, x)
    requires c in m.cities
    ensures Successor(m.edges, x, c).Some? && Successor(m.edges, x, c).value in m.cities
  {
    DegreeConstraintsHold(m, x, c);
    FlowOne(m.edges, x, Leaving(c));
    var k := SuccessorIndex(m.edges, x, c).value;
    assert m.edges[k] in m.edges;
  }

  lemma SuccessorInjective(m: Model, x: Arc -> int, a: City, b: City)
    requires DegreeFeasible(m, x)
    requires a in m.cities && b in m.cities
    requires Successor(m.edges, x, a) == Successor(m.edges, x, b)
    ensures a == b
  {
    SuccessorDefined(m, x, a);
    SuccessorDefined(m, x, b);
    var ka := SuccessorIndex(m.edges, x, a).value;
    var kb := SuccessorIndex(m.edges, x, b).value;
    var d := m.edges[ka].destination;
    assert m.edges[ka] in m.edges;
    DegreeConstraintsHold(m, x, d);
    FlowOne(m.edges, x, Entering(d));
    assert Chosen(m.edges, x, Entering(d), ka) && Chosen(m.edges, x, Entering(d), kb);
  }

  lemma SuccessorOnto(m: Model, x: Arc -> int, d: City)
    requires DegreeFeasible(m, x)
    requires d in m.cities
    ensures exists c :: c in m.cities && Successor(m.edges, x, c) == Some(d)
  {
    DegreeConstraintsHold(m, x, d);
    FlowOne(m.edges, x, Entering(d));
    var k :| Chosen(m.edges, x, Entering(d), k);
    var c := m.edges[k].origin;
    assert m.edges[k] in m.edges;
    DegreeConstraintsHold(m, x, c);
    FlowOne(m.edges, x, Leaving(c));
    assert Chosen(m.edges, x, Leaving(c), k);
    assert SuccessorIndex(m.edges, x, c) == Some(k);
  }

  lemma AllSuccessorsDefined(m: Model, x: Arc -> int)
    requires DegreeFeasible(m, x)
    ensures forall c | c in m.cities :: Successor(m.edges, x, c).Some? && Successor(m.edges, x, c).value in m.cities
  {
    forall c | c in m.cities
      ensures Successor(m.edges, x, c).Some? && Successor(m.edges, x, c).value in m.cities
    {
      SuccessorDefined(m, x, c);
    }
  }

  lemma AllSuccessorsInjective(m: Model, x: Arc -> int)
    requires DegreeFeasible(m, x)
    ensures forall a, b | a in m.cities && b in m.cities && Successor(m.edges, x, a) == Successor(m.edges, x, b) :: a == b
  {
    forall a, b | a in m.cities && b in m.cities && Successor(m.edges, x, a) == Successor(m.edges, x, b)
      ensures a == b
    {
      SuccessorInjective(m, x, a, b);
    }
  }

  lemma AllSuccessorsOnto(m: Model, x: Arc -> int)
    requires DegreeFeasible(m, x)
    ensures forall d | d in m.cities :: exists c :: c in m.cities && Successor(m.edges, x, c) == Some(d)
  {
    forall d | d in m.cities
      ensures exists c :: c in m.cities && Successor(m.edges, x, c) == Some(d)
    {
      SuccessorOnto(m, x, d);
    }
  }

  /**
   With the degree constraints in place, a feasible selection over edges between cities
   defines a successor for every city, and the successor map is a bijection on the cities.
   */
  lemma DegreeFeasibleIsPermutation(m: Model, x: Arc -> int)
    requires DegreeFeasible(m, x)
    ensures forall c | c in m.cities :: Successor(m.edges, x, c).Some? && Successor(m.edges, x, c).value in m.cities
    ensures forall a, b | a in m.cities && b in m.cities && Successor(m.edges, x, a) == Successor(m.edges, x, b) :: a == b
    ensures forall d | d in m.cities :: exists c :: c in m.cities && Successor(m.edges, x, c) == Some(d)
  {
    AllSuccessorsDefined(m, x);
    AllSuccessorsInjective(m, x);
    AllSuccessorsOnto(m, x);
  }
}
