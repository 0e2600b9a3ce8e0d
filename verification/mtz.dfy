/**
 The Miller–Tucker–Zemlin formulation of `TSP.py`: degree constraints with the hometown
 `O` exempt from "one in" and the terminal town `T` exempt from "one out", and an order
 variable `u` per city that must grow by one along every selected arc not entering `O`.
 The formulation is modelled as a validator of a candidate `(x, u)`; the solver is not.
 */
module Mtz {
  import opened Results
  import opened Graph

  /** The hometown: no constraint on the arcs entering it. */
  const Home: City := "O"
  /** The town exempt from the "one arc out" constraint. */
  const Terminus: City := "T"

  datatype MtzModel = MtzModel(edges: seq<Arc>, cities: seq<City>, distance: map<Arc, int>)

  datatype MtzError =
    | UnknownOrder(city: City)   // `u[c]` for a town that is not among the cities
    | EmptyName                  // `c[0]` of an empty town name

  /** The first town an indicator constraint needs an order variable for but has none. */
  function MissingOrder(edges: seq<Arc>, cities: seq<City>): (r: Option<City>)
    ensures r.None? <==> forall a | a in edges && a.destination != Home :: a.origin in cities && a.destination in cities
    ensures r.Some? ==> r.value !in cities
  {
    if |edges| == 0 then None
    else
      var a := edges[0];
      if a.destination != Home && a.origin !in cities then Some(a.origin)
      else if a.destination != Home && a.destination !in cities then Some(a.destination)
      else MissingOrder(edges[1..], cities)
  }

  /**
   Builds the model from the distance table: one variable per row, one order variable per
   destination town. Adding the indicator constraints fails on the first arc not entering
   `O` whose towns lack an order variable.
   */
  function Build(rows: seq<Row>, cities: seq<City>): (r: Result<MtzModel, MtzError>)
    ensures r.Ok? <==> forall a | a in Edges(rows) && a.destination != Home :: a.origin in cities && a.destination in cities
    ensures r.Ok? ==> r.value.edges == Edges(rows) && r.value.cities == cities && r.value.distance == Distances(rows)
    ensures r.Ok? ==> forall a | a in r.value.edges :: a in r.value.distance
    ensures r.Err? ==> r.error.UnknownOrder? && r.error.city !in cities
  {
    var edges := Edges(rows);
    assert forall a | a in edges :: a in Distances(rows) by {
      forall a | a in edges ensures a in Distances(rows) {
        var k :| 0 <= k < |edges| && edges[k] == a;
        assert rows[k].Key() == a;
      }
    }
    match MissingOrder(edges, cities)
    case Some(c) => Err(UnknownOrder(c))
    case None => Ok(MtzModel(edges, cities, Distances(rows)))
  }

  /** Arc `a` is an edge the selection takes. */
  predicate Selected(m: MtzModel, x: Arc -> int, a: Arc) {
    a in m.edges && x(a) == 1
  }

  /** The indicator constraints: a selected arc not entering `O` moves one step up in `u`. */
  predicate Ordered(m: MtzModel, x: Arc -> int, u: City -> real) {
    forall a | a in m.edges && x(a) == 1 && a.destination != Home :: u(a.destination) == u(a.origin) + 1.0
  }

  /** Whether `(x, u)` meets every constraint of the formulation. */
  predicate MtzFeasible(m: MtzModel, x: Arc -> int, u: City -> real) {
    && Binary(m.edges, x)
    && (forall c | c in m.cities :: u(c) >= 0.0)
    && (forall c | c in m.cities && c != Terminus :: Flow(m.edges, x, Leaving(c)) == 1)
    && (forall c | c in m.cities && c != Home :: Flow(m.edges, x, Entering(c)) == 1)
    && Ordered(m, x, u)
  }

  /**
   Every town but `T` leaves along exactly one selected edge, and every town but `O` is
   entered along exactly one.
   */
  lemma DegreeExemptions(m: MtzModel, x: Arc -> int, u: City -> real, c: City)
    requires MtzFeasible(m, x, u)
    requires c in m.cities
    ensures c != Terminus ==> (exists k :: Chosen(m.edges, x, Leaving(c), k)) && forall i, j :: Chosen(m.edges, x, Leaving(c), i) && Chosen(m.edges, x, Leaving(c), j) ==> i == j
    ensures c != Home ==> (exists k :: Chosen(m.edges, x, Entering(c), k)) && forall i, j :: Chosen(m.edges, x, Entering(c), i) && Chosen(m.edges, x, Entering(c), j) ==> i == j
  {
    if c != Terminus {
      FlowOne(m.edges, x, Leaving(c));
    }
    if c != Home {
      FlowOne(m.edges, x, Entering(c));
    }
  }

  /** The arc from the `k`-th town of `cyc` to the next, the last one wrapping round to the first. */
  function Hop(cyc: seq<City>, k: int): Arc
    requires 0 <= k < |cyc|
  {
    Arc(cyc[k], cyc[(k + 1) % |cyc|])
  }

  /** The towns of `cyc`, in order, joined by selected arcs, the last back to the first. */
  predicate SelectedCycle(m: MtzModel, x: Arc -> int, cyc: seq<City>) {
    |cyc| > 0 && forall k | 0 <= k < |cyc| :: Selected(m, x, Hop(cyc, k))
  }

  /** Along a selected path that avoids `O`, the order grows by one per arc. */
  lemma {:induction false} OrderAlongPath(m: MtzModel, x: Arc -> int, u: City -> real, cyc: seq<City>, k: nat)
    requires Ordered(m, x, u)
    requires k < |cyc|
    requires forall i | 0 <= i < k :: Selected(m, x, Arc(cyc[i], cyc[i + 1]))
    requires Home !in cyc
    ensures u(cyc[k]) == u(cyc[0]) + k as real
  {
    if k > 0 {
      OrderAlongPath(m, x, u, cyc, k - 1);
      assert Selected(m, x, Arc(cyc[k - 1], cyc[k]));
    }
  }

  /** A cycle avoiding `O` is a selected path from its first town to its last, plus one more arc back. */
  lemma CycleAsPath(m: MtzModel, x: Arc -> int, u: City -> real, cyc: seq<City>)
    requires Ordered(m, x, u)
    requires SelectedCycle(m, x, cyc)
    requires Home !in cyc
    ensures forall i | 0 <= i < |cyc| - 1 :: Selected(m, x, Arc(cyc[i], cyc[i + 1]))
    ensures u(cyc[0]) == u(cyc[|cyc| - 1]) + 1.0
  {
    var n := |cyc|;
    forall i | 0 <= i < n - 1
      ensures Selected(m, x, Arc(cyc[i], cyc[i + 1]))
    {
      assert (i + 1) % n == i + 1;
      assert Selected(m, x, Hop(cyc, i));
    }
    assert (n - 1 + 1) % n == 0;
    assert Selected(m, x, Hop(cyc, n - 1));
  }

  /**
   No cycle of selected arcs avoids the hometown: the order would have to grow all the way
   round and come back to where it started.
   */
  lemma EveryCycleVisitsHome(m: MtzModel, x: Arc -> int, u: City -> real, cyc: seq<City>)
    requires Ordered(m, x, u)
    requires SelectedCycle(m, x, cyc)
    ensures Home in cyc
  {
    if Home !in cyc {
      CycleAsPath(m, x, u, cyc);
      OrderAlongPath(m, x, u, cyc, |cyc| - 1);
      assert false;
    }
  }

  /** The arc table `df_x`: the positive arcs of the answer, each once. */
  function ArcTable(m: MtzModel, x: Arc -> int): (ts: seq<Triple>)
    ensures forall t :: t in ts <==> exists a :: a in m.edges && x(a) > 0 && t == Triple(a.origin, a.destination, x(a))
    ensures NoDuplicates(ts)
  {
    Report(m.edges, x)
  }

  /** For a feasible answer the arc table lists exactly the selected arcs, each with value 1. */
  lemma ArcTableOfFeasible(m: MtzModel, x: Arc -> int, u: City -> real)
    requires MtzFeasible(m, x, u)
    ensures forall t | t in ArcTable(m, x) :: t.value == 1 && Selected(m, x, Arc(t.origin, t.destination))
    ensures forall a | Selected(m, x, a) :: Triple(a.origin, a.destination, 1) in ArcTable(m, x)
  {
    var ts := ArcTable(m, x);
    forall a | Selected(m, x, a)
      ensures Triple(a.origin, a.destination, 1) in ts
    {
      assert a in m.edges && x(a) > 0;
    }
  }

  /** A row of the visit-order table `df_u`: the first letter of a town and its order value. */
  datatype Visit = Visit(letter: char, order: real)

  /** The visit rows in `u`'s town order; a town with an empty name has no first letter. */
  function VisitRows(cities: seq<City>, u: City -> real): (r: Result<seq<Visit>, MtzError>)
    ensures r.Ok? <==> forall c | c in cities :: |c| > 0
    ensures r.Ok? ==> |r.value| == |cities| && forall i | 0 <= i < |cities| :: r.value[i] == Visit(cities[i][0], u(cities[i]))
    ensures r.Err? ==> r.error == EmptyName
  {
    if |cities| == 0 then Ok([])
    else if |cities[0]| == 0 then Err(EmptyName)
    else
      var rest :- VisitRows(cities[1..], u);
      assert forall c :: c in cities <==> c == cities[0] || c in cities[1..];
      Ok([Visit(cities[0][0], u(cities[0]))] + rest)
  }

  predicate SortedByOrder(vs: seq<Visit>) {
    forall i, j | 0 <= i < j < |vs| :: vs[i].order <= vs[j].order
  }

  /** Places `v` into an already sorted table, after the rows with smaller or equal order. */
  function Insert(v: Visit, vs: seq<Visit>): (r: seq<Visit>)
    requires SortedByOrder(vs)
    ensures SortedByOrder(r)
    ensures multiset(r) == multiset(vs) + multiset{v}
    ensures |r| == |vs| + 1
  {
    if |vs| == 0 then [v]
    else if v.order < vs[0].order then
      SortedCons(v, vs);
      [v] + vs
    else
      var rest := Insert(v, vs[1..]);
      assert vs == [vs[0]] + vs[1..];
      InsertKeepsLowerBound(vs[0].order, v, vs[1..], rest);
      SortedCons(vs[0], rest);
      [vs[0]] + rest
  }

  /** A row no larger than every row of a sorted table can head it. */
  lemma SortedCons(h: Visit, vs: seq<Visit>)
    requires SortedByOrder(vs)
    requires forall i | 0 <= i < |vs| :: h.order <= vs[i].order
    ensures SortedByOrder([h] + vs)
  {
    var r := [h] + vs;
    forall i, j | 0 <= i < j < |r|
      ensures r[i].order <= r[j].order
    {
      assert r[j] == vs[j - 1];
      if i > 0 {
        assert r[i] == vs[i - 1];
      }
    }
  }

  /** A lower bound of the table and of the new row is a lower bound of the result. */
  lemma InsertKeepsLowerBound(b: real, v: Visit, vs: seq<Visit>, r: seq<Visit>)
    requires b <= v.order
    requires forall i | 0 <= i < |vs| :: b <= vs[i].order
    requires multiset(r) == multiset(vs) + multiset{v}
    ensures forall i | 0 <= i < |r| :: b <= r[i].order
  {
    forall i | 0 <= i < |r|
      ensures b <= r[i].order
    {
      assert r[i] in multiset(r);
      if r[i] != v {
        assert r[i] in multiset(vs);
      }
    }
  }

  /**
   `sort_values(by='visit order')`: the rows in ascending order of their value. The source's
   sort is not stable, so the order among equal values is not fixed; this one keeps input order.
   */
  function SortByOrder(vs: seq<Visit>): (r: seq<Visit>)
    ensures SortedByOrder(r)
    ensures multiset(r) == multiset(vs)
  {
    if |vs| == 0 then []
    else
      assert vs == [vs[0]] + vs[1..];
      Insert(vs[0], SortByOrder(vs[1..]))
  }

  /** The visit-order table, sorted, or the empty-name error. */
  function VisitTable(cities: seq<City>, u: City -> real): (r: Result<seq<Visit>, MtzError>)
    ensures r.Ok? <==> forall c | c in cities :: |c| > 0
    ensures r.Ok? ==> SortedByOrder(r.value) && |r.value| == |cities|
    ensures r.Ok? ==> multiset(r.value) == multiset(VisitRows(cities, u).value)
    ensures r.Ok? ==> forall i | 0 <= i < |cities| :: Visit(cities[i][0], u(cities[i])) in r.value
    ensures r.Ok? ==> forall v | v in r.value :: exists i :: 0 <= i < |cities| && v == Visit(cities[i][0], u(cities[i]))
  {
    var rows :- VisitRows(cities, u);
    var sorted := SortByOrder(rows);
    assert forall v :: v in sorted <==> v in rows by {
      forall v ensures v in sorted <==> v in rows {
        assert v in sorted <==> v in multiset(sorted);
        assert v in rows <==> v in multiset(rows);
      }
    }
    assert |sorted| == |multiset(sorted)| == |multiset(rows)| == |rows|;
    Ok(sorted)
  }
}
