/**
 The distance table and the arithmetic over arc variables that the heuristic, the
 assignment model and the MTZ model share: rows, arcs, the distance lookup, flows of a
 0/1 arc selection, the objective and the reported solution list.
 */
module Graph {
  import opened Results

  /** A city label as it appears in the `origin`/`destination` columns. */
  type City = string

  /** A directed arc, the key `(origin, destination)` of the source's dictionaries. */
  datatype Arc = Arc(origin: City, destination: City)

  /** One row of the distance table. */
  datatype Row = Row(origin: City, destination: City, distance: int) {
    function Key(): Arc {
      Arc(origin, destination)
    }
  }

  /** One `(i, j, v)` entry of a reported solution list. */
  datatype Triple = Triple(origin: City, destination: City, value: int)

  /** The `edges` list: the arc of every row, in table order. */
  function Edges(rows: seq<Row>): seq<Arc> {
    seq(|rows|, k requires 0 <= k < |rows| => rows[k].Key())
  }

  /** The city set: every value of the `destination` column. */
  function Destinations(rows: seq<Row>): set<City> {
    set r | r in rows :: r.destination
  }

  /** A listing of a set in some iteration order, as `list(set(...))` produces. */
  predicate Lists(order: seq<City>, s: set<City>) {
    (forall c | c in order :: c in s) && (forall c | c in s :: c in order) && NoDuplicates(order)
  }

  predicate NoDuplicates<T(==)>(s: seq<T>) {
    forall i, j :: 0 <= i < j < |s| ==> s[i] != s[j]
  }

  /**
   The `distance` dictionary built from `(origin, destination) -> distance` pairs in
   table order: a later row with the same key overwrites an earlier one.
   */
  function Distances(rows: seq<Row>): (d: map<Arc, int>)
    ensures d.Keys == set r | r in rows :: r.Key()
  {
    if |rows| == 0 then map[]
    else
      var last := rows[|rows| - 1];
      assert rows == rows[..|rows| - 1] + [last];
      Distances(rows[..|rows| - 1])[last.Key() := last.distance]
  }

  /** Looking up the key of a row that no later row repeats gives back that row's distance. */
  lemma {:induction false} DistancesRoundTrip(rows: seq<Row>, k: int)
    requires 0 <= k < |rows|
    requires forall j :: k < j < |rows| ==> rows[j].Key() != rows[k].Key()
    ensures rows[k].Key() in Distances(rows)
    ensures Distances(rows)[rows[k].Key()] == rows[k].distance
  {
    if k < |rows| - 1 {
      var init := rows[..|rows| - 1];
      DistancesRoundTrip(init, k);
    }
  }

  /** Sum of a list of numbers. */
  function Sum(xs: seq<int>): int {
    if |xs| == 0 then 0 else Sum(xs[..|xs| - 1]) + xs[|xs| - 1]
  }

  lemma SumAppend(xs: seq<int>, v: int)
    ensures Sum(xs + [v]) == Sum(xs) + v
  {
    assert (xs + [v])[..|xs|] == xs;
  }

  /** The arcs that leave city `c`. */
  function Leaving(c: City): Arc -> bool {
    (a: Arc) => a.origin == c
  }

  /** The arcs that enter city `c`. */
  function Entering(c: City): Arc -> bool {
    (a: Arc) => a.destination == c
  }

  /** `sum(x[(i, j)] for i, j in arcs if keep((i, j)))`: duplicates in `arcs` count twice. */
  function Flow(arcs: seq<Arc>, x: Arc -> int, keep: Arc -> bool): int {
    if |arcs| == 0 then 0
    else (if keep(arcs[0]) then x(arcs[0]) else 0) + Flow(arcs[1..], x, keep)
  }

  /** Every arc variable takes the value 0 or 1 (`binary_var_dict`). */
  predicate Binary(arcs: seq<Arc>, x: Arc -> int) {
    forall a | a in arcs :: x(a) == 0 || x(a) == 1
  }

  /** Position k holds an arc that `keep` admits and `x` selects. */
  predicate Chosen(arcs: seq<Arc>, x: Arc -> int, keep: Arc -> bool, k: int) {
    0 <= k < |arcs| && keep(arcs[k]) && x(arcs[k]) == 1
  }

  lemma {:induction false} FlowNonNegative(arcs: seq<Arc>, x: Arc -> int, keep: Arc -> bool)
    requires forall a | a in arcs && keep(a) :: x(a) >= 0
    ensures Flow(arcs, x, keep) >= 0
  {
    if |arcs| > 0 {
      FlowNonNegative(arcs[1..], x, keep);
    }
  }

  /** With non-negative values, a flow is 0 exactly when every admitted arc has value 0. */
  lemma {:induction false} FlowZero(arcs: seq<Arc>, x: Arc -> int, keep: Arc -> bool)
    requires forall a | a in arcs && keep(a) :: x(a) >= 0
    ensures Flow(arcs, x, keep) == 0 <==> forall k :: 0 <= k < |arcs| && keep(arcs[k]) ==> x(arcs[k]) == 0
  {
    if |arcs| > 0 {
      var rest := arcs[1..];
      FlowZero(rest, x, keep);
      FlowNonNegative(rest, x, keep);
      assert forall k :: 0 <= k < |rest| ==> rest[k] == arcs[k + 1];
      assert (forall k :: 0 <= k < |arcs| && keep(arcs[k]) ==> x(arcs[k]) == 0)
         <==> (keep(arcs[0]) ==> x(arcs[0]) == 0) && (forall k :: 0 <= k < |rest| && keep(rest[k]) ==> x(rest[k]) == 0);
    }
  }

  /** With 0/1 values, a flow of exactly 1 means exactly one position is chosen. */
  lemma {:induction false} FlowOne(arcs: seq<Arc>, x: Arc -> int, keep: Arc -> bool)
    requires Binary(arcs, x)
    requires Flow(arcs, x, keep) == 1
    ensures exists k :: Chosen(arcs, x, keep, k)
    ensures forall i, j :: Chosen(arcs, x, keep, i) && Chosen(arcs, x, keep, j) ==> i == j
  {
    var rest := arcs[1..];
    assert Binary(rest, x);
    FlowNonNegative(rest, x, keep);
    forall k | 0 <= k < |rest|
      ensures Chosen(rest, x, keep, k) <==> Chosen(arcs, x, keep, k + 1)
    {
      assert rest[k] == arcs[k + 1];
    }
    if Chosen(arcs, x, keep, 0) {
      FlowZero(rest, x, keep);
      assert forall i :: Chosen(arcs, x, keep, i) ==> i == 0;
    } else {
      FlowOne(rest, x, keep);
      var k :| Chosen(rest, x, keep, k);
      assert Chosen(arcs, x, keep, k + 1);
      forall i, j | Chosen(arcs, x, keep, i) && Chosen(arcs, x, keep, j)
        ensures i == j
      {
        assert i > 0 && j > 0;
        assert Chosen(rest, x, keep, i - 1) && Chosen(rest, x, keep, j - 1);
      }
    }
  }

  /** With 0/1 values, exactly one chosen position makes the flow exactly 1: the converse of `FlowOne`. */
  lemma {:induction false} OneChosenFlowIsOne(arcs: seq<Arc>, x: Arc -> int, keep: Arc -> bool, k: int)
    requires Binary(arcs, x)
    requires Chosen(arcs, x, keep, k)
    requires forall i :: Chosen(arcs, x, keep, i) ==> i == k
    ensures Flow(arcs, x, keep) == 1
  {
    var rest := arcs[1..];
    assert Binary(rest, x);
    forall i | 0 <= i < |rest|
      ensures Chosen(rest, x, keep, i) <==> Chosen(arcs, x, keep, i + 1)
    {
      assert rest[i] == arcs[i + 1];
    }
    if k == 0 {
      forall i | 0 <= i < |rest| && keep(rest[i])
        ensures x(rest[i]) == 0
      {
        assert rest[i] in arcs;
        assert !Chosen(arcs, x, keep, i + 1);
      }
      FlowZero(rest, x, keep);
    } else {
      assert !Chosen(arcs, x, keep, 0);
      assert keep(arcs[0]) ==> x(arcs[0]) == 0;
      OneChosenFlowIsOne(rest, x, keep, k - 1);
    }
  }

  /**
   The objective `sum(distance[e] * x[e] for e in edges)`; its caller establishes that
   every edge has a distance, since the source raises otherwise.
   */
  function Objective(edges: seq<Arc>, distance: map<Arc, int>, x: Arc -> int): int
    requires forall a | a in edges :: a in distance
  {
    if |edges| == 0 then 0
    else distance[edges[0]] * x(edges[0]) + Objective(edges[1..], distance, x)
  }

  /** Total length of the selected arcs: the distances of the positions whose value is 1. */
  function SelectedLength(edges: seq<Arc>, distance: map<Arc, int>, x: Arc -> int): int
    requires forall a | a in edges :: a in distance
  {
    if |edges| == 0 then 0
    else (if x(edges[0]) == 1 then distance[edges[0]] else 0) + SelectedLength(edges[1..], distance, x)
  }

  /** For a 0/1 selection the objective is the length of the selected arcs. */
  lemma {:induction false} ObjectiveIsSelectedLength(edges: seq<Arc>, distance: map<Arc, int>, x: Arc -> int)
    requires forall a | a in edges :: a in distance
    requires Binary(edges, x)
    ensures Objective(edges, distance, x) == SelectedLength(edges, distance, x)
  {
    if |edges| > 0 {
      assert Binary(edges[1..], x);
      ObjectiveIsSelectedLength(edges[1..], distance, x);
    }
  }

  /** The keys of a dictionary built from `arcs`: first occurrences, in order. */
  function Keys(arcs: seq<Arc>): (ks: seq<Arc>)
    ensures forall a :: a in ks <==> a in arcs
    ensures NoDuplicates(ks)
  {
    if |arcs| == 0 then []
    else
      var init := arcs[..|arcs| - 1];
      var last := arcs[|arcs| - 1];
      assert arcs == init + [last];
      if last in init then Keys(init) else Keys(init) + [last]
  }

  /** The triples `(i, j, v)` of the keys whose value `v` is positive, in key order. */
  function Positive(keys: seq<Arc>, x: Arc -> int): (ts: seq<Triple>)
    ensures forall t :: t in ts <==> exists a :: a in keys && x(a) > 0 && t == Triple(a.origin, a.destination, x(a))
    ensures NoDuplicates(keys) ==> NoDuplicates(ts)
    ensures |ts| <= |keys|
  {
    if |keys| == 0 then []
    else
      var rest := Positive(keys[1..], x);
      var a := keys[0];
      assert forall b :: b in keys <==> b == a || b in keys[1..];
      if x(a) > 0 then
        assert forall t :: t in rest ==> (t.origin, t.destination) != (a.origin, a.destination) || !NoDuplicates(keys);
        [Triple(a.origin, a.destination, x(a))] + rest
      else rest
  }

  /**
   The solution list a solve reports (`lst` in the assignment model, `lst_x` in the MTZ
   model): one triple for each distinct edge whose value is positive.
   */
  function Report(edges: seq<Arc>, x: Arc -> int): (ts: seq<Triple>)
    ensures forall t :: t in ts <==> exists a :: a in edges && x(a) > 0 && t == Triple(a.origin, a.destination, x(a))
    ensures NoDuplicates(ts)
  {
    Positive(Keys(edges), x)
  }
}
