/**
 The greedy nearest-neighbour tour builder (`AddHeuristicTSP`): from a start city it
 repeatedly takes the cheapest row to a still-unvisited city, then closes the tour with a
 "last mile" lookup; `final_df` runs it once per city and keeps the shortest tour.
 */
module Heuristic {
  import opened Results
  import opened Graph

  /** What the source raises instead of returning a tour. */
  datatype HeuristicError =
    | EmptyCityList              // `pop(0)` on an empty city list
    | NoCandidate(city: City)    // `idxmin` over no row from `city` to an unvisited city
    | MissingLastMile(key: Arc)  // the closing-leg key is not in the distance dictionary

  /** A finished tour: the cities in order, the leg lengths (first entry 0) and their total. */
  datatype Tour = Tour(cities: seq<City>, legs: seq<int>, total: int)

  /** The loop state of `find_subtour`. */
  datatype Walk = Walk(current: City, unvisited: seq<City>, tour: seq<City>, legs: seq<int>, total: int)

  /** Row k leaves `current` for a city still in `unvisited` (the rows of `df2`). */
  predicate IsCandidate(rows: seq<Row>, current: City, unvisited: seq<City>, k: int) {
    0 <= k < |rows| && rows[k].origin == current && rows[k].destination in unvisited
  }

  /**
   Row k is what `idxmin` returns among the candidates in rows[..n]: its distance is
   at most every candidate's, and strictly below that of every earlier candidate.
   */
  predicate IsNearestIn(rows: seq<Row>, current: City, unvisited: seq<City>, n: int, k: int) {
    && k < n
    && IsCandidate(rows, current, unvisited, k)
    && forall j :: 0 <= j < n && IsCandidate(rows, current, unvisited, j) ==>
         rows[k].distance <= rows[j].distance && (j < k ==> rows[k].distance < rows[j].distance)
  }

  /** The index `idxmin` picks among the candidates in rows[..n], if there is one. */
  function NearestIn(rows: seq<Row>, current: City, unvisited: seq<City>, n: nat): (r: Option<nat>)
    requires n <= |rows|
    ensures r.None? <==> forall j :: 0 <= j < n ==> !IsCandidate(rows, current, unvisited, j)
    ensures r.Some? ==> IsNearestIn(rows, current, unvisited, n, r.value)
  {
    if n == 0 then None
    else
      var best := NearestIn(rows, current, unvisited, n - 1);
      if IsCandidate(rows, current, unvisited, n - 1)
         && (best.None? || rows[n - 1].distance < rows[best.value].distance)
      then Some(n - 1)
      else best
  }

  /** `list.index` followed by `pop`: removes the first occurrence of `c`. */
  function Remove(s: seq<City>, c: City): (r: seq<City>)
    requires c in s
    ensures |r| == |s| - 1
    ensures multiset(r) == multiset(s) - multiset{c}
  {
    var i := IndexOf(s, c);
    assert s == s[..i] + [s[i]] + s[i + 1..];
    s[..i] + s[i + 1..]
  }

  function IndexOf(s: seq<City>, c: City): (i: nat)
    requires c in s
    ensures i < |s| && s[i] == c
  {
    if s[0] == c then 0 else 1 + IndexOf(s[1..], c)
  }

  /** One iteration of the `while` loop of `find_subtour`. */
  function Step(rows: seq<Row>, w: Walk): (r: Result<Walk, HeuristicError>)
    requires |w.unvisited| > 0
    ensures r.Err? <==> forall j :: 0 <= j < |rows| ==> !IsCandidate(rows, w.current, w.unvisited, j)
    ensures r.Err? ==> r.error == NoCandidate(w.current)
    ensures r.Ok? ==>
      && r.value.tour == w.tour + [r.value.current]
      && |r.value.legs| == |w.legs| + 1
      && r.value.legs[..|w.legs|] == w.legs
      && r.value.total == w.total + r.value.legs[|w.legs|]
      && multiset(r.value.unvisited) == multiset(w.unvisited) - multiset{r.value.current}
      && |r.value.unvisited| == |w.unvisited| - 1
  {
    match NearestIn(rows, w.current, w.unvisited, |rows|)
    case None => Err(NoCandidate(w.current))
    case Some(k) =>
      var next := rows[k].destination;
      assert (w.legs + [rows[k].distance])[..|w.legs|] == w.legs;
      Ok(Walk(next, Remove(w.unvisited, next), w.tour + [next], w.legs + [rows[k].distance], w.total + rows[k].distance))
  }

  /**
   A successful step takes the row `idxmin` picks: the first row of least distance among
   those leaving the current city for an unvisited one.
   */
  lemma StepTakesNearestRow(rows: seq<Row>, w: Walk)
    requires |w.unvisited| > 0
    requires Step(rows, w).Ok?
    ensures exists k :: IsNearestIn(rows, w.current, w.unvisited, |rows|, k)
                        && Step(rows, w).value.current == rows[k].destination
                        && Step(rows, w).value.legs == w.legs + [rows[k].distance]
  {
    var k := NearestIn(rows, w.current, w.unvisited, |rows|).value;
    assert IsNearestIn(rows, w.current, w.unvisited, |rows|, k);
  }

  /** The `while len(cities_unvisited) > 0` loop: steps until no city is left unvisited. */
  function Loop(rows: seq<Row>, w: Walk): (r: Result<Walk, HeuristicError>)
    decreases |w.unvisited|
    ensures r.Ok? ==> r.value.unvisited == [] && |r.value.tour| >= |w.tour|
    ensures r.Err? ==> r.error.NoCandidate?
  {
    if |w.unvisited| == 0 then Ok(w)
    else
      var w' :- Step(rows, w);
      Loop(rows, w')
  }

  /** A sequence that starts with `a + [x]` starts with `a`, and continues with `x`. */
  lemma SplitAfterPrefix<T>(v: seq<T>, a: seq<T>, x: T)
    requires |a| < |v| && v[..|a| + 1] == a + [x]
    ensures v[..|a|] == a
    ensures v[|a|..] == [x] + v[|a| + 1..]
  {
    assert v[..|a|] == v[..|a| + 1][..|a|];
  }

  /** The loop appends one city per unvisited city, and the new cities are exactly the unvisited ones. */
  lemma {:induction false} LoopExtendsTour(rows: seq<Row>, w: Walk)
    requires Loop(rows, w).Ok?
    ensures var v := Loop(rows, w).value;
      && |v.tour| == |w.tour| + |w.unvisited|
      && v.tour[..|w.tour|] == w.tour
      && multiset(v.tour[|w.tour|..]) == multiset(w.unvisited)
    decreases |w.unvisited|
  {
    if |w.unvisited| > 0 {
      var w' := Step(rows, w).value;
      LoopExtendsTour(rows, w');
      var v := Loop(rows, w').value;
      assert v == Loop(rows, w).value;
      var next := w'.current;
      SplitAfterPrefix(v.tour, w.tour, next);
      assert multiset(w.unvisited) == multiset(w'.unvisited) + multiset{next};
    }
  }

  /** The loop appends one leg per unvisited city and keeps the total equal to the sum of the legs. */
  lemma {:induction false} LoopExtendsLegs(rows: seq<Row>, w: Walk)
    requires Loop(rows, w).Ok?
    ensures var v := Loop(rows, w).value;
      && |v.legs| == |w.legs| + |w.unvisited|
      && v.legs[..|w.legs|] == w.legs
      && v.total - Sum(v.legs) == w.total - Sum(w.legs)
    decreases |w.unvisited|
  {
    if |w.unvisited| > 0 {
      var w' := Step(rows, w).value;
      LoopExtendsLegs(rows, w');
      var v := Loop(rows, w').value;
      assert v == Loop(rows, w).value;
      var leg := w'.legs[|w.legs|];
      assert w'.legs == w.legs + [leg];
      SumAppend(w.legs, leg);
      SplitAfterPrefix(v.legs, w.legs, leg);
    }
  }

  /**
   `find_subtour`: the head of the city list is dropped (not necessarily the start city),
   the loop visits the rest, and the closing leg is looked up under `(start, last)`.
   */
  function FindSubtour(rows: seq<Row>, cities: seq<City>, start: City): (r: Result<Tour, HeuristicError>)
    ensures r == Err(EmptyCityList) <==> |cities| == 0
    ensures r.Err? && r.error.MissingLastMile? ==>
      r.error.key.origin == start && r.error.key !in Distances(rows)
  {
    if |cities| == 0 then Err(EmptyCityList)
    else
      var w :- Loop(rows, Walk(start, cities[1..], [start], [0], 0));
      Close(rows, start, w)
  }

  /** The "last mile": the closing leg is looked up under (start, last city), then appended. */
  function Close(rows: seq<Row>, start: City, w: Walk): (r: Result<Tour, HeuristicError>)
    requires |w.tour| > 0
    ensures r.Ok? <==> Arc(start, w.tour[|w.tour| - 1]) in Distances(rows)
    ensures r.Ok? ==>
      var leg := Distances(rows)[Arc(start, w.tour[|w.tour| - 1])];
      && r.value.cities == w.tour + [start]
      && r.value.legs == w.legs + [leg]
      && r.value.total == w.total + leg
    ensures r.Err? ==> r.error == MissingLastMile(Arc(start, w.tour[|w.tour| - 1]))
  {
    var key := Arc(start, w.tour[|w.tour| - 1]);
    var d := Distances(rows);
    if key !in d then Err(MissingLastMile(key))
    else Ok(Tour(w.tour + [start], w.legs + [d[key]], w.total + d[key]))
  }

  /** A successful `find_subtour` is the loop's walk closed by the (start, last) leg. */
  lemma FindSubtourUnfolds(rows: seq<Row>, cities: seq<City>, start: City)
    requires FindSubtour(rows, cities, start).Ok?
    ensures |cities| > 0
    ensures var w0 := Walk(start, cities[1..], [start], [0], 0);
      && Loop(rows, w0).Ok?
      && |Loop(rows, w0).value.tour| > 0
      && FindSubtour(rows, cities, start) == Close(rows, start, Loop(rows, w0).value)
  {
  }

  /**
   A missing closing leg is reported under (start, last city the loop reached): the start
   city itself when the list has one entry, otherwise one of the cities after the head.
   */
  lemma MissingLastMileKey(rows: seq<Row>, cities: seq<City>, start: City)
    requires FindSubtour(rows, cities, start).Err? && FindSubtour(rows, cities, start).error.MissingLastMile?
    ensures var key := FindSubtour(rows, cities, start).error.key;
      && key.origin == start
      && key !in Distances(rows)
      && (|cities| == 1 ==> key.destination == start)
      && (|cities| > 1 ==> key.destination in cities[1..])
  {
    var w0 := Walk(start, cities[1..], [start], [0], 0);
    assert Loop(rows, w0).Ok?;
    var w := Loop(rows, w0).value;
    assert FindSubtour(rows, cities, start) == Close(rows, start, w);
    LoopExtendsTour(rows, w0);
    LastOfWalk(w.tour, start, cities[1..]);
  }

  /** The last city of a walk from `start` over `rest` is `start` when `rest` is empty, otherwise a city of `rest`. */
  lemma LastOfWalk(v: seq<City>, start: City, rest: seq<City>)
    requires |v| == 1 + |rest| && v[..1] == [start] && multiset(v[1..]) == multiset(rest)
    ensures |rest| == 0 ==> v[|v| - 1] == start
    ensures |rest| > 0 ==> v[|v| - 1] in rest
  {
    var n := |v|;
    if |rest| == 0 {
      assert v[n - 1] == v[..1][0];
    } else {
      assert v[n - 1] in v[1..];
      assert v[n - 1] in multiset(v[1..]);
    }
  }

  /**
   A tour `find_subtour` returns starts and ends at the start city, and in between visits
   exactly the cities after the head of the list, each as often as it is listed there.
   */
  lemma FindSubtourCities(rows: seq<Row>, cities: seq<City>, start: City)
    requires FindSubtour(rows, cities, start).Ok?
    ensures var t := FindSubtour(rows, cities, start).value.cities;
      && |t| == |cities| + 1
      && t[0] == start
      && t[|t| - 1] == start
      && multiset(t[1..|t| - 1]) == multiset(cities[1..])
  {
    FindSubtourUnfolds(rows, cities, start);
    var w0 := Walk(start, cities[1..], [start], [0], 0);
    LoopExtendsTour(rows, w0);
    var w := Loop(rows, w0).value;
    assert FindSubtour(rows, cities, start).value.cities == w.tour + [start];
    Closed(w.tour, start, cities[1..]);
  }

  /** A walk from `start` over `rest`, followed by `start` again, starts and ends at `start`. */
  lemma Closed(v: seq<City>, start: City, rest: seq<City>)
    requires |v| == 1 + |rest| && v[..1] == [start] && multiset(v[1..]) == multiset(rest)
    ensures var t := v + [start];
      && |t| == |rest| + 2
      && t[0] == start
      && t[|t| - 1] == start
      && multiset(t[1..|t| - 1]) == multiset(rest)
  {
    var t := v + [start];
    assert t[0] == v[..1][0];
    assert t[1..|t| - 1] == v[1..];
  }

  /**
   The leg list of a tour has one entry per tour entry, starts with 0, sums to the total,
   and ends with the distance stored under (start, last city before the return).
   */
  lemma FindSubtourLegs(rows: seq<Row>, cities: seq<City>, start: City)
    requires FindSubtour(rows, cities, start).Ok?
    ensures var t := FindSubtour(rows, cities, start).value;
      var n := |t.cities|;
      && n >= 2
      && |t.legs| == n
      && t.legs[0] == 0
      && t.total == Sum(t.legs)
      && Arc(start, t.cities[n - 2]) in Distances(rows)
      && t.legs[n - 1] == Distances(rows)[Arc(start, t.cities[n - 2])]
  {
    FindSubtourUnfolds(rows, cities, start);
    var w0 := Walk(start, cities[1..], [start], [0], 0);
    LoopExtendsTour(rows, w0);
    LoopExtendsLegs(rows, w0);
    var w := Loop(rows, w0).value;
    var key := Arc(start, w.tour[|w.tour| - 1]);
    assert FindSubtour(rows, cities, start).value == Tour(w.tour + [start], w.legs + [Distances(rows)[key]], w.total + Distances(rows)[key]);
    SumAppend(w.legs, Distances(rows)[key]);
    assert w.legs[..1] == [0];
  }

  /** With no repeated city, each listed city is counted once. */
  lemma {:induction false} DistinctCounts<T>(s: seq<T>)
    ensures NoDuplicates(s) <==> forall x :: multiset(s)[x] <= 1
  {
    if |s| > 0 {
      var rest := s[1..];
      DistinctCounts(rest);
      assert s == [s[0]] + rest;
      assert multiset(s) == multiset{s[0]} + multiset(rest);
      if NoDuplicates(s) {
        assert NoDuplicates(rest) by {
          forall i, j | 0 <= i < j < |rest| ensures rest[i] != rest[j] {
            assert rest[i] == s[i + 1] && rest[j] == s[j + 1];
          }
        }
        assert s[0] !in rest by {
          forall i | 0 <= i < |rest| ensures rest[i] != s[0] {
            assert rest[i] == s[i + 1];
          }
        }
      } else {
        var i, j :| 0 <= i < j < |s| && s[i] == s[j];
        var x := s[i];
        if i == 0 {
          assert rest[j - 1] == x;
          assert multiset(s)[x] >= 2;
        } else {
          assert rest[i - 1] == x && rest[j - 1] == x;
          assert !NoDuplicates(rest);
          var y :| multiset(rest)[y] > 1;
          assert multiset(s)[y] > 1;
        }
      }
    }
  }

  /**
   When the head of the city list is the start city and no city is listed twice, the
   tour visits every other city exactly once before it returns to the start.
   */
  lemma HeadIsStartVisitsEveryOtherCityOnce(rows: seq<Row>, cities: seq<City>, start: City)
    requires |cities| > 0 && cities[0] == start && NoDuplicates(cities)
    requires FindSubtour(rows, cities, start).Ok?
    ensures var t := FindSubtour(rows, cities, start).value.cities;
      && |t| == |cities| + 1
      && NoDuplicates(t[1..|t| - 1])
      && (forall c :: c in t[1..|t| - 1] <==> c in cities && c != start)
  {
    FindSubtourCities(rows, cities, start);
    var t := FindSubtour(rows, cities, start).value.cities;
    PermutationOfTail(t[1..|t| - 1], cities);
  }

  /** A permutation of the tail of a list without repeats lists every city but the head once. */
  lemma PermutationOfTail(inner: seq<City>, cities: seq<City>)
    requires |cities| > 0 && NoDuplicates(cities)
    requires multiset(inner) == multiset(cities[1..])
    ensures NoDuplicates(inner)
    ensures forall c :: c in inner <==> c in cities && c != cities[0]
  {
    var rest := cities[1..];
    assert cities == [cities[0]] + rest;
    assert NoDuplicates(rest) by {
      forall i, j | 0 <= i < j < |rest| ensures rest[i] != rest[j] {
        assert rest[i] == cities[i + 1] && rest[j] == cities[j + 1];
      }
    }
    assert cities[0] !in rest by {
      forall i | 0 <= i < |rest| ensures rest[i] != cities[0] {
        assert rest[i] == cities[i + 1];
      }
    }
    DistinctCounts(rest);
    DistinctCounts(inner);
    forall c ensures c in inner <==> c in cities && c != cities[0] {
      assert c in inner <==> c in multiset(inner);
      assert c in rest <==> c in multiset(rest);
    }
  }

  /**
   When the head of the city list is not the start city, the initial `pop(0)` drops the
   head instead: a successful tour never visits the head and passes through the start
   city a second time before it closes.
   */
  lemma HeadNotStartSkipsHead(rows: seq<Row>, cities: seq<City>, start: City)
    requires |cities| > 0 && cities[0] != start && start in cities && NoDuplicates(cities)
    requires FindSubtour(rows, cities, start).Ok?
    ensures var t := FindSubtour(rows, cities, start).value.cities;
      && |t| == |cities| + 1
      && cities[0] !in t
      && start in t[1..|t| - 1]
  {
    FindSubtourCities(rows, cities, start);
    SkipsHead(FindSubtour(rows, cities, start).value.cities, cities, start);
  }

  /** A closed walk from `start` over a permutation of the tail of a repeat-free list misses its head. */
  lemma SkipsHead(t: seq<City>, cities: seq<City>, start: City)
    requires |cities| > 0 && cities[0] != start && start in cities && NoDuplicates(cities)
    requires |t| == |cities| + 1 && t[0] == start && t[|t| - 1] == start
    requires multiset(t[1..|t| - 1]) == multiset(cities[1..])
    ensures cities[0] !in t
    ensures start in t[1..|t| - 1]
  {
    var inner := t[1..|t| - 1];
    PermutationOfTail(inner, cities);
    assert t == [t[0]] + inner + [t[|t| - 1]];
  }

  /** One row of `final_df`. */
  datatype Entry = Entry(city: City, tour: seq<City>, legs: seq<int>, distance: int)

  /**
   The fields of an `AddHeuristicTSP` object: the table, the city listing (used both as
   `self.cities` and as the unvisited list of every `find_subtour` call), the three
   result lists and the memoised `final_df`.
   */
  datatype Engine = Engine(
    rows: seq<Row>,
    cities: seq<City>,
    tourLst: seq<seq<City>>,
    legsLst: seq<seq<int>>,
    distanceLst: seq<int>,
    finalDf: Option<seq<Entry>>)

  datatype EngineError =
    | TourFailed(reason: HeuristicError)  // `find_subtour` raised for some city
    | ColumnLengthsDiffer                 // `pd.DataFrame` of columns of unequal length
    | EmptyTable                          // `idxmin` over an empty `distance` column

  /** An engine state after a property access, and what the access returned or raised. */
  datatype Outcome<T> = Outcome(engine: Engine, result: Result<T, EngineError>)

  /** `find_subtour` followed by a `for` over cities: how far the run got. */
  datatype TourRun = TourRun(engine: Engine, failure: Option<HeuristicError>)

  /** A freshly constructed engine over a table and a listing of its destination set. */
  function NewEngine(rows: seq<Row>, cities: seq<City>): Engine
    requires Lists(cities, Destinations(rows))
  {
    Engine(rows, cities, [], [], [], None)
  }

  /** `find_subtour` bound to an engine's table and city listing. */
  function Builder(e: Engine): City -> Result<Tour, HeuristicError> {
    c => FindSubtour(e.rows, e.cities, c)
  }

  /**
   One `find_subtour(start)` call on an engine, with the tour builder `find`: the three
   result lists grow by one entry on success and are left alone when it raises.
   */
  function Record(e: Engine, find: City -> Result<Tour, HeuristicError>, start: City): (r: Result<Engine, HeuristicError>)
    ensures r.Ok? <==> find(start).Ok?
    ensures r.Ok? ==>
      && r.value.tourLst == e.tourLst + [find(start).value.cities]
      && r.value.legsLst == e.legsLst + [find(start).value.legs]
      && r.value.distanceLst == e.distanceLst + [find(start).value.total]
      && r.value.rows == e.rows && r.value.cities == e.cities && r.value.finalDf == e.finalDf
  {
    var t :- find(start);
    Ok(e.(tourLst := e.tourLst + [t.cities], legsLst := e.legsLst + [t.legs], distanceLst := e.distanceLst + [t.total]))
  }

  /** The three result lists grow together. */
  predicate Aligned(e: Engine) {
    |e.tourLst| == |e.legsLst| == |e.distanceLst|
  }

  /**
   The `for c in self.cities` loop of `_generate_final_df`: one `find_subtour` per city in
   order; the first failure stops the loop but keeps what earlier cities appended.
   */
  function RecordAll(e: Engine, find: City -> Result<Tour, HeuristicError>, cs: seq<City>): (r: TourRun)
    ensures r.engine.rows == e.rows && r.engine.cities == e.cities && r.engine.finalDf == e.finalDf
    ensures Aligned(e) ==> Aligned(r.engine)
    ensures e.tourLst <= r.engine.tourLst && e.legsLst <= r.engine.legsLst && e.distanceLst <= r.engine.distanceLst
    decreases |cs|
  {
    if |cs| == 0 then TourRun(e, None)
    else
      match Record(e, find, cs[0])
      case Err(err) => TourRun(e, Some(err))
      case Ok(e') => RecordAll(e', find, cs[1..])
  }

  /** The loop over cities succeeds exactly when every `find_subtour` call does. */
  lemma {:induction false} RecordAllSucceedsIffEveryTourDoes(e: Engine, find: City -> Result<Tour, HeuristicError>, cs: seq<City>)
    ensures RecordAll(e, find, cs).failure.None? <==> forall i :: 0 <= i < |cs| ==> find(cs[i]).Ok?
    decreases |cs|
  {
    if |cs| > 0 {
      var tail := cs[1..];
      assert forall i :: 0 < i < |cs| ==> tail[i - 1] == cs[i];
      if Record(e, find, cs[0]).Ok? {
        RecordAllSucceedsIffEveryTourDoes(Record(e, find, cs[0]).value, find, tail);
      }
    }
  }

  /**
   After a successful loop over cities the three lists have grown by one entry per city,
   holding that city's tour, legs and length, in city order.
   */
  lemma {:induction false} RecordAllAppendsOneTourPerCity(e: Engine, find: City -> Result<Tour, HeuristicError>, cs: seq<City>)
    requires RecordAll(e, find, cs).failure.None?
    ensures var r := RecordAll(e, find, cs);
      && |r.engine.tourLst| == |e.tourLst| + |cs|
      && |r.engine.legsLst| == |e.legsLst| + |cs|
      && |r.engine.distanceLst| == |e.distanceLst| + |cs|
      && forall i :: 0 <= i < |cs| ==>
           && find(cs[i]).Ok?
           && r.engine.tourLst[|e.tourLst| + i] == find(cs[i]).value.cities
           && r.engine.legsLst[|e.legsLst| + i] == find(cs[i]).value.legs
           && r.engine.distanceLst[|e.distanceLst| + i] == find(cs[i]).value.total
    decreases |cs|
  {
    if |cs| > 0 {
      var tail := cs[1..];
      var r := RecordAll(e, find, cs).engine;
      var e' := Record(e, find, cs[0]).value;
      assert r == RecordAll(e', find, tail).engine;
      RecordAllAppendsOneTourPerCity(e', find, tail);
      assert e'.tourLst <= r.tourLst && e'.legsLst <= r.legsLst && e'.distanceLst <= r.distanceLst;
      forall i | 0 <= i < |cs|
        ensures && find(cs[i]).Ok?
                && r.tourLst[|e.tourLst| + i] == find(cs[i]).value.cities
                && r.legsLst[|e.legsLst| + i] == find(cs[i]).value.legs
                && r.distanceLst[|e.distanceLst| + i] == find(cs[i]).value.total
      {
        if i == 0 {
          assert r.tourLst[|e.tourLst|] == e'.tourLst[|e.tourLst|];
          assert r.legsLst[|e.legsLst|] == e'.legsLst[|e.legsLst|];
          assert r.distanceLst[|e.distanceLst|] == e'.distanceLst[|e.distanceLst|];
        } else {
          var j := i - 1;
          assert tail[j] == cs[i];
          assert |e'.tourLst| + j == |e.tourLst| + i && |e'.legsLst| + j == |e.legsLst| + i && |e'.distanceLst| + j == |e.distanceLst| + i;
          assert && find(tail[j]).Ok?
                 && r.tourLst[|e'.tourLst| + j] == find(tail[j]).value.cities
                 && r.legsLst[|e'.legsLst| + j] == find(tail[j]).value.legs
                 && r.distanceLst[|e'.distanceLst| + j] == find(tail[j]).value.total;
        }
      }
    }
  }

  /** The `final_df` table built from the city listing and the three result lists. */
  function Table(cities: seq<City>, tourLst: seq<seq<City>>, legsLst: seq<seq<int>>, distanceLst: seq<int>): seq<Entry>
    requires |tourLst| == |legsLst| == |distanceLst| == |cities|
  {
    seq(|cities|, i requires 0 <= i < |cities| => Entry(cities[i], tourLst[i], legsLst[i], distanceLst[i]))
  }

  /** `_generate_final_df`: run every city, then assemble the table. */
  function GenerateFinalDf(e: Engine): (o: Outcome<seq<Entry>>)
  {
    var run := RecordAll(e, Builder(e), e.cities);
    var g := run.engine;
    if run.failure.Some? then Outcome(g, Err(TourFailed(run.failure.value)))
    else if |g.tourLst| == |g.legsLst| == |g.distanceLst| == |g.cities| then
      Outcome(g, Ok(Table(g.cities, g.tourLst, g.legsLst, g.distanceLst)))
    else Outcome(g, Err(ColumnLengthsDiffer))
  }

  /**
   The `final_df` property: generated on the first successful access and returned from the
   cache afterwards.
   */
  function FinalDf(e: Engine): (o: Outcome<seq<Entry>>)
    ensures e.finalDf.Some? ==> o == Outcome(e, Ok(e.finalDf.value))
    ensures o.result.Ok? ==> o.engine.finalDf == Some(o.result.value)
    ensures e.finalDf.None? && o.result.Err? ==> o.engine.finalDf.None?
    ensures o.engine.rows == e.rows && o.engine.cities == e.cities
  {
    if e.finalDf.Some? then Outcome(e, Ok(e.finalDf.value))
    else
      var o := GenerateFinalDf(e);
      if o.result.Ok? then Outcome(o.engine.(finalDf := Some(o.result.value)), o.result) else o
  }

  /** A second access of `final_df` after a successful one changes nothing and returns the same table. */
  lemma FinalDfIsComputedOnce(e: Engine)
    requires FinalDf(e).result.Ok?
    ensures FinalDf(FinalDf(e).engine) == FinalDf(e)
  {
  }

  lemma FreshFinalDfSucceeds(rows: seq<Row>, cities: seq<City>)
    requires Lists(cities, Destinations(rows))
    ensures FinalDf(NewEngine(rows, cities)).result.Ok? <==>
      forall i :: 0 <= i < |cities| ==> FindSubtour(rows, cities, cities[i]).Ok?
  {
    var e := NewEngine(rows, cities);
    RecordAllSucceedsIffEveryTourDoes(e, Builder(e), cities);
    if RecordAll(e, Builder(e), cities).failure.None? {
      RecordAllAppendsOneTourPerCity(e, Builder(e), cities);
    }
  }

  lemma FreshFinalDfRows(rows: seq<Row>, cities: seq<City>)
    requires Lists(cities, Destinations(rows))
    requires FinalDf(NewEngine(rows, cities)).result.Ok?
    ensures var o := FinalDf(NewEngine(rows, cities));
      && |o.result.value| == |cities|
      && |o.engine.tourLst| == |cities|
      && forall i :: 0 <= i < |cities| ==>
           && FindSubtour(rows, cities, cities[i]).Ok?
           && var t := FindSubtour(rows, cities, cities[i]).value;
              o.result.value[i] == Entry(cities[i], t.cities, t.legs, t.total)
  {
    var e := NewEngine(rows, cities);
    RecordAllSucceedsIffEveryTourDoes(e, Builder(e), cities);
    RecordAllAppendsOneTourPerCity(e, Builder(e), cities);
  }

  /**
   On a fresh engine `final_df` succeeds exactly when `find_subtour` succeeds for every
   city, and then row i holds the tour, legs and distance of the i-th city.
   */
  lemma FreshFinalDfRunsEveryCityOnce(rows: seq<Row>, cities: seq<City>)
    requires Lists(cities, Destinations(rows))
    ensures var o := FinalDf(NewEngine(rows, cities));
      && (o.result.Ok? <==> forall i :: 0 <= i < |cities| ==> FindSubtour(rows, cities, cities[i]).Ok?)
      && (o.result.Ok? ==>
           && |o.result.value| == |cities|
           && |o.engine.tourLst| == |cities|
           && forall i :: 0 <= i < |cities| ==>
                var t := FindSubtour(rows, cities, cities[i]).value;
                o.result.value[i] == Entry(cities[i], t.cities, t.legs, t.total))
  {
    FreshFinalDfSucceeds(rows, cities);
    if FinalDf(NewEngine(rows, cities)).result.Ok? {
      FreshFinalDfRows(rows, cities);
    }
  }

  /** The position `idxmin` returns: the first position of a least value. */
  function FirstMin(xs: seq<int>): (r: Option<nat>)
    ensures r.None? <==> |xs| == 0
    ensures r.Some? ==> && r.value < |xs|
                        && (forall j :: 0 <= j < |xs| ==> xs[r.value] <= xs[j])
                        && (forall j :: 0 <= j < r.value ==> xs[r.value] < xs[j])
  {
    if |xs| == 0 then None
    else
      var best := FirstMin(xs[..|xs| - 1]);
      if best.None? || xs[|xs| - 1] < xs[best.value] then Some(|xs| - 1) else best
  }

  /** The `distance` column of a `final_df` table. */
  function DistanceColumn(table: seq<Entry>): seq<int> {
    seq(|table|, i requires 0 <= i < |table| => table[i].distance)
  }

  /** The row `final_df['distance'].idxmin()` designates: the first row of least distance. */
  function ShortestRow(table: seq<Entry>): (r: Option<nat>)
    ensures r.None? <==> |table| == 0
    ensures r.Some? ==> && r.value < |table|
                        && (forall j :: 0 <= j < |table| ==> table[r.value].distance <= table[j].distance)
                        && (forall j :: 0 <= j < r.value ==> table[r.value].distance < table[j].distance)
  {
    var column := DistanceColumn(table);
    assert forall j :: 0 <= j < |table| ==> column[j] == table[j].distance;
    FirstMin(column)
  }

  /** `shortest_distance` / `_calculate_shortest_distance`: the least tour length of `final_df`. */
  function ShortestDistance(e: Engine): (o: Outcome<int>)
    ensures o.engine == FinalDf(e).engine
    ensures o.result.Ok? <==> FinalDf(e).result.Ok? && |FinalDf(e).result.value| > 0
    ensures o.result.Ok? ==>
      var table := FinalDf(e).result.value;
      && (exists i :: 0 <= i < |table| && table[i].distance == o.result.value)
      && (forall i :: 0 <= i < |table| ==> o.result.value <= table[i].distance)
  {
    var f := FinalDf(e);
    if f.result.Err? then Outcome(f.engine, Err(f.result.error))
    else
      match ShortestRow(f.result.value)
      case None => Outcome(f.engine, Err(EmptyTable))
      case Some(i) => Outcome(f.engine, Ok(f.result.value[i].distance))
  }

  /**
   `shortest_tour` / `_generate_shortest_tour`: the tour of the first row of `final_df`
   whose distance is least.
   */
  function ShortestTour(e: Engine): (o: Outcome<seq<City>>)
    ensures o.engine == FinalDf(e).engine
    ensures o.result.Ok? <==> FinalDf(e).result.Ok? && |FinalDf(e).result.value| > 0
    ensures o.result.Ok? ==>
      var table := FinalDf(e).result.value;
      exists i :: && 0 <= i < |table|
                  && table[i].tour == o.result.value
                  && (forall j :: 0 <= j < |table| ==> table[i].distance <= table[j].distance)
                  && (forall j :: 0 <= j < i ==> table[i].distance < table[j].distance)
  {
    var f := FinalDf(e);
    if f.result.Err? then Outcome(f.engine, Err(f.result.error))
    else
      match ShortestRow(f.result.value)
      case None => Outcome(f.engine, Err(EmptyTable))
      case Some(i) => Outcome(f.engine, Ok(f.result.value[i].tour))
  }
}
