/** The transit graph of transport_router.cpp. Every stop name k of the
    enumeration gets a wait vertex 2k and a board vertex 2k + 1; a wait edge
    leads from the first to the second, and a ride edge leads from the board
    vertex of one stop of a bus to the wait vertex of a later stop of it.
    Edge ids are positions in `graph.edges`; `timeCuts` holds, at the same
    position, the itinerary segment the edge stands for.

    The iteration orders of the hash tables the source walks (the stop table,
    the vertex table, the bus table) are parameters. The shortest-path solver
    (`graph::Router`) is a function parameter of `GetRoute`; the lazily built
    solver cache is not part of this model. */
module TransportRouter {
  import opened Wrappers
  import opened Domain
  import CString
  import Ordered
  import Seqs
  import Catalogue

  type VertexId = nat
  type EdgeId = nat

  const METERS_IN_KILOMETERS: real := 1000.0
  const MINUTES_IN_HOUR: real := 60.0

  datatype Edge = Edge(from: VertexId, to: VertexId, weight: real)

  datatype Graph = Graph(vertexCount: nat, edges: seq<Edge>)

  /** An edge together with the segment recorded for it in `time_cuts_`. */
  datatype Entry = Entry(edge: Edge, cut: Timecut)

  datatype Router = Router(
    settings: RoutingSettings,
    stopIds: map<string, VertexId>,
    graph: Graph,
    timeCuts: seq<Timecut>)

  /** What the solver returns: total weight and the edge ids of the path. */
  datatype RouteInfo = RouteInfo(weight: real, edges: seq<EdgeId>)

  // ------------------------------------------------------------- vertices

  /** `InitializeStops`: the k-th name receives vertex 2k unless it was
      inserted before (`insert` keeps the first). */
  function InitializeStops(names: seq<string>): (r: map<string, VertexId>)
    ensures forall n :: n in r <==> n in names
    ensures forall n :: n in r ==> r[n] % 2 == 0 && r[n] < 2 * |names|
  {
    if |names| == 0 then map[]
    else
      var prefix := names[..|names| - 1];
      var m := InitializeStops(prefix);
      var last := names[|names| - 1];
      assert forall n :: n in names <==> n in prefix || n == last;
      if last in m then m else m[last := 2 * (|names| - 1)]
  }

  /** A name's vertex is twice the index of its first occurrence. */
  lemma {:induction false} InitializeStopsFirst(names: seq<string>, k: nat)
    requires k < |names| && forall i :: 0 <= i < k ==> names[i] != names[k]
    ensures InitializeStops(names)[names[k]] == 2 * k
  {
    var prefix := names[..|names| - 1];
    if k < |names| - 1 {
      assert prefix[k] == names[k];
      assert forall i :: 0 <= i < k ==> prefix[i] == names[i];
      InitializeStopsFirst(prefix, k);
    } else {
      assert names[k] !in prefix;
    }
  }

  /** Distinct names get distinct vertices, and the k-th name gets 2k. */
  lemma InitializeStopsDistinct(names: seq<string>)
    requires Ordered.Distinct(names)
    ensures forall k :: 0 <= k < |names| ==> InitializeStops(names)[names[k]] == 2 * k
    ensures forall a, b :: a in InitializeStops(names) && b in InitializeStops(names) && a != b ==>
      InitializeStops(names)[a] != InitializeStops(names)[b]
  {
    var r := InitializeStops(names);
    forall k | 0 <= k < |names| ensures r[names[k]] == 2 * k {
      InitializeStopsFirst(names, k);
    }
    forall a, b | a in r && b in r && a != b ensures r[a] != r[b] {
      var i :| 0 <= i < |names| && names[i] == a;
      var j :| 0 <= j < |names| && names[j] == b;
    }
  }

  /** `FindVertexIdByStopName`: `unordered_map::at` throws `out_of_range`. */
  function FindVertexIdByStopName(ids: map<string, VertexId>, name: string): (r: Result<VertexId>)
    ensures r.Failure? <==> name !in ids
    ensures r.Failure? ==> r.error == OutOfRange
    ensures r.Success? ==> r.value == ids[name]
  {
    MapAt(ids, name)
  }

  /** `FindTimecutByEdgeId`: `at` on the edge metadata table. */
  function FindTimecutByEdgeId(r: Router, id: EdgeId): (t: Result<Timecut>)
    ensures t.Failure? <==> id >= |r.timeCuts|
    ensures t.Failure? ==> t.error == OutOfRange
    ensures t.Success? ==> t.value == r.timeCuts[id]
  {
    if id < |r.timeCuts| then Success(r.timeCuts[id]) else Failure(OutOfRange)
  }

  // ------------------------------------------------------------ wait edges

  /** The wait edges, one per entry of the vertex table, in its iteration
      order. */
  function WaitEntries(ids: map<string, VertexId>, settings: RoutingSettings, order: seq<string>): (r: seq<Entry>)
    requires forall k :: 0 <= k < |order| ==> order[k] in ids
    ensures |r| == |order|
    ensures forall k :: 0 <= k < |order| ==> r[k] == Entry(
      Edge(ids[order[k]], ids[order[k]] + 1, settings.busWaitTime),
      Wait(settings.busWaitTime, order[k]))
  {
    if |order| == 0 then []
    else
      var prefix := order[..|order| - 1];
      var n := order[|order| - 1];
      WaitEntries(ids, settings, prefix) + [Entry(Edge(ids[n], ids[n] + 1, settings.busWaitTime), Wait(settings.busWaitTime, n))]
  }

  /** Each stop of an enumeration has exactly one wait edge, and it joins the
      stop's own two vertices. */
  lemma WaitEntriesOnePerStop(ids: map<string, VertexId>, settings: RoutingSettings, order: seq<string>, name: string)
    requires forall k :: 0 <= k < |order| ==> order[k] in ids
    requires Ordered.Distinct(order) && name in order
    ensures exists k :: 0 <= k < |order| && WaitEntries(ids, settings, order)[k].cut == Wait(settings.busWaitTime, name)
    ensures forall k, l ::
      (0 <= k < |order| && 0 <= l < |order| &&
       WaitEntries(ids, settings, order)[k].cut.stopName == name &&
       WaitEntries(ids, settings, order)[l].cut.stopName == name) ==> k == l
    ensures forall k :: 0 <= k < |order| && WaitEntries(ids, settings, order)[k].cut.stopName == name ==>
      WaitEntries(ids, settings, order)[k].edge == Edge(ids[name], ids[name] + 1, settings.busWaitTime)
  {
    var k :| 0 <= k < |order| && order[k] == name;
    assert WaitEntries(ids, settings, order)[k].cut == Wait(settings.busWaitTime, name);
  }

  // ------------------------------------------------------------- spans

  /** The (i, j) pairs the inner loop of `CreateEdgesBetweenStops` visits for
      one i, starting at j: it stops at the end of the stops or, for a
      non-round bus, past the middle index n / 2. */
  function RowPairs(n: nat, isRound: bool, i: nat, j: nat): seq<(nat, nat)>
    decreases n - j
  {
    if j >= n || (!isRound && j > n / 2) then [] else [(i, j)] + RowPairs(n, isRound, i, j + 1)
  }

  /** The pairs the two loops visit, from outer index i on. The outer loop
      runs while i < n - 1, a bound taken as 0 for n = 0 (see `Findings`),
      and a non-round bus stops once i reaches n / 2. */
  function LoopPairs(n: nat, isRound: bool, i: nat): seq<(nat, nat)>
    decreases n - i
  {
    if i + 1 >= n || (!isRound && i >= n / 2) then [] else RowPairs(n, isRound, i, i + 1) + LoopPairs(n, isRound, i + 1)
  }

  /** The spans of a bus with n stored stops. */
  function Spans(n: nat, isRound: bool): seq<(nat, nat)>
  {
    LoopPairs(n, isRound, 0)
  }

  /** A span the loops admit: i < j < n, and for a non-round bus j <= n / 2. */
  predicate Admitted(n: nat, isRound: bool, p: (nat, nat)) {
    p.0 < p.1 < n && (isRound || p.1 <= n / 2)
  }

  /** Lexicographic order of spans. */
  predicate PairLess(p: (nat, nat), q: (nat, nat)) {
    p.0 < q.0 || (p.0 == q.0 && p.1 < q.1)
  }

  lemma {:induction false} RowPairsSpec(n: nat, isRound: bool, i: nat, j: nat)
    requires i < j
    ensures forall p :: p in RowPairs(n, isRound, i, j) <==> p.0 == i && j <= p.1 && Admitted(n, isRound, p)
    ensures forall a, b :: 0 <= a < b < |RowPairs(n, isRound, i, j)| ==>
      RowPairs(n, isRound, i, j)[a].1 < RowPairs(n, isRound, i, j)[b].1
    decreases n - j
  {
    if !(j >= n || (!isRound && j > n / 2)) {
      RowPairsSpec(n, isRound, i, j + 1);
      var rest := RowPairs(n, isRound, i, j + 1);
      var r := RowPairs(n, isRound, i, j);
      assert r == [(i, j)] + rest;
      forall a, b | 0 <= a < b < |r| ensures r[a].1 < r[b].1 {
        assert r[b] == rest[b - 1] && r[b] in rest;
        if a > 0 {
          assert r[a] == rest[a - 1];
        }
      }
    }
  }

  lemma {:induction false} LoopPairsSpec(n: nat, isRound: bool, i: nat)
    ensures forall p :: p in LoopPairs(n, isRound, i) <==> i <= p.0 && Admitted(n, isRound, p)
    ensures forall a, b :: 0 <= a < b < |LoopPairs(n, isRound, i)| ==>
      PairLess(LoopPairs(n, isRound, i)[a], LoopPairs(n, isRound, i)[b])
    decreases n - i
  {
    if !(i + 1 >= n || (!isRound && i >= n / 2)) {
      RowPairsSpec(n, isRound, i, i + 1);
      LoopPairsSpec(n, isRound, i + 1);
      var row := RowPairs(n, isRound, i, i + 1);
      var rest := LoopPairs(n, isRound, i + 1);
      var r := LoopPairs(n, isRound, i);
      assert r == row + rest;
      forall a, b | 0 <= a < b < |r| ensures PairLess(r[a], r[b]) {
        if b < |row| {
          assert r[a] == row[a] && r[b] == row[b];
        } else if a < |row| {
          assert r[a] == row[a] && r[a] in row;
          assert r[b] == rest[b - |row|] && r[b] in rest;
        } else {
          assert r[a] == rest[a - |row|] && r[b] == rest[b - |row|];
        }
      }
    }
  }

  /** Every span the loops visit is admitted and every admitted span is
      visited, once, in lexicographic order: no zero-length span exists. */
  lemma SpansSpec(n: nat, isRound: bool)
    ensures forall p :: p in Spans(n, isRound) <==> Admitted(n, isRound, p)
    ensures forall a, b :: 0 <= a < b < |Spans(n, isRound)| ==> PairLess(Spans(n, isRound)[a], Spans(n, isRound)[b])
    ensures forall a :: 0 <= a < |Spans(n, isRound)| ==> Admitted(n, isRound, Spans(n, isRound)[a])
  {
    LoopPairsSpec(n, isRound, 0);
    forall a | 0 <= a < |Spans(n, isRound)| ensures Admitted(n, isRound, Spans(n, isRound)[a]) {
      assert Spans(n, isRound)[a] in Spans(n, isRound);
    }
  }

  lemma SpansAdmitted(n: nat, isRound: bool)
    ensures forall a :: 0 <= a < |Spans(n, isRound)| ==> Admitted(n, isRound, Spans(n, isRound)[a])
  {
    SpansSpec(n, isRound);
  }

  /** The last admitted j of a non-empty row. */
  function LastJ(n: nat, isRound: bool): int {
    if isRound || n - 1 < n / 2 then n - 1 else n / 2
  }

  lemma {:induction false} RowPairsCount(n: nat, isRound: bool, i: nat, j: nat)
    ensures |RowPairs(n, isRound, i, j)| == if j <= LastJ(n, isRound) then LastJ(n, isRound) - j + 1 else 0
    decreases n - j
  {
    if !(j >= n || (!isRound && j > n / 2)) {
      RowPairsCount(n, isRound, i, j + 1);
    }
  }

  lemma {:induction false} RoundPairsCount(n: nat, i: nat)
    requires i <= n
    ensures 2 * |LoopPairs(n, true, i)| == if i + 1 >= n then 0 else (n - i) * (n - i - 1)
    decreases n - i
  {
    if i + 1 < n {
      RowPairsCount(n, true, i, i + 1);
      RoundPairsCount(n, i + 1);
      var k := n - i - 1;
      assert k * (k + 1) == (k - 1) * k + 2 * k;
    }
  }

  lemma {:induction false} NonRoundPairsCount(n: nat, i: nat)
    requires i <= n / 2
    ensures 2 * |LoopPairs(n, false, i)| == (n / 2 - i) * (n / 2 - i + 1)
    decreases n - i
  {
    if i < n / 2 {
      assert i + 1 < n;
      RowPairsCount(n, false, i, i + 1);
      NonRoundPairsCount(n, i + 1);
      var k := n / 2 - i;
      assert k * (k + 1) == (k - 1) * k + 2 * k;
    }
  }

  /** A round bus with n stops has a span for every pair of its indices:
      n(n-1)/2 of them. A non-round bus stored with 2m - 1 stops has one
      span per pair of indices of its outward half: m(m-1)/2 of them, each
      giving two edges. */
  lemma SpansCount(n: nat, m: nat)
    ensures 2 * |Spans(n, true)| == n * (n - 1)
    ensures m >= 1 ==> 2 * |Spans(2 * m - 1, false)| == m * (m - 1)
  {
    RoundPairsCount(n, 0);
    if n == 0 {
      assert n * (n - 1) == 0;
    }
    if m >= 1 {
      NonRoundPairsCount(2 * m - 1, 0);
      assert (2 * m - 1) / 2 == m - 1;
    }
  }

  // ------------------------------------------------------------ ride edges

  /** The road distance of span (i, j), leg by leg in travel direction:
      `stops_distance`. */
  function SpanLength(c: Catalogue.Catalogue, stops: seq<StopId>, i: nat, j: nat): (r: Result<int>)
    requires i <= j < |stops|
    ensures r.Failure? ==> r.error == OutOfRange
    decreases j
  {
    if j == i then Success(0)
    else
      var head :- SpanLength(c, stops, i, j - 1);
      var leg :- Catalogue.GetDistance(c, stops[j - 1], stops[j]);
      Success(head + leg)
  }

  /** The distance of the same legs driven backwards: `stops_distance_inverse`. */
  function InverseSpanLength(c: Catalogue.Catalogue, stops: seq<StopId>, i: nat, j: nat): (r: Result<int>)
    requires i <= j < |stops|
    ensures r.Failure? ==> r.error == OutOfRange
    decreases j
  {
    if j == i then Success(0)
    else
      var head :- InverseSpanLength(c, stops, i, j - 1);
      var leg :- Catalogue.GetDistance(c, stops[j], stops[j - 1]);
      Success(head + leg)
  }

  /** The forward span distance is the road length of the stops it covers. */
  lemma {:induction false} SpanLengthIsRoadLength(c: Catalogue.Catalogue, stops: seq<StopId>, i: nat, j: nat)
    requires i <= j < |stops|
    ensures SpanLength(c, stops, i, j) == Catalogue.RoadLength(c, stops[i..j + 1])
    decreases j
  {
    if j > i {
      SpanLengthIsRoadLength(c, stops, i, j - 1);
      var seg := stops[i..j + 1];
      assert seg[..|seg| - 1] == stops[i..j];
      RoadLengthSnoc(c, seg, stops[i..j], stops[j - 1], stops[j], SpanLength(c, stops, i, j - 1));
    }
  }

  /** One more stop at the back adds its leg to the road length. */
  lemma RoadLengthSnoc(c: Catalogue.Catalogue, whole: seq<StopId>, front: seq<StopId>, y: StopId, z: StopId, head: Result<int>)
    requires |whole| >= 2 && front == whole[..|whole| - 1] && y == whole[|whole| - 2] && z == whole[|whole| - 1]
    requires head == Catalogue.RoadLength(c, front)
    ensures Catalogue.RoadLength(c, whole) ==
      if head.Success? && Catalogue.GetDistance(c, y, z).Success?
      then Success(head.value + Catalogue.GetDistance(c, y, z).value)
      else Failure(OutOfRange)
  {
  }

  /** Minutes to drive `meters` at the configured speed, in km/h. */
  function RideTime(settings: RoutingSettings, meters: int): real
    requires settings.busVelocity != 0.0
  {
    meters as real / METERS_IN_KILOMETERS / settings.busVelocity * MINUTES_IN_HOUR
  }

  /** Driving for the ride time at the configured speed covers the distance:
      minutes times km/h is 60 times the kilometres. */
  lemma RideTimeCoversDistance(settings: RoutingSettings, meters: int)
    requires settings.busVelocity != 0.0
    ensures RideTime(settings, meters) * settings.busVelocity == meters as real / METERS_IN_KILOMETERS * MINUTES_IN_HOUR
  {
  }

  /** The edges of span (i, j): the forward ride and, for a non-round bus,
      the ride back. */
  function SpanEntries(c: Catalogue.Catalogue, ids: map<string, VertexId>, settings: RoutingSettings,
                       busName: string, bus: Bus, i: nat, j: nat): (r: Result<seq<Entry>>)
    requires settings.busVelocity != 0.0
    requires i < j < |bus.stops| && Catalogue.StopsRegistered(c, bus.stops)
    ensures r.Success? <==>
      && SpanLength(c, bus.stops, i, j).Success? && InverseSpanLength(c, bus.stops, i, j).Success?
      && c.stops[bus.stops[i]].name in ids && c.stops[bus.stops[j]].name in ids
    ensures r.Failure? ==> r.error == OutOfRange
    ensures r.Success? ==>
      var from := ids[c.stops[bus.stops[i]].name];
      var to := ids[c.stops[bus.stops[j]].name];
      var time := RideTime(settings, SpanLength(c, bus.stops, i, j).value);
      var back := RideTime(settings, InverseSpanLength(c, bus.stops, i, j).value);
      && |r.value| == (if bus.isRound then 1 else 2)
      && r.value[0] == Entry(Edge(from + 1, to, time), RidingBus(time, busName, j - i))
      && (!bus.isRound ==> r.value[1] == Entry(Edge(to + 1, from, back), RidingBus(back, busName, j - i)))
  {
    var forward :- SpanLength(c, bus.stops, i, j);
    var inverse :- InverseSpanLength(c, bus.stops, i, j);
    var from :- FindVertexIdByStopName(ids, c.stops[bus.stops[i]].name);
    var to :- FindVertexIdByStopName(ids, c.stops[bus.stops[j]].name);
    var time := RideTime(settings, forward);
    var ride := Entry(Edge(from + 1, to, time), RidingBus(time, busName, j - i));
    if bus.isRound then Success([ride])
    else
      var back := RideTime(settings, inverse);
      Success([ride, Entry(Edge(to + 1, from, back), RidingBus(back, busName, j - i))])
  }

  /** The distance of the ride back over span (i, j) is the road length of
      the span's stops in reverse order. */
  lemma {:induction false} InverseSpanLengthIsReverseRoadLength(c: Catalogue.Catalogue, stops: seq<StopId>, i: nat, j: nat)
    requires i <= j < |stops|
    ensures InverseSpanLength(c, stops, i, j) == Catalogue.RoadLength(c, Seqs.Reverse(stops[i..j + 1]))
    decreases j
  {
    if j > i {
      InverseSpanLengthIsReverseRoadLength(c, stops, i, j - 1);
      Seqs.ReverseExtend(stops, i, j);
      RoadLengthStep(c, stops[j], Seqs.Reverse(stops[i..j]), Seqs.Reverse(stops[i..j + 1]), InverseSpanLength(c, stops, i, j - 1));
    }
  }

  /** One more stop in front adds its leg to the road length. */
  lemma RoadLengthStep(c: Catalogue.Catalogue, x: StopId, back: seq<StopId>, whole: seq<StopId>, head: Result<int>)
    requires |back| > 0 && whole == [x] + back && head == Catalogue.RoadLength(c, back)
    ensures Catalogue.RoadLength(c, whole) ==
      if head.Success? && Catalogue.GetDistance(c, x, back[0]).Success?
      then Success(head.value + Catalogue.GetDistance(c, x, back[0]).value)
      else Failure(OutOfRange)
  {
    Catalogue.RoadLengthCons(c, x, back);
  }

  /** The number of edges one span gives: the ride there and, for a
      non-round bus, the ride back. */
  function EdgesPerSpan(bus: Bus): nat {
    if bus.isRound then 1 else 2
  }

  /** The edges of the spans `pairs`, in order. */
  function PairsEntries(c: Catalogue.Catalogue, ids: map<string, VertexId>, settings: RoutingSettings,
                        busName: string, bus: Bus, pairs: seq<(nat, nat)>): (r: Result<seq<Entry>>)
    requires settings.busVelocity != 0.0 && Catalogue.StopsRegistered(c, bus.stops)
    requires forall k :: 0 <= k < |pairs| ==> pairs[k].0 < pairs[k].1 < |bus.stops|
    ensures r.Success? <==> forall k :: 0 <= k < |pairs| ==> SpanEntries(c, ids, settings, busName, bus, pairs[k].0, pairs[k].1).Success?
    ensures r.Failure? ==> r.error == OutOfRange
    ensures r.Success? ==> |r.value| == |pairs| * EdgesPerSpan(bus)
  {
    if |pairs| == 0 then Success([])
    else
      var first :- SpanEntries(c, ids, settings, busName, bus, pairs[0].0, pairs[0].1);
      var rest :- PairsEntries(c, ids, settings, busName, bus, pairs[1..]);
      assert forall k :: 1 <= k < |pairs| ==> pairs[k] == pairs[1..][k - 1];
      Success(first + rest)
  }

  /** The edges of span (i, j) stand k-th among `entries`: at position k
      for a round bus; at 2k, then its ride back at 2k + 1, otherwise. */
  predicate SpanAt(c: Catalogue.Catalogue, ids: map<string, VertexId>, settings: RoutingSettings,
                   busName: string, bus: Bus, entries: seq<Entry>, i: nat, j: nat, k: nat)
    requires settings.busVelocity != 0.0 && i < j < |bus.stops| && Catalogue.StopsRegistered(c, bus.stops)
  {
    && SpanEntries(c, ids, settings, busName, bus, i, j).Success?
    && var span := SpanEntries(c, ids, settings, busName, bus, i, j).value;
       if bus.isRound then k < |entries| && entries[k] == span[0]
       else 2 * k + 1 < |entries| && entries[2 * k] == span[0] && entries[2 * k + 1] == span[1]
  }

  lemma {:induction false} PairsEntriesAt(c: Catalogue.Catalogue, ids: map<string, VertexId>, settings: RoutingSettings,
                                          busName: string, bus: Bus, pairs: seq<(nat, nat)>, k: nat)
    requires settings.busVelocity != 0.0 && Catalogue.StopsRegistered(c, bus.stops)
    requires forall k :: 0 <= k < |pairs| ==> pairs[k].0 < pairs[k].1 < |bus.stops|
    requires PairsEntries(c, ids, settings, busName, bus, pairs).Success? && k < |pairs|
    ensures SpanAt(c, ids, settings, busName, bus, PairsEntries(c, ids, settings, busName, bus, pairs).value,
                   pairs[k].0, pairs[k].1, k)
    decreases k
  {
    var rest := pairs[1..];
    assert forall k :: 1 <= k < |pairs| ==> pairs[k] == rest[k - 1];
    var first := SpanEntries(c, ids, settings, busName, bus, pairs[0].0, pairs[0].1).value;
    var tail := PairsEntries(c, ids, settings, busName, bus, rest).value;
    assert PairsEntries(c, ids, settings, busName, bus, pairs).value == first + tail;
    if k > 0 {
      PairsEntriesAt(c, ids, settings, busName, bus, rest, k - 1);
    }
  }

  /** The spans' edges stand in the order of `pairs`, one or two per span. */
  lemma PairsEntriesLayout(c: Catalogue.Catalogue, ids: map<string, VertexId>, settings: RoutingSettings,
                           busName: string, bus: Bus, pairs: seq<(nat, nat)>)
    requires settings.busVelocity != 0.0 && Catalogue.StopsRegistered(c, bus.stops)
    requires forall k :: 0 <= k < |pairs| ==> pairs[k].0 < pairs[k].1 < |bus.stops|
    requires PairsEntries(c, ids, settings, busName, bus, pairs).Success?
    ensures forall k :: 0 <= k < |pairs| ==>
      SpanAt(c, ids, settings, busName, bus, PairsEntries(c, ids, settings, busName, bus, pairs).value, pairs[k].0, pairs[k].1, k)
  {
    forall k | 0 <= k < |pairs|
      ensures SpanAt(c, ids, settings, busName, bus, PairsEntries(c, ids, settings, busName, bus, pairs).value, pairs[k].0, pairs[k].1, k)
    {
      PairsEntriesAt(c, ids, settings, busName, bus, pairs, k);
    }
  }

  /** `CreateEdgesBetweenStops` for one bus: it succeeds exactly when every
      admitted span has its edges. */
  function BusEntries(c: Catalogue.Catalogue, ids: map<string, VertexId>, settings: RoutingSettings,
                      busName: string, bus: Bus): (r: Result<seq<Entry>>)
    requires settings.busVelocity != 0.0 && Catalogue.StopsRegistered(c, bus.stops)
    ensures r.Success? <==> forall p :: Admitted(|bus.stops|, bus.isRound, p) ==>
      SpanEntries(c, ids, settings, busName, bus, p.0, p.1).Success?
    ensures r.Failure? ==> r.error == OutOfRange
    ensures r.Success? ==> |r.value| == |Spans(|bus.stops|, bus.isRound)| * EdgesPerSpan(bus)
  {
    var pairs := Spans(|bus.stops|, bus.isRound);
    SpansSpec(|bus.stops|, bus.isRound);
    PairsEntries(c, ids, settings, busName, bus, pairs)
  }

  /** A bus's edges list the edges of its spans in the loops' order: the
      ride there of the k-th span, followed for a non-round bus by its ride
      back. */
  lemma BusEntriesLayout(c: Catalogue.Catalogue, ids: map<string, VertexId>, settings: RoutingSettings,
                         busName: string, bus: Bus)
    requires settings.busVelocity != 0.0 && Catalogue.StopsRegistered(c, bus.stops)
    requires BusEntries(c, ids, settings, busName, bus).Success?
    ensures forall k :: 0 <= k < |Spans(|bus.stops|, bus.isRound)| ==> Admitted(|bus.stops|, bus.isRound, Spans(|bus.stops|, bus.isRound)[k])
    ensures forall k :: 0 <= k < |Spans(|bus.stops|, bus.isRound)| ==>
      SpanAt(c, ids, settings, busName, bus, BusEntries(c, ids, settings, busName, bus).value,
             Spans(|bus.stops|, bus.isRound)[k].0, Spans(|bus.stops|, bus.isRound)[k].1, k)
  {
    SpansAdmitted(|bus.stops|, bus.isRound);
    PairsEntriesLayout(c, ids, settings, busName, bus, Spans(|bus.stops|, bus.isRound));
  }

  /** The ride edges of all buses, in the bus table's iteration order: they
      exist exactly when every bus has its edges. */
  function RideEntries(c: Catalogue.Catalogue, ids: map<string, VertexId>, settings: RoutingSettings,
                       order: seq<string>): (r: Result<seq<Entry>>)
    requires settings.busVelocity != 0.0 && Catalogue.Valid(c)
    requires forall k :: 0 <= k < |order| ==> order[k] in c.busesTable
    ensures r.Success? <==> forall k :: 0 <= k < |order| ==>
      BusEntries(c, ids, settings, order[k], c.busesTable[order[k]]).Success?
    ensures r.Failure? ==> r.error == OutOfRange
  {
    if |order| == 0 then Success([])
    else
      var first :- BusEntries(c, ids, settings, order[0], c.busesTable[order[0]]);
      var rest :- RideEntries(c, ids, settings, order[1..]);
      assert forall k :: 1 <= k < |order| ==> order[k] == order[1..][k - 1];
      Success(first + rest)
  }

  /** The ride edges are the buses' edges one bus after the other. */
  lemma {:induction false} RideEntriesInOrder(c: Catalogue.Catalogue, ids: map<string, VertexId>, settings: RoutingSettings,
                                              order: seq<string>)
    requires settings.busVelocity != 0.0 && Catalogue.Valid(c)
    requires forall k :: 0 <= k < |order| ==> order[k] in c.busesTable
    requires RideEntries(c, ids, settings, order).Success?
    ensures RideEntries(c, ids, settings, order).value == Seqs.Concat(seq(|order|, k requires 0 <= k < |order| &&
      BusEntries(c, ids, settings, order[k], c.busesTable[order[k]]).Success? =>
        BusEntries(c, ids, settings, order[k], c.busesTable[order[k]]).value))
    decreases |order|
  {
    if |order| > 0 {
      var rest := order[1..];
      assert forall k :: 1 <= k < |order| ==> order[k] == rest[k - 1];
      RideEntriesInOrder(c, ids, settings, rest);
      var parts := seq(|order|, k requires 0 <= k < |order| &&
        BusEntries(c, ids, settings, order[k], c.busesTable[order[k]]).Success? =>
          BusEntries(c, ids, settings, order[k], c.busesTable[order[k]]).value);
      var restParts := seq(|rest|, k requires 0 <= k < |rest| &&
        BusEntries(c, ids, settings, rest[k], c.busesTable[rest[k]]).Success? =>
          BusEntries(c, ids, settings, rest[k], c.busesTable[rest[k]]).value);
      assert parts[1..] == restParts;
    }
  }

  // ----------------------------------------------------------- the router

  function EdgesOf(entries: seq<Entry>): (r: seq<Edge>)
    ensures |r| == |entries| && forall k :: 0 <= k < |entries| ==> r[k] == entries[k].edge
  {
    seq(|entries|, k requires 0 <= k < |entries| => entries[k].edge)
  }

  function CutsOf(entries: seq<Entry>): (r: seq<Timecut>)
    ensures |r| == |entries| && forall k :: 0 <= k < |entries| ==> r[k] == entries[k].cut
  {
    seq(|entries|, k requires 0 <= k < |entries| => entries[k].cut)
  }

  /** The constructor: `InitializeStops` then `InitializeGraph`, which adds
      all wait edges before all ride edges. A missing distance makes
      `GetDistance` throw `out_of_range`. */
  function Build(c: Catalogue.Catalogue, settings: RoutingSettings,
                 stopOrder: seq<string>, waitOrder: seq<string>, busOrder: seq<string>): (r: Result<Router>)
    requires Catalogue.Valid(c) && settings.busVelocity != 0.0
    requires Catalogue.EnumeratesStops(c, stopOrder) && Catalogue.EnumeratesStops(c, waitOrder)
    requires Catalogue.EnumeratesBuses(c, busOrder)
    ensures r.Success? <==> RideEntries(c, InitializeStops(stopOrder), settings, busOrder).Success?
    ensures r.Failure? ==> r.error == OutOfRange
    ensures r.Success? ==>
      && r.value.settings == settings
      && r.value.stopIds == InitializeStops(stopOrder)
      && r.value.graph.vertexCount == 2 * |stopOrder|
      && |r.value.graph.edges| == |r.value.timeCuts| >= |waitOrder|
      && (forall k :: 0 <= k < |waitOrder| ==>
            r.value.graph.edges[k] == Edge(r.value.stopIds[waitOrder[k]], r.value.stopIds[waitOrder[k]] + 1, settings.busWaitTime)
            && r.value.timeCuts[k] == Wait(settings.busWaitTime, waitOrder[k]))
  {
    var ids := InitializeStops(stopOrder);
    var waits := WaitEntries(ids, settings, waitOrder);
    var rides :- RideEntries(c, ids, settings, busOrder);
    var entries := waits + rides;
    Success(Router(settings, ids, Graph(2 * |stopOrder|, EdgesOf(entries)), CutsOf(entries)))
  }

  /** Past the wait edges, the graph holds the ride edges, and the time
      cuts their segments, in the same order. */
  lemma BuildRides(c: Catalogue.Catalogue, settings: RoutingSettings,
                   stopOrder: seq<string>, waitOrder: seq<string>, busOrder: seq<string>)
    requires Catalogue.Valid(c) && settings.busVelocity != 0.0
    requires Catalogue.EnumeratesStops(c, stopOrder) && Catalogue.EnumeratesStops(c, waitOrder)
    requires Catalogue.EnumeratesBuses(c, busOrder)
    requires Build(c, settings, stopOrder, waitOrder, busOrder).Success?
    ensures
      var r := Build(c, settings, stopOrder, waitOrder, busOrder).value;
      var rides := RideEntries(c, InitializeStops(stopOrder), settings, busOrder).value;
      && r.graph.edges[|waitOrder|..] == EdgesOf(rides)
      && r.timeCuts[|waitOrder|..] == CutsOf(rides)
  {
    var ids := InitializeStops(stopOrder);
    var waits := WaitEntries(ids, settings, waitOrder);
    var rides := RideEntries(c, ids, settings, busOrder).value;
    SuffixOf(waits, rides);
  }

  lemma SuffixOf(front: seq<Entry>, back: seq<Entry>)
    ensures EdgesOf(front + back)[|front|..] == EdgesOf(back)
    ensures CutsOf(front + back)[|front|..] == CutsOf(back)
  {
    var entries := front + back;
    assert forall k :: 0 <= k < |back| ==> entries[|front| + k] == back[k];
  }

  /** An entry whose segment carries the edge's own weight as its time, and
      whose edge joins vertices of a graph with `vertexCount` vertices: a
      wait edge from wait vertex to board vertex of the same stop, a ride
      edge from a board vertex to a wait vertex. */
  predicate GoodEntry(e: Entry, vertexCount: nat) {
    && e.cut.time == e.edge.weight
    && e.edge.from < vertexCount && e.edge.to < vertexCount
    && (e.cut.Wait? ==> e.edge.from % 2 == 0 && e.edge.to == e.edge.from + 1)
    && (e.cut.RidingBus? ==> e.edge.from % 2 == 1 && e.edge.to % 2 == 0 && e.cut.spanCount >= 1)
  }

  /** What every built router satisfies. */
  predicate WellFormed(r: Router) {
    && |r.graph.edges| == |r.timeCuts|
    && forall k :: 0 <= k < |r.timeCuts| ==> GoodEntry(Entry(r.graph.edges[k], r.timeCuts[k]), r.graph.vertexCount)
  }

  lemma SpanEntriesGood(c: Catalogue.Catalogue, ids: map<string, VertexId>, settings: RoutingSettings,
                        busName: string, bus: Bus, i: nat, j: nat, vertexCount: nat)
    requires settings.busVelocity != 0.0
    requires i < j < |bus.stops| && Catalogue.StopsRegistered(c, bus.stops)
    requires forall n :: n in ids ==> ids[n] % 2 == 0 && ids[n] + 1 < vertexCount
    requires SpanEntries(c, ids, settings, busName, bus, i, j).Success?
    ensures forall e :: e in SpanEntries(c, ids, settings, busName, bus, i, j).value ==> GoodEntry(e, vertexCount)
  {
  }

  lemma {:induction false} PairsEntriesGood(c: Catalogue.Catalogue, ids: map<string, VertexId>, settings: RoutingSettings,
                                            busName: string, bus: Bus, pairs: seq<(nat, nat)>, vertexCount: nat)
    requires settings.busVelocity != 0.0 && Catalogue.StopsRegistered(c, bus.stops)
    requires forall k :: 0 <= k < |pairs| ==> pairs[k].0 < pairs[k].1 < |bus.stops|
    requires forall n :: n in ids ==> ids[n] % 2 == 0 && ids[n] + 1 < vertexCount
    requires PairsEntries(c, ids, settings, busName, bus, pairs).Success?
    ensures forall e :: e in PairsEntries(c, ids, settings, busName, bus, pairs).value ==> GoodEntry(e, vertexCount)
    decreases |pairs|
  {
    if |pairs| > 0 {
      var rest := pairs[1..];
      assert forall k :: 1 <= k < |pairs| ==> pairs[k] == rest[k - 1];
      SpanEntriesGood(c, ids, settings, busName, bus, pairs[0].0, pairs[0].1, vertexCount);
      PairsEntriesGood(c, ids, settings, busName, bus, rest, vertexCount);
      assert PairsEntries(c, ids, settings, busName, bus, pairs).value ==
        SpanEntries(c, ids, settings, busName, bus, pairs[0].0, pairs[0].1).value + PairsEntries(c, ids, settings, busName, bus, rest).value;
    }
  }

  lemma BusEntriesGood(c: Catalogue.Catalogue, ids: map<string, VertexId>, settings: RoutingSettings,
                       busName: string, bus: Bus, vertexCount: nat)
    requires settings.busVelocity != 0.0 && Catalogue.StopsRegistered(c, bus.stops)
    requires forall n :: n in ids ==> ids[n] % 2 == 0 && ids[n] + 1 < vertexCount
    requires BusEntries(c, ids, settings, busName, bus).Success?
    ensures forall e :: e in BusEntries(c, ids, settings, busName, bus).value ==> GoodEntry(e, vertexCount)
  {
    SpansAdmitted(|bus.stops|, bus.isRound);
    PairsEntriesGood(c, ids, settings, busName, bus, Spans(|bus.stops|, bus.isRound), vertexCount);
  }

  lemma {:induction false} RideEntriesGood(c: Catalogue.Catalogue, ids: map<string, VertexId>, settings: RoutingSettings,
                                           order: seq<string>, vertexCount: nat)
    requires settings.busVelocity != 0.0 && Catalogue.Valid(c)
    requires forall k :: 0 <= k < |order| ==> order[k] in c.busesTable
    requires forall n :: n in ids ==> ids[n] % 2 == 0 && ids[n] + 1 < vertexCount
    requires RideEntries(c, ids, settings, order).Success?
    ensures forall e :: e in RideEntries(c, ids, settings, order).value ==> GoodEntry(e, vertexCount)
    decreases |order|
  {
    if |order| > 0 {
      var rest := order[1..];
      assert forall k :: 1 <= k < |order| ==> order[k] == rest[k - 1];
      BusEntriesGood(c, ids, settings, order[0], c.busesTable[order[0]], vertexCount);
      RideEntriesGood(c, ids, settings, rest, vertexCount);
      assert RideEntries(c, ids, settings, order).value ==
        BusEntries(c, ids, settings, order[0], c.busesTable[order[0]]).value + RideEntries(c, ids, settings, rest).value;
    }
  }

  /** Every built router pairs each edge with a segment of the same time,
      and its edges join a stop's wait vertex to its board vertex or a board
      vertex to a wait vertex. */
  lemma BuildWellFormed(c: Catalogue.Catalogue, settings: RoutingSettings,
                        stopOrder: seq<string>, waitOrder: seq<string>, busOrder: seq<string>)
    requires Catalogue.Valid(c) && settings.busVelocity != 0.0
    requires Catalogue.EnumeratesStops(c, stopOrder) && Catalogue.EnumeratesStops(c, waitOrder)
    requires Catalogue.EnumeratesBuses(c, busOrder)
    requires Build(c, settings, stopOrder, waitOrder, busOrder).Success?
    ensures WellFormed(Build(c, settings, stopOrder, waitOrder, busOrder).value)
  {
    var ids := InitializeStops(stopOrder);
    var vc := 2 * |stopOrder|;
    var waits := WaitEntries(ids, settings, waitOrder);
    var rides := RideEntries(c, ids, settings, busOrder).value;
    var entries := waits + rides;
    RideEntriesGood(c, ids, settings, busOrder, vc);
    WaitEntriesGood(ids, settings, waitOrder, vc);
    GoodEntries(waits, rides, vc);
    EntriesWellFormed(settings, ids, vc, entries);
  }

  lemma WaitEntriesGood(ids: map<string, VertexId>, settings: RoutingSettings, order: seq<string>, vertexCount: nat)
    requires forall k :: 0 <= k < |order| ==> order[k] in ids
    requires forall n :: n in ids ==> ids[n] % 2 == 0 && ids[n] + 1 < vertexCount
    ensures forall k :: 0 <= k < |order| ==> GoodEntry(WaitEntries(ids, settings, order)[k], vertexCount)
  {
  }

  lemma GoodEntries(waits: seq<Entry>, rides: seq<Entry>, vertexCount: nat)
    requires forall k :: 0 <= k < |waits| ==> GoodEntry(waits[k], vertexCount)
    requires forall e :: e in rides ==> GoodEntry(e, vertexCount)
    ensures forall k :: 0 <= k < |waits + rides| ==> GoodEntry((waits + rides)[k], vertexCount)
  {
    forall k | |waits| <= k < |waits + rides| ensures GoodEntry((waits + rides)[k], vertexCount) {
      assert (waits + rides)[k] == rides[k - |waits|];
    }
  }

  /** A router whose edges and segments come from good entries. */
  lemma EntriesWellFormed(settings: RoutingSettings, ids: map<string, VertexId>, vertexCount: nat, entries: seq<Entry>)
    requires forall k :: 0 <= k < |entries| ==> GoodEntry(entries[k], vertexCount)
    ensures WellFormed(Router(settings, ids, Graph(vertexCount, EdgesOf(entries)), CutsOf(entries)))
  {
  }

  // ------------------------------------------------------------- queries

  /** The segments of a path, looked up edge by edge. */
  function CutsOfPath(r: Router, path: seq<EdgeId>): (t: Result<seq<Timecut>>)
    ensures t.Success? <==> forall k :: 0 <= k < |path| ==> path[k] < |r.timeCuts|
    ensures t.Failure? ==> t.error == OutOfRange
    ensures t.Success? ==> |t.value| == |path| && forall k :: 0 <= k < |path| ==> t.value[k] == r.timeCuts[path[k]]
  {
    if |path| == 0 then Success([])
    else
      var first :- FindTimecutByEdgeId(r, path[0]);
      var rest :- CutsOfPath(r, path[1..]);
      assert forall k :: 1 <= k < |path| ==> path[k] == path[1..][k - 1];
      Success([first] + rest)
  }

  /** `GetRoute`: an unknown stop name throws `out_of_range`; no path gives
      `nullopt`; otherwise the solver's weight and the segments of its
      path, in path order. */
  function GetRoute(r: Router, solver: (Graph, VertexId, VertexId) -> Option<RouteInfo>, from: string, to: string)
    : (res: Result<Option<RouteResponse>>)
    ensures from !in r.stopIds || to !in r.stopIds ==> res == Failure(OutOfRange)
    ensures from in r.stopIds && to in r.stopIds ==>
      var info := solver(r.graph, r.stopIds[from], r.stopIds[to]);
      && (info.None? ==> res == Success(None))
      && (info.Some? ==> (res.Success? <==> forall k :: 0 <= k < |info.value.edges| ==> info.value.edges[k] < |r.timeCuts|))
      && (res.Success? && info.Some? ==>
            && res.value.Some?
            && res.value.value.totalTime == info.value.weight
            && |res.value.value.timeCuts| == |info.value.edges|
            && forall k :: 0 <= k < |info.value.edges| ==> res.value.value.timeCuts[k] == r.timeCuts[info.value.edges[k]])
  {
    var source :- FindVertexIdByStopName(r.stopIds, from);
    var target :- FindVertexIdByStopName(r.stopIds, to);
    match solver(r.graph, source, target)
    case None => Success(None)
    case Some(info) =>
      var cuts :- CutsOfPath(r, info.edges);
      Success(Some(RouteResponse(info.weight, cuts)))
  }

  function SumWeights(g: Graph, path: seq<EdgeId>): real
    requires forall k :: 0 <= k < |path| ==> path[k] < |g.edges|
  {
    if |path| == 0 then 0.0 else g.edges[path[0]].weight + SumWeights(g, path[1..])
  }

  function SumTimes(cuts: seq<Timecut>): real {
    if |cuts| == 0 then 0.0 else cuts[0].time + SumTimes(cuts[1..])
  }

  lemma {:induction false} SumTimesOfPath(r: Router, path: seq<EdgeId>, cuts: seq<Timecut>)
    requires WellFormed(r)
    requires forall k :: 0 <= k < |path| ==> path[k] < |r.timeCuts|
    requires |cuts| == |path| && forall k :: 0 <= k < |path| ==> cuts[k] == r.timeCuts[path[k]]
    ensures SumTimes(cuts) == SumWeights(r.graph, path)
  {
    if |path| > 0 {
      assert GoodEntry(Entry(r.graph.edges[path[0]], r.timeCuts[path[0]]), r.graph.vertexCount);
      SumTimesOfPath(r, path[1..], cuts[1..]);
    }
  }

  /** For a solver that reports a path of existing edges with its total
      weight, the segment times of the answer add up to its total time. */
  lemma RouteTimesAddUp(r: Router, solver: (Graph, VertexId, VertexId) -> Option<RouteInfo>, from: string, to: string)
    requires WellFormed(r)
    requires GetRoute(r, solver, from, to).Success? && GetRoute(r, solver, from, to).value.Some?
    requires var info := solver(r.graph, r.stopIds[from], r.stopIds[to]);
      info.Some? && (forall k :: 0 <= k < |info.value.edges| ==> info.value.edges[k] < |r.graph.edges|) &&
      info.value.weight == SumWeights(r.graph, info.value.edges)
    ensures SumTimes(GetRoute(r, solver, from, to).value.value.timeCuts) == GetRoute(r, solver, from, to).value.value.totalTime
  {
    var info := solver(r.graph, r.stopIds[from], r.stopIds[to]);
    SumTimesOfPath(r, info.value.edges, GetRoute(r, solver, from, to).value.value.timeCuts);
  }

  // --------------------------------------------------- the loop as written

  /** The outer loop as written: `i < stops.size() - 1` on `size_t`, so an
      empty bus has bound 2^64 - 1. Counts the iterations the loop runs. */
  function OuterIterationsAsWritten(n: CString.SizeT, isRound: bool, i: CString.SizeT): nat
    decreases CString.NPOS - i
  {
    var bound := CString.Sub(n, 1);
    if i >= bound || (!isRound && i >= n / 2) then 0
    else 1 + OuterIterationsAsWritten(n, isRound, i + 1)
  }

  /** The pairs the loops visit as written. */
  function SpansAsWritten(n: CString.SizeT, isRound: bool, i: CString.SizeT): seq<(nat, nat)>
    decreases CString.NPOS - i
  {
    var bound := CString.Sub(n, 1);
    if i >= bound || (!isRound && i >= n / 2) then [] else RowPairs(n, isRound, i, i + 1) + SpansAsWritten(n, isRound, i + 1)
  }

  /** The same loop with the bound clamped at 0. */
  function OuterIterations(n: nat, isRound: bool, i: nat): nat
    decreases n - i
  {
    if i + 1 >= n || (!isRound && i >= n / 2) then 0 else 1 + OuterIterations(n, isRound, i + 1)
  }

  lemma {:induction false} OuterIterationsAsWrittenFrom(i: CString.SizeT)
    ensures OuterIterationsAsWritten(0, true, i) == CString.NPOS - i
    decreases CString.NPOS - i
  {
    if i < CString.NPOS {
      OuterIterationsAsWrittenFrom(i + 1);
    }
  }

  /** A round bus with no stops: the loop as written idles through 2^64 - 1
      iterations, the clamped loop through none. */
  lemma EmptyRoundBusIterations()
    ensures OuterIterationsAsWritten(0, true, 0) == CString.NPOS
    ensures OuterIterations(0, true, 0) == 0
  {
    OuterIterationsAsWrittenFrom(0);
  }

  lemma {:induction false} SpansAsWrittenAgree(n: CString.SizeT, isRound: bool, i: CString.SizeT)
    requires n > 0 || !isRound || i <= CString.NPOS
    ensures SpansAsWritten(n, isRound, i) == LoopPairs(n, isRound, i)
    decreases CString.NPOS - i
  {
    if n == 0 {
      if isRound && i < CString.NPOS {
        SpansAsWrittenAgree(n, isRound, i + 1);
        assert RowPairs(n, isRound, i, i + 1) == [];
      }
    } else if !(i + 1 >= n || (!isRound && i >= n / 2)) {
      SpansAsWrittenAgree(n, isRound, i + 1);
    }
  }

  /** The underflow changes the running time only: the edges are the same. */
  lemma SpansAsWrittenSame(n: CString.SizeT, isRound: bool)
    ensures SpansAsWritten(n, isRound, 0) == Spans(n, isRound)
  {
    SpansAsWrittenAgree(n, isRound, 0);
  }
}
