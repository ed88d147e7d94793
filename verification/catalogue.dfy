/** The transport catalogue (transport_catalogue.cpp): the stop and bus
    registries, the stop -> buses reverse index and the directional road
    distances, as an immutable value that each `Add*` returns a new copy of.

    `stops` plays the role of the `std::deque<Stop>`: a stop's id is its
    index there. The name tables keep the FIRST entry for a name, as
    `unordered_map::insert` does; a bus is stored in its table by value, since
    nothing in the core compares `Bus*` addresses. */
module Catalogue {
  import opened Wrappers
  import opened Domain
  import Ordered
  import Decimal

  datatype Catalogue = Catalogue(
    stops: seq<Stop>,
    stopsTable: map<string, StopId>,
    busesTable: map<string, Bus>,
    stopsToBuses: map<string, seq<string>>,
    distances: map<(StopId, StopId), int>)

  const Empty: Catalogue := Catalogue([], map[], map[], map[], map[])

  /** The invariant every catalogue built by the `Add*` operations keeps. */
  ghost predicate Valid(c: Catalogue) {
    && (forall n :: n in c.stopsTable ==> c.stopsTable[n] < |c.stops| && c.stops[c.stopsTable[n]].name == n)
    && (forall i :: 0 <= i < |c.stops| ==> c.stops[i].name in c.stopsTable)
    && c.stopsToBuses.Keys == c.stopsTable.Keys
    && (forall n :: n in c.stopsToBuses ==> Ordered.StrictlySorted(c.stopsToBuses[n]))
    && (forall n :: n in c.busesTable ==> c.busesTable[n].name == n && StopsRegistered(c, c.busesTable[n].stops))
  }

  predicate StopsRegistered(c: Catalogue, ids: seq<StopId>) {
    forall k :: 0 <= k < |ids| ==> ids[k] < |c.stops|
  }

  /** A name some `AddStop` call registered. */
  predicate StopAdded(c: Catalogue, name: string) {
    HasName(c.stops, name)
  }

  lemma EmptyValid()
    ensures Valid(Empty)
  {
  }

  // ---------------------------------------------------------------- stops

  /** `AddStop`: appends the stop; its name gets the new id and an empty bus
      set unless the name was registered before. */
  function AddStop(c: Catalogue, stop: Stop): (r: Catalogue)
    ensures r.stops == c.stops + [stop]
    ensures stop.name in r.stopsTable && stop.name in r.stopsToBuses
    ensures stop.name !in c.stopsTable ==> r.stopsTable[stop.name] == |c.stops|
    ensures stop.name !in c.stopsToBuses ==> r.stopsToBuses[stop.name] == []
    ensures forall n :: n != stop.name && n in c.stopsTable ==> n in r.stopsTable && r.stopsTable[n] == c.stopsTable[n]
    ensures forall n :: n in c.stopsToBuses ==> n in r.stopsToBuses && r.stopsToBuses[n] == c.stopsToBuses[n]
    ensures r.busesTable == c.busesTable && r.distances == c.distances
  {
    c.(stops := c.stops + [stop],
       stopsTable := if stop.name in c.stopsTable then c.stopsTable else c.stopsTable[stop.name := |c.stops|],
       stopsToBuses := if stop.name in c.stopsToBuses then c.stopsToBuses else c.stopsToBuses[stop.name := []])
  }

  lemma AddStopValid(c: Catalogue, stop: Stop)
    requires Valid(c)
    ensures Valid(AddStop(c, stop))
  {
    var r := AddStop(c, stop);
    forall n | n in r.busesTable ensures StopsRegistered(r, r.busesTable[n].stops) {
      assert StopsRegistered(c, c.busesTable[n].stops);
    }
  }

  /** `FindStopByName`: the stop's id, or `invalid_argument` for an unknown name. */
  function FindStopByName(c: Catalogue, name: string): (r: Result<StopId>)
    ensures r.Failure? <==> name !in c.stopsTable
    ensures r.Failure? ==> r.error == InvalidArgument
    ensures r.Success? ==> r.value == c.stopsTable[name]
  {
    if name in c.stopsTable then Success(c.stopsTable[name]) else Failure(InvalidArgument)
  }

  /** Lookup fails exactly for names never added; otherwise it yields a stop
      carrying that name. */
  lemma FindStopByNameSpec(c: Catalogue, name: string)
    requires Valid(c)
    ensures FindStopByName(c, name).Failure? <==> !StopAdded(c, name)
    ensures FindStopByName(c, name).Success? ==>
      FindStopByName(c, name).value < |c.stops| && c.stops[FindStopByName(c, name).value].name == name
  {
    if StopAdded(c, name) {
      var i :| 0 <= i < |c.stops| && c.stops[i].name == name;
    }
    if name in c.stopsTable {
      assert c.stops[c.stopsTable[name]].name == name;
    }
  }

  /** A freshly added stop is found under its name and reported as existing
      with no buses. */
  lemma AddStopThenQuery(c: Catalogue, stop: Stop)
    requires Valid(c) && !StopAdded(c, stop.name)
    ensures FindStopByName(AddStop(c, stop), stop.name) == Success(|c.stops|)
    ensures GetStopInfo(AddStop(c, stop), stop.name) == StopResponse(true, [])
  {
    FindStopByNameSpec(c, stop.name);
  }

  // ---------------------------------------------------------------- buses

  /** `AddBus`: registers the bus and puts its name into the bus set of each
      of its stops; `stops_to_buses_.at` throws for a stop never added. */
  function AddBus(c: Catalogue, bus: Bus): (r: Result<Catalogue>)
    ensures r.Success? <==> forall k :: 0 <= k < |bus.stops| ==>
      bus.stops[k] < |c.stops| && c.stops[bus.stops[k]].name in c.stopsToBuses
    ensures r.Failure? ==> r.error == OutOfRange
    ensures r.Success? ==> r.value.stops == c.stops && r.value.stopsTable == c.stopsTable
    ensures r.Success? ==> r.value.distances == c.distances
    ensures r.Success? ==> r.value.busesTable.Keys == c.busesTable.Keys + {bus.name}
    ensures r.Success? && bus.name !in c.busesTable ==> r.value.busesTable[bus.name] == bus
    ensures r.Success? ==> forall n :: n in c.busesTable ==> r.value.busesTable[n] == c.busesTable[n]
    ensures r.Success? ==> r.value.stopsToBuses.Keys == c.stopsToBuses.Keys
    ensures r.Success? ==> forall k :: 0 <= k < |bus.stops| ==>
      bus.name in r.value.stopsToBuses[c.stops[bus.stops[k]].name]
    ensures r.Success? ==> forall n, b :: n in c.stopsToBuses ==>
      (b in r.value.stopsToBuses[n] <==> b in c.stopsToBuses[n] || (b == bus.name && n in StopNames(c, bus.stops)))
  {
    var index :- LinkStops(c.stops, c.stopsToBuses, bus.stops, bus.name);
    Success(c.(busesTable := if bus.name in c.busesTable then c.busesTable else c.busesTable[bus.name := bus],
               stopsToBuses := index))
  }

  /** The names of the stops `ids` refers to (those in range). */
  function StopNames(c: Catalogue, ids: seq<StopId>): set<string>
  {
    set k | 0 <= k < |ids| && ids[k] < |c.stops| :: c.stops[ids[k]].name
  }

  /** The loop of `AddBus` over the bus's stops. */
  function LinkStops(stops: seq<Stop>, index: map<string, seq<string>>, ids: seq<StopId>, busName: string)
    : (r: Result<map<string, seq<string>>>)
    ensures r.Success? <==> forall k :: 0 <= k < |ids| ==> ids[k] < |stops| && stops[ids[k]].name in index
    ensures r.Failure? ==> r.error == OutOfRange
    ensures r.Success? ==> r.value.Keys == index.Keys
    ensures r.Success? ==> forall n, b :: n in index ==>
      (b in r.value[n] <==> b in index[n] || (b == busName && exists k :: 0 <= k < |ids| && stops[ids[k]].name == n))
  {
    if |ids| == 0 then Success(index)
    else if ids[0] >= |stops| || stops[ids[0]].name !in index then Failure(OutOfRange)
    else
      var n := stops[ids[0]].name;
      var rest := LinkStops(stops, index[n := Ordered.Insert(index[n], busName)], ids[1..], busName);
      assert forall k :: 0 < k < |ids| ==> ids[k] == ids[1..][k - 1];
      assert rest.Success? ==> forall m :: m in index ==>
        ((exists k :: 0 <= k < |ids| && stops[ids[k]].name == m) <==>
         (m == n || exists k :: 0 <= k < |ids[1..]| && stops[ids[1..][k]].name == m));
      rest
  }

  lemma {:induction false} LinkStopsSorted(stops: seq<Stop>, index: map<string, seq<string>>, ids: seq<StopId>, busName: string)
    requires forall n :: n in index ==> Ordered.StrictlySorted(index[n])
    requires LinkStops(stops, index, ids, busName).Success?
    ensures forall n :: n in index ==> Ordered.StrictlySorted(LinkStops(stops, index, ids, busName).value[n])
  {
    if |ids| > 0 {
      var n := stops[ids[0]].name;
      Ordered.InsertSorted(index[n], busName);
      LinkStopsSorted(stops, index[n := Ordered.Insert(index[n], busName)], ids[1..], busName);
    }
  }

  lemma AddBusValid(c: Catalogue, bus: Bus)
    requires Valid(c) && AddBus(c, bus).Success?
    ensures Valid(AddBus(c, bus).value)
  {
    LinkStopsSorted(c.stops, c.stopsToBuses, bus.stops, bus.name);
  }

  /** `AddBus` succeeds exactly when every stop of the bus was added, and then
      the bus is listed among the buses of each of its stops. */
  lemma AddBusSpec(c: Catalogue, bus: Bus)
    requires Valid(c)
    ensures AddBus(c, bus).Success? <==> StopsRegistered(c, bus.stops)
    ensures AddBus(c, bus).Success? ==> forall k :: 0 <= k < |bus.stops| ==>
      var info := GetStopInfo(AddBus(c, bus).value, c.stops[bus.stops[k]].name);
      info.stopExist && bus.name in info.buses
  {
  }

  /** `FindBusByName`: the bus, or `invalid_argument` for an unknown name. */
  function FindBusByName(c: Catalogue, name: string): (r: Result<Bus>)
    ensures r.Failure? <==> name !in c.busesTable
    ensures r.Failure? ==> r.error == InvalidArgument
    ensures r.Success? ==> r.value == c.busesTable[name]
  {
    if name in c.busesTable then Success(c.busesTable[name]) else Failure(InvalidArgument)
  }

  // ------------------------------------------------------------ stop info

  /** `GetStopInfo`: "does not exist" for a name without a bus set, else the
      set's buses in ascending order. */
  function GetStopInfo(c: Catalogue, name: string): (r: StopResponse)
    ensures r.stopExist <==> name in c.stopsToBuses
    ensures r.stopExist ==> r.buses == c.stopsToBuses[name]
    ensures !r.stopExist ==> r.buses == []
  {
    if name !in c.stopsToBuses then StopResponse(false, [])
    else if |c.stopsToBuses[name]| == 0 then StopResponse(true, [])
    else StopResponse(true, c.stopsToBuses[name])
  }

  /** An unregistered name gives "does not exist", a registered stop gives
      "exists" with a strictly ascending list of buses. */
  lemma GetStopInfoSpec(c: Catalogue, name: string)
    requires Valid(c)
    ensures GetStopInfo(c, name).stopExist <==> StopAdded(c, name)
    ensures Ordered.StrictlySorted(GetStopInfo(c, name).buses)
  {
    FindStopByNameSpec(c, name);
  }

  // ------------------------------------------------------------ distances

  /** `AddDistance` (declared, not defined in the source): a map assignment. */
  function AddDistance(c: Catalogue, from: StopId, to: StopId, meters: int): (r: Catalogue)
    ensures (from, to) in r.distances && r.distances[(from, to)] == meters
    ensures forall k :: k != (from, to) && k in c.distances ==> k in r.distances && r.distances[k] == c.distances[k]
    ensures r.distances.Keys == c.distances.Keys + {(from, to)}
    ensures r.stops == c.stops && r.stopsTable == c.stopsTable
    ensures r.busesTable == c.busesTable && r.stopsToBuses == c.stopsToBuses
  {
    c.(distances := c.distances[(from, to) := meters])
  }

  lemma AddDistanceValid(c: Catalogue, from: StopId, to: StopId, meters: int)
    requires Valid(c)
    ensures Valid(AddDistance(c, from, to, meters))
  {
  }

  /** `GetDistance`: the (from, to) entry, else the (to, from) entry, else
      `unordered_map::at` throws `out_of_range`. */
  function GetDistance(c: Catalogue, from: StopId, to: StopId): (r: Result<int>)
    ensures r.Failure? <==> (from, to) !in c.distances && (to, from) !in c.distances
    ensures r.Failure? ==> r.error == OutOfRange
    ensures (from, to) in c.distances ==> r == Success(c.distances[(from, to)])
    ensures (from, to) !in c.distances && (to, from) in c.distances ==> r == Success(c.distances[(to, from)])
  {
    if (from, to) !in c.distances then
      if (to, from) in c.distances then Success(c.distances[(to, from)]) else Failure(OutOfRange)
    else Success(c.distances[(from, to)])
  }

  /** With one direction stored the distance is symmetric; with both stored
      each direction answers for itself. */
  lemma GetDistanceSymmetry(c: Catalogue, a: StopId, b: StopId)
    ensures ((a, b) in c.distances) != ((b, a) in c.distances) ==> GetDistance(c, a, b) == GetDistance(c, b, a)
    ensures (a, b) in c.distances && (b, a) in c.distances ==>
      GetDistance(c, a, b) == Success(c.distances[(a, b)]) && GetDistance(c, b, a) == Success(c.distances[(b, a)])
    ensures GetDistance(c, a, b).Success? <==> GetDistance(c, b, a).Success?
  {
  }

  // ------------------------------------------------------------- bus info

  /** Total road distance along `stops`, leg by leg. */
  function RoadLength(c: Catalogue, stops: seq<StopId>): (r: Result<int>)
    ensures r.Success? <==> forall i :: 1 <= i < |stops| ==> GetDistance(c, stops[i - 1], stops[i]).Success?
    ensures r.Failure? ==> r.error == OutOfRange
  {
    if |stops| < 2 then Success(0)
    else
      var prefix := stops[..|stops| - 1];
      assert forall i :: 0 <= i < |prefix| ==> prefix[i] == stops[i];
      var head :- RoadLength(c, prefix);
      var leg :- GetDistance(c, stops[|stops| - 2], stops[|stops| - 1]);
      Success(head + leg)
  }

  /** The stops a route visits, without repetition. */
  function UniqueStops(stops: seq<StopId>): set<StopId>
  {
    set k | 0 <= k < |stops| :: stops[k]
  }

  lemma {:induction false} UniqueStopsBound(stops: seq<StopId>)
    ensures |UniqueStops(stops)| <= |stops|
    ensures |stops| > 0 ==> |UniqueStops(stops)| > 0
  {
    if |stops| > 0 {
      var prefix := stops[..|stops| - 1];
      UniqueStopsBound(prefix);
      assert UniqueStops(stops) == UniqueStops(prefix) + {stops[|stops| - 1]} by {
        forall x ensures x in UniqueStops(stops) <==> x in UniqueStops(prefix) || x == stops[|stops| - 1] {
          if x in UniqueStops(stops) {
            var k :| 0 <= k < |stops| && stops[k] == x;
            if k < |stops| - 1 {
              assert prefix[k] == x;
            }
          }
          if x in UniqueStops(prefix) {
            var k :| 0 <= k < |prefix| && prefix[k] == x;
            assert stops[k] == x;
          }
        }
      }
    }
  }

  /** The `Distance` accumulator of `ComputeRoadBasedRouteLength`: the
      same sum as `RoadLength`, added up in a 32-bit `int`. A leg without a
      distance throws `out_of_range`; a partial sum outside `int` is
      undefined behaviour. */
  function RoadLength32(c: Catalogue, stops: seq<StopId>): (r: Result<int>)
    ensures r.Success? ==> Decimal.IsInt32(r.value) && RoadLength(c, stops) == r
    ensures r.Failure? ==> r.error == OutOfRange || r.error == Undefined
    ensures r.Failure? && r.error == OutOfRange ==> RoadLength(c, stops).Failure?
    ensures RoadLength(c, stops).Failure? ==> r.Failure?
  {
    if |stops| < 2 then Success(0)
    else
      var prefix := stops[..|stops| - 1];
      assert forall i :: 0 <= i < |prefix| ==> prefix[i] == stops[i];
      var head :- RoadLength32(c, prefix);
      var leg :- GetDistance(c, stops[|stops| - 2], stops[|stops| - 1]);
      if Decimal.IsInt32(head + leg) then Success(head + leg) else Failure(Undefined)
  }

  /** The road length from `x` along `t` is the first leg plus the road
      length along `t`. */
  lemma {:induction false} RoadLengthCons(c: Catalogue, x: StopId, t: seq<StopId>)
    requires |t| > 0
    ensures RoadLength(c, [x] + t).Success? <==> GetDistance(c, x, t[0]).Success? && RoadLength(c, t).Success?
    ensures RoadLength(c, [x] + t).Success? ==>
      RoadLength(c, [x] + t).value == GetDistance(c, x, t[0]).value + RoadLength(c, t).value
    decreases |t|
  {
    var s := [x] + t;
    if |t| == 1 {
      assert s[..1] == [x] && s[1] == t[0];
    } else {
      var prefix := t[..|t| - 1];
      RoadLengthCons(c, x, prefix);
      assert s[..|s| - 1] == [x] + prefix;
      assert s[|s| - 2] == t[|t| - 2] && s[|s| - 1] == t[|t| - 1];
    }
  }

  /** Every partial sum of the legs of `stops` that is defined fits in `int`. */
  predicate PartialSumsFit(c: Catalogue, stops: seq<StopId>) {
    forall k :: 2 <= k <= |stops| && RoadLength(c, stops[..k]).Success? ==> Decimal.IsInt32(RoadLength(c, stops[..k]).value)
  }

  /** The 32-bit sum is defined exactly when every leg has a distance and no
      partial sum leaves `int`; it is then the road length. */
  lemma {:induction false} RoadLength32Defined(c: Catalogue, stops: seq<StopId>)
    ensures RoadLength32(c, stops).Success? <==> RoadLength(c, stops).Success? && PartialSumsFit(c, stops)
    decreases |stops|
  {
    if |stops| >= 2 {
      var prefix := stops[..|stops| - 1];
      RoadLength32Defined(c, prefix);
      assert stops[..|stops|] == stops;
      assert forall k :: 2 <= k <= |prefix| ==> prefix[..k] == stops[..k];
      if RoadLength32(c, stops).Success? {
        assert PartialSumsFit(c, stops) by {
          forall k | 2 <= k <= |stops| && RoadLength(c, stops[..k]).Success?
            ensures Decimal.IsInt32(RoadLength(c, stops[..k]).value)
          {
            if k < |stops| {
              assert prefix[..k] == stops[..k];
            }
          }
        }
      }
      if RoadLength(c, stops).Success? && PartialSumsFit(c, stops) {
        assert RoadLength(c, prefix).Success?;
        assert PartialSumsFit(c, prefix) by {
          forall k | 2 <= k <= |prefix| && RoadLength(c, prefix[..k]).Success?
            ensures Decimal.IsInt32(RoadLength(c, prefix[..k]).value)
          {
            assert prefix[..k] == stops[..k];
          }
        }
        assert RoadLength(c, stops[..|stops|]).Success?;
      }
    }
  }

  /** Two legs of 2 000 000 000 m, each a valid `int`: the road length is
      4 000 000 000 m, but the 32-bit sum overflows. */
  lemma LongRouteOverflows(c: Catalogue)
    requires c.distances == map[(0, 1) := 2000000000, (1, 2) := 2000000000]
    ensures Decimal.IsInt32(c.distances[(0, 1)]) && Decimal.IsInt32(c.distances[(1, 2)])
    ensures RoadLength(c, [0, 1, 2]) == Success(4000000000)
    ensures RoadLength32(c, [0, 1, 2]) == Failure(Undefined)
  {
    assert [0, 1, 2][..2] == [0, 1];
    assert [0, 1][..1] == [0];
    assert GetDistance(c, 0, 1) == Success(2000000000);
    assert GetDistance(c, 1, 2) == Success(2000000000);
    assert RoadLength(c, [0, 1]) == Success(2000000000);
  }

  /** `GetBusInfo`: `invalid_argument` for an unknown bus, `out_of_range`
      for a leg without a stored distance, undefined behaviour when the
      32-bit road length overflows; `bus_exist` is never assigned and keeps
      its default `false`. */
  function GetBusInfo(c: Catalogue, busName: string): (r: Result<BusResponse>)
    ensures busName !in c.busesTable ==> r == Failure(InvalidArgument)
    ensures busName in c.busesTable ==>
      var stops := c.busesTable[busName].stops;
      && (r.Success? <==> RoadLength(c, stops).Success? && PartialSumsFit(c, stops))
      && (r.Failure? ==> RoadLength32(c, stops).Failure? && r.error == RoadLength32(c, stops).error)
    ensures r.Success? ==>
      var stops := c.busesTable[busName].stops;
      && !r.value.busExist
      && r.value.stopsCount == |stops|
      && r.value.uniqueStopsCount == |UniqueStops(stops)|
      && r.value.uniqueStopsCount <= r.value.stopsCount
      && r.value.routeLength == RoadLength(c, stops).value
      && Decimal.IsInt32(r.value.routeLength)
  {
    var bus :- FindBusByName(c, busName);
    RoadLength32Defined(c, bus.stops);
    var length :- RoadLength32(c, bus.stops);
    UniqueStopsBound(bus.stops);
    Success(BusResponse(false, |bus.stops|, |UniqueStops(bus.stops)|, length))
  }

  /** A failure of the 32-bit sum over a prefix is the failure over the
      whole route: the loop stops at the first failing leg. */
  lemma {:induction false} RoadLength32PrefixFails(c: Catalogue, stops: seq<StopId>, i: nat)
    requires i <= |stops| && RoadLength32(c, stops[..i]).Failure?
    ensures RoadLength32(c, stops) == RoadLength32(c, stops[..i])
    decreases |stops|
  {
    if i == |stops| {
      assert stops[..i] == stops;
    } else {
      var prefix := stops[..|stops| - 1];
      assert prefix[..i] == stops[..i];
      RoadLength32PrefixFails(c, prefix, i);
    }
  }

  /** The loop of `ComputeRoadBasedRouteLength`, which computes the 32-bit
      sum. */
  method ComputeRoadBasedRouteLength(c: Catalogue, stops: seq<StopId>) returns (r: Result<int>)
    ensures r == RoadLength32(c, stops)
  {
    if |stops| == 0 {
      return Success(0);
    }
    var total := 0;
    var i := 1;
    while i < |stops|
      invariant 1 <= i <= |stops|
      invariant RoadLength32(c, stops[..i]) == Success(total)
    {
      assert stops[..i + 1][..i] == stops[..i];
      var leg := GetDistance(c, stops[i - 1], stops[i]);
      if leg.Failure? {
        RoadLength32PrefixFails(c, stops, i + 1);
        return Failure(OutOfRange);
      }
      if !Decimal.IsInt32(total + leg.value) {
        RoadLength32PrefixFails(c, stops, i + 1);
        return Failure(Undefined);
      }
      total := total + leg.value;
      i := i + 1;
    }
    assert stops[..i] == stops;
    r := Success(total);
  }

  /** The `unordered_set<Stop*>` loop of `GetBusInfo`, which counts the
      distinct stops. */
  method CountUniqueStops(stops: seq<StopId>) returns (count: nat)
    ensures count == |UniqueStops(stops)|
  {
    var seen: set<StopId> := {};
    var i := 0;
    while i < |stops|
      invariant 0 <= i <= |stops|
      invariant seen == UniqueStops(stops[..i])
    {
      assert UniqueStops(stops[..i + 1]) == UniqueStops(stops[..i]) + {stops[i]} by {
        var p := stops[..i + 1];
        forall x ensures x in UniqueStops(p) <==> x in UniqueStops(stops[..i]) || x == stops[i] {
          if x in UniqueStops(p) {
            var k :| 0 <= k < |p| && p[k] == x;
            if k < i {
              assert stops[..i][k] == x;
            }
          }
          if x in UniqueStops(stops[..i]) {
            var k :| 0 <= k < i && stops[..i][k] == x;
            assert p[k] == x;
          }
        }
      }
      seen := seen + {stops[i]};
      i := i + 1;
    }
    assert stops[..i] == stops;
    count := |seen|;
  }

  // ------------------------------------------------------------ enumeration

  /** `GetAllStops` (called by transport_router.cpp, declared and defined
      nowhere in the source): the registered names in registration order,
      each once. */
  function AllStops(c: Catalogue): (r: seq<string>)
    ensures Ordered.Distinct(r)
    ensures forall n :: n in r <==> HasName(c.stops, n)
  {
    RegisteredNames(c.stops)
  }

  /** Some stop of `stops` is called `n`. */
  predicate HasName(stops: seq<Stop>, n: string) {
    exists i :: 0 <= i < |stops| && stops[i].name == n
  }

  function RegisteredNames(stops: seq<Stop>): (r: seq<string>)
    ensures Ordered.Distinct(r)
    ensures forall n :: n in r <==> HasName(stops, n)
  {
    if |stops| == 0 then []
    else
      var prefix := stops[..|stops| - 1];
      var names := RegisteredNames(prefix);
      var last := stops[|stops| - 1].name;
      assert forall n :: HasName(stops, n) <==> n == last || HasName(prefix, n) by {
        forall n | HasName(stops, n) ensures n == last || HasName(prefix, n) {
          var i :| 0 <= i < |stops| && stops[i].name == n;
          if i < |prefix| {
            assert prefix[i].name == n;
          }
        }
        forall n | HasName(prefix, n) ensures HasName(stops, n) {
          var i :| 0 <= i < |prefix| && prefix[i].name == n;
          assert stops[i].name == n;
        }
      }
      if last in names then names else names + [last]
  }

  /** `order` lists every registered stop name once, as iterating the
      stop table does (in an order the hash table chooses). */
  ghost predicate EnumeratesStops(c: Catalogue, order: seq<string>) {
    Ordered.Distinct(order) && forall n :: n in order <==> n in c.stopsTable
  }

  /** `order` lists every bus name once, as iterating the bus table does. */
  ghost predicate EnumeratesBuses(c: Catalogue, order: seq<string>) {
    Ordered.Distinct(order) && forall n :: n in order <==> n in c.busesTable
  }

  /** Registration order is one enumeration of the stop table. */
  lemma AllStopsEnumerates(c: Catalogue)
    requires Valid(c)
    ensures EnumeratesStops(c, AllStops(c))
  {
    forall n ensures n in AllStops(c) <==> n in c.stopsTable {
      FindStopByNameSpec(c, n);
    }
  }
}
