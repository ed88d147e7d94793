/** The JSON front end of json_reader.cpp: reading the base requests into
    buffers, loading the buffers into a catalogue (stops, then distances,
    then buses) and answering the stat requests through the JSON builder. */
module JsonReader {
  import opened Wrappers
  import opened Domain
  import opened Json
  import JsonBuilder
  import Catalogue
  import TransportRouter
  import Decimal
  import Seqs

  // ------------------------------------------------------------ buffers

  datatype BusBuffer = BusBuffer(busName: string, stopsNames: seq<string>, isRound: bool)

  /** Distances keyed by (this stop, neighbour) name pairs. */
  type DistanceBuffer = map<(string, string), int>

  datatype Reader = Reader(
    stops: seq<Stop>,
    buses: seq<BusBuffer>,
    distances: DistanceBuffer,
    statRequests: seq<Node>,
    renderSettings: map<string, Node>,
    routingSettings: map<string, Node>)

  /** `AsString` of every node, in order. */
  function StringsOf(nodes: seq<Node>): (r: Result<seq<string>>)
    ensures r.Success? <==> forall k :: 0 <= k < |nodes| ==> nodes[k].String?
    ensures r.Failure? ==> r.error == LogicError
    ensures r.Success? ==> |r.value| == |nodes| && forall k :: 0 <= k < |nodes| ==> r.value[k] == nodes[k].s
  {
    if |nodes| == 0 then Success([])
    else
      var first :- AsString(nodes[0]);
      var rest :- StringsOf(nodes[1..]);
      assert forall k :: 1 <= k < |nodes| ==> nodes[k] == nodes[1..][k - 1];
      Success([first] + rest)
  }

  /** The stops of a there-and-back route: outward, then back without
      repeating the far end. */
  function OutAndBack(s: seq<string>): (r: seq<string>)
    requires |s| > 0
  {
    s + Seqs.Reverse(s[..|s| - 1])
  }

  /** The stored route runs out along `s` and back: it has `2|s| - 1` stops,
      reads the same both ways, starts and ends at `s[0]` and turns at the
      last outward stop. */
  lemma OutAndBackShape(s: seq<string>)
    requires |s| > 0
    ensures var r := OutAndBack(s);
      && |r| == 2 * |s| - 1
      && r[..|s|] == s
      && (forall k :: 0 <= k < |r| ==> r[k] == r[|r| - 1 - k])
      && r[0] == s[0] && r[|r| - 1] == s[0]
      && r[|s| - 1] == s[|s| - 1]
  {
    var r := OutAndBack(s);
    assert r[..|s|] == s;
    forall k | 0 <= k < |r| ensures r[k] == r[|r| - 1 - k] {
      if k >= |s| {
        assert r[k] == s[2 * |s| - 2 - k];
      } else if |r| - 1 - k >= |s| {
        assert r[|r| - 1 - k] == s[k];
      }
    }
  }

  /** `ParseBus`: name, stop names and round flag; a there-and-back list is
      expanded. `rbegin() + 1` of an empty list is undefined behaviour. */
  function ParseBus(dict: map<string, Node>): (r: Result<BusBuffer>)
    ensures r.Success? ==> "name" in dict && dict["name"].String? && r.value.busName == dict["name"].s
    ensures r.Success? ==> "is_roundtrip" in dict && dict["is_roundtrip"].Bool? && r.value.isRound == dict["is_roundtrip"].b
    ensures r.Success? ==> "stops" in dict && dict["stops"].Array?
    ensures r.Success? ==>
      var nodes := dict["stops"].items;
      && (forall k :: 0 <= k < |nodes| ==> nodes[k].String?)
      && (if r.value.isRound then r.value.stopsNames == StringsOf(nodes).value
          else |nodes| > 0 && r.value.stopsNames == OutAndBack(StringsOf(nodes).value))
    ensures (&& "name" in dict && dict["name"].String? && "stops" in dict && dict["stops"].Array?
             && "is_roundtrip" in dict && dict["is_roundtrip"].Bool? && !dict["is_roundtrip"].b
             && dict["stops"].items == []) ==> r == Failure(Undefined)
  {
    var nameNode :- MapAt(dict, "name");
    var name :- AsString(nameNode);
    var stopsNode :- MapAt(dict, "stops");
    var nodes :- AsArray(stopsNode);
    var roundNode :- MapAt(dict, "is_roundtrip");
    var isRound :- AsBool(roundNode);
    var names :- StringsOf(nodes);
    if isRound then Success(BusBuffer(name, names, true))
    else if |names| == 0 then Failure(Undefined)
    else
      OutAndBackShape(names);
      Success(BusBuffer(name, OutAndBack(names), false))
  }

  /** `stops_distances_buffer_.insert` of every `road_distances` entry under
      (stop, neighbour): a pair already buffered keeps its value. */
  function BufferDistances(buf: DistanceBuffer, stop: string, roads: map<string, Node>): (r: DistanceBuffer)
    requires forall n :: n in roads ==> roads[n].Int?
    ensures forall n :: n in roads ==> (stop, n) in r
    ensures forall n :: n in roads && (stop, n) !in buf ==> r[(stop, n)] == roads[n].i
    ensures forall k :: k in buf ==> k in r && r[k] == buf[k]
    ensures forall k :: k in r ==> k in buf || (k.0 == stop && k.1 in roads)
  {
    buf + map n | n in roads && (stop, n) !in buf :: (stop, n) := roads[n].i
  }

  /** `ParseStop`: the stop with its coordinates and its buffered distances;
      every distance must be an integer. */
  function ParseStop(buf: DistanceBuffer, dict: map<string, Node>): (r: Result<(Stop, DistanceBuffer)>)
    ensures r.Success? ==> "name" in dict && dict["name"].String? && r.value.0.name == dict["name"].s
    ensures r.Success? ==> "road_distances" in dict && dict["road_distances"].Dict?
    ensures r.Success? ==>
      var roads := dict["road_distances"].entries;
      && (forall n :: n in roads ==> roads[n].Int?)
      && r.value.1 == BufferDistances(buf, r.value.0.name, roads)
    ensures (&& "name" in dict && dict["name"].String? && "latitude" in dict && IsDouble(dict["latitude"])
             && "longitude" in dict && IsDouble(dict["longitude"]) && "road_distances" in dict && dict["road_distances"].Dict?
             && exists n :: n in dict["road_distances"].entries && !dict["road_distances"].entries[n].Int?)
            ==> r == Failure(LogicError)
  {
    var nameNode :- MapAt(dict, "name");
    var name :- AsString(nameNode);
    var latNode :- MapAt(dict, "latitude");
    var latitude :- AsDouble(latNode);
    var lonNode :- MapAt(dict, "longitude");
    var longitude :- AsDouble(lonNode);
    var roadsNode :- MapAt(dict, "road_distances");
    var roads :- AsMap(roadsNode);
    if forall n :: n in roads ==> roads[n].Int? then
      Success((Stop(name, Coordinates(latitude, longitude)), BufferDistances(buf, name, roads)))
    else Failure(LogicError)
  }

  /** A stop described twice keeps the distances of its first description. */
  lemma RepeatedStopKeepsFirst(buf: DistanceBuffer, stop: string, first: map<string, Node>, second: map<string, Node>)
    requires forall n :: n in first ==> first[n].Int?
    requires forall n :: n in second ==> second[n].Int?
    ensures forall n :: n in first && (stop, n) !in buf ==>
      BufferDistances(BufferDistances(buf, stop, first), stop, second)[(stop, n)] == first[n].i
  {
  }

  /** The loop over `base_requests`: a request of type "Stop" is parsed as a
      stop, any other as a bus. */
  function ParseBase(reqs: seq<Node>, r: Reader): (res: Result<Reader>)
    ensures res.Success? ==> |res.value.stops| >= |r.stops| && |res.value.buses| >= |r.buses|
    ensures res.Success? ==>
      && res.value.stops[..|r.stops|] == r.stops
      && res.value.buses[..|r.buses|] == r.buses
      && |res.value.stops| + |res.value.buses| == |r.stops| + |r.buses| + |reqs|
      && res.value.statRequests == r.statRequests
      && res.value.renderSettings == r.renderSettings
      && res.value.routingSettings == r.routingSettings
    decreases |reqs|
  {
    if |reqs| == 0 then Success(r)
    else
      var dict :- AsMap(reqs[0]);
      var typeNode :- MapAt(dict, "type");
      var kind :- AsString(typeNode);
      if kind == "Stop" then
        var (stop, distances) :- ParseStop(r.distances, dict);
        var next := r.(stops := r.stops + [stop], distances := distances);
        var res :- ParseBase(reqs[1..], next);
        assert res.stops[..|r.stops|] == res.stops[..|next.stops|][..|r.stops|];
        Success(res)
      else
        var bus :- ParseBus(dict);
        var next := r.(buses := r.buses + [bus]);
        var res :- ParseBase(reqs[1..], next);
        assert res.buses[..|r.buses|] == res.buses[..|next.buses|][..|r.buses|];
        Success(res)
  }

  /** `ReadInput`: the four top-level sections, then the base requests. */
  function ReadInput(root: Node): (r: Result<Reader>)
    ensures r.Success? ==> root.Dict?
    ensures r.Success? ==>
      var top := root.entries;
      && "base_requests" in top && top["base_requests"].Array?
      && "render_settings" in top && top["render_settings"].Dict? && r.value.renderSettings == top["render_settings"].entries
      && "stat_requests" in top && top["stat_requests"].Array? && r.value.statRequests == top["stat_requests"].items
      && "routing_settings" in top && top["routing_settings"].Dict? && r.value.routingSettings == top["routing_settings"].entries
      && |r.value.stops| + |r.value.buses| == |top["base_requests"].items|
    ensures !root.Dict? ==> r == Failure(LogicError)
  {
    var top :- AsMap(root);
    var baseNode :- MapAt(top, "base_requests");
    var base :- AsArray(baseNode);
    var renderNode :- MapAt(top, "render_settings");
    var render :- AsMap(renderNode);
    var statNode :- MapAt(top, "stat_requests");
    var stats :- AsArray(statNode);
    var routingNode :- MapAt(top, "routing_settings");
    var routing :- AsMap(routingNode);
    ParseBase(base, Reader([], [], map[], stats, render, routing))
  }

  /** `CreateTransportRouter`'s settings: an integer wait time and a numeric
      velocity. */
  function RoutingSettingsOf(r: Reader): (s: Result<RoutingSettings>)
    ensures s.Success? <==> (&& "bus_wait_time" in r.routingSettings && r.routingSettings["bus_wait_time"].Int?
                             && "bus_velocity" in r.routingSettings && IsDouble(r.routingSettings["bus_velocity"]))
    ensures s.Success? ==> s.value.busWaitTime == r.routingSettings["bus_wait_time"].i as real
    ensures s.Success? ==> s.value.busVelocity == AsDouble(r.routingSettings["bus_velocity"]).value
  {
    var waitNode :- MapAt(r.routingSettings, "bus_wait_time");
    var wait :- AsInt(waitNode);
    var velocityNode :- MapAt(r.routingSettings, "bus_velocity");
    var velocity :- AsDouble(velocityNode);
    Success(RoutingSettings(wait as real, velocity))
  }

  // ----------------------------------------------------------- database

  /** A stop of `stops` is called `n`. */
  predicate Buffered(stops: seq<Stop>, n: string) {
    Catalogue.HasName(stops, n)
  }

  function AddStops(c: Catalogue.Catalogue, stops: seq<Stop>): (r: Catalogue.Catalogue)
    ensures r.stops == c.stops + stops
    ensures r.busesTable == c.busesTable && r.distances == c.distances
    decreases |stops|
  {
    if |stops| == 0 then c else AddStops(Catalogue.AddStop(c, stops[0]), stops[1..])
  }

  lemma {:induction false} AddStopsValid(c: Catalogue.Catalogue, stops: seq<Stop>)
    requires Catalogue.Valid(c)
    ensures Catalogue.Valid(AddStops(c, stops))
    decreases |stops|
  {
    if |stops| > 0 {
      Catalogue.AddStopValid(c, stops[0]);
      AddStopsValid(Catalogue.AddStop(c, stops[0]), stops[1..]);
    }
  }

  predicate DistinctPairs(s: seq<(string, string)>) {
    forall i, j :: 0 <= i < j < |s| ==> s[i] != s[j]
  }

  /** The ids of a buffered name pair. */
  function IdPair(c: Catalogue.Catalogue, k: (string, string)): (StopId, StopId)
    requires k.0 in c.stopsTable && k.1 in c.stopsTable
  {
    (c.stopsTable[k.0], c.stopsTable[k.1])
  }

  /** The distance loop, over the buffer's entries in `order`; an unknown name
      makes `FindStopByName` throw. */
  function AddDistances(c: Catalogue.Catalogue, buf: DistanceBuffer, order: seq<(string, string)>): (r: Result<Catalogue.Catalogue>)
    requires forall i :: 0 <= i < |order| ==> order[i] in buf
    ensures r.Success? <==> forall i :: 0 <= i < |order| ==> order[i].0 in c.stopsTable && order[i].1 in c.stopsTable
    ensures r.Failure? ==> r.error == InvalidArgument
    ensures r.Success? ==> r.value == c.(distances := r.value.distances)
    decreases |order|
  {
    if |order| == 0 then Success(c)
    else
      var k := order[0];
      var a :- Catalogue.FindStopByName(c, k.0);
      var b :- Catalogue.FindStopByName(c, k.1);
      var next := Catalogue.AddDistance(c, a, b, buf[k]);
      assert forall i :: 1 <= i < |order| ==> order[i] == order[1..][i - 1];
      AddDistances(next, buf, order[1..])
  }

  /** After the distance loop, each buffered pair's distance is stored under
      the pair's stop ids, when the pairs are listed once each. */
  lemma {:induction false} AddDistancesStored(c: Catalogue.Catalogue, buf: DistanceBuffer, order: seq<(string, string)>)
    requires IdsDistinct(c.stopsTable) && DistinctPairs(order)
    requires forall i :: 0 <= i < |order| ==> order[i] in buf
    requires AddDistances(c, buf, order).Success?
    ensures forall i :: 0 <= i < |order| ==>
      IdPair(c, order[i]) in AddDistances(c, buf, order).value.distances
      && AddDistances(c, buf, order).value.distances[IdPair(c, order[i])] == buf[order[i]]
    decreases |order|
  {
    if |order| > 0 {
      var k := order[0];
      var next := Catalogue.AddDistance(c, c.stopsTable[k.0], c.stopsTable[k.1], buf[k]);
      assert next.stopsTable == c.stopsTable;
      var rest := order[1..];
      DistinctRest(c, order);
      var res := AddDistances(c, buf, order).value;
      assert AddDistances(next, buf, rest) == Success(res);
      AddDistancesStored(next, buf, rest);
      AddDistancesKeeps(next, buf, rest, IdPair(c, k));
      StoredAll(c, buf, order, res.distances);
    }
  }

  /** The pairs after the head are distinct, and none has the head's ids. */
  lemma DistinctRest(c: Catalogue.Catalogue, order: seq<(string, string)>)
    requires IdsDistinct(c.stopsTable) && DistinctPairs(order) && |order| > 0
    requires forall i :: 0 <= i < |order| ==> order[i].0 in c.stopsTable && order[i].1 in c.stopsTable
    ensures DistinctPairs(order[1..])
    ensures forall i :: 0 <= i < |order[1..]| ==> IdPair(c, order[1..][i]) != IdPair(c, order[0])
  {
    var rest := order[1..];
    assert forall i :: 0 <= i < |rest| ==> rest[i] == order[i + 1];
  }

  /** The head pair and the pairs after it are stored, so all pairs are. */
  lemma StoredAll(c: Catalogue.Catalogue, buf: DistanceBuffer, order: seq<(string, string)>, stored: map<(StopId, StopId), int>)
    requires |order| > 0 && forall i :: 0 <= i < |order| ==> order[i] in buf
    requires forall i :: 0 <= i < |order| ==> order[i].0 in c.stopsTable && order[i].1 in c.stopsTable
    requires IdPair(c, order[0]) in stored && stored[IdPair(c, order[0])] == buf[order[0]]
    requires forall i :: 0 <= i < |order[1..]| ==>
      IdPair(c, order[1..][i]) in stored && stored[IdPair(c, order[1..][i])] == buf[order[1..][i]]
    ensures forall i :: 0 <= i < |order| ==> IdPair(c, order[i]) in stored && stored[IdPair(c, order[i])] == buf[order[i]]
  {
    forall i | 0 < i < |order| ensures IdPair(c, order[i]) in stored && stored[IdPair(c, order[i])] == buf[order[i]] {
      assert order[i] == order[1..][i - 1];
    }
  }

  /** Distinct registered names have distinct ids. */
  predicate IdsDistinct(table: map<string, StopId>) {
    forall a, b :: a in table && b in table && table[a] == table[b] ==> a == b
  }

  lemma TableInjective(c: Catalogue.Catalogue)
    requires Catalogue.Valid(c)
    ensures IdsDistinct(c.stopsTable)
  {
    forall a, b | a in c.stopsTable && b in c.stopsTable && c.stopsTable[a] == c.stopsTable[b] ensures a == b {
      assert c.stops[c.stopsTable[a]].name == a;
      assert c.stops[c.stopsTable[b]].name == b;
    }
  }

  /** The distance loop leaves the entry under `key` alone when no pair of
      `order` has those ids. */
  lemma {:induction false} AddDistancesKeeps(c: Catalogue.Catalogue, buf: DistanceBuffer, order: seq<(string, string)>, key: (StopId, StopId))
    requires forall i :: 0 <= i < |order| ==> order[i] in buf
    requires AddDistances(c, buf, order).Success?
    requires forall i :: 0 <= i < |order| ==> IdPair(c, order[i]) != key
    requires key in c.distances
    ensures key in AddDistances(c, buf, order).value.distances
    ensures AddDistances(c, buf, order).value.distances[key] == c.distances[key]
    decreases |order|
  {
    if |order| > 0 {
      var k := order[0];
      var next := Catalogue.AddDistance(c, c.stopsTable[k.0], c.stopsTable[k.1], buf[k]);
      var rest := order[1..];
      assert forall i :: 0 <= i < |rest| ==> rest[i] == order[i + 1];
      AddDistancesKeeps(next, buf, rest, key);
    }
  }

  /** `FindStopByName` of every name. */
  function FindStops(c: Catalogue.Catalogue, names: seq<string>): (r: Result<seq<StopId>>)
    ensures r.Success? <==> forall k :: 0 <= k < |names| ==> names[k] in c.stopsTable
    ensures r.Failure? ==> r.error == InvalidArgument
    ensures r.Success? ==> |r.value| == |names| && forall k :: 0 <= k < |names| ==> r.value[k] == c.stopsTable[names[k]]
  {
    if |names| == 0 then Success([])
    else
      var first :- Catalogue.FindStopByName(c, names[0]);
      var rest :- FindStops(c, names[1..]);
      assert forall k :: 1 <= k < |names| ==> names[k] == names[1..][k - 1];
      Success([first] + rest)
  }

  /** The bus loop: each buffered bus with its stops looked up by name. */
  function AddBuses(c: Catalogue.Catalogue, buses: seq<BusBuffer>): (r: Result<Catalogue.Catalogue>)
    ensures r.Failure? ==> r.error == InvalidArgument || r.error == OutOfRange
    ensures r.Success? ==> r.value.stops == c.stops && r.value.stopsTable == c.stopsTable && r.value.distances == c.distances
    decreases |buses|
  {
    if |buses| == 0 then Success(c)
    else
      var b := buses[0];
      var ids :- FindStops(c, b.stopsNames);
      var next :- Catalogue.AddBus(c, Bus(b.busName, ids, b.isRound));
      AddBuses(next, buses[1..])
  }

  /** Every stop name a bus lists. */
  predicate BusStopsKnown(c: Catalogue.Catalogue, buses: seq<BusBuffer>) {
    forall i, k :: 0 <= i < |buses| && 0 <= k < |buses[i].stopsNames| ==> buses[i].stopsNames[k] in c.stopsTable
  }

  /** Some bus of `buses` is called `n`. */
  predicate BufferedBus(buses: seq<BusBuffer>, n: string) {
    exists i :: 0 <= i < |buses| && buses[i].busName == n
  }

  /** The i-th bus is the first of `buses` under its name, and the catalogue
      has no bus of that name yet: `insert` keeps the first bus under a name. */
  predicate FirstOfName(c: Catalogue.Catalogue, buses: seq<BusBuffer>, i: nat)
    requires i < |buses|
  {
    buses[i].busName !in c.busesTable && forall j :: 0 <= j < i ==> buses[j].busName != buses[i].busName
  }

  /** The catalogue holds the buffered bus under its name, with its kind and
      with the ids of the stops it lists, in order. */
  predicate BusLoaded(c: Catalogue.Catalogue, b: BusBuffer) {
    && b.busName in c.busesTable
    && c.busesTable[b.busName].name == b.busName
    && c.busesTable[b.busName].isRound == b.isRound
    && |c.busesTable[b.busName].stops| == |b.stopsNames|
    && forall k :: 0 <= k < |b.stopsNames| ==>
         b.stopsNames[k] in c.stopsTable && c.busesTable[b.busName].stops[k] == c.stopsTable[b.stopsNames[k]]
  }

  /** After the bus loop from `c` over `buses`, `r` registers every bus
      name, keeps the buses `c` had, and holds the first bus under each new
      name with its stops. */
  ghost predicate BusesRegistered(c: Catalogue.Catalogue, buses: seq<BusBuffer>, r: Catalogue.Catalogue) {
    && (forall n :: n in r.busesTable <==> n in c.busesTable || BufferedBus(buses, n))
    && (forall n :: n in c.busesTable ==> r.busesTable[n] == c.busesTable[n])
    && forall i :: 0 <= i < |buses| && FirstOfName(c, buses, i) ==> BusLoaded(r, buses[i])
  }

  lemma {:induction false} AddBusesRegisters(c: Catalogue.Catalogue, buses: seq<BusBuffer>)
    requires AddBuses(c, buses).Success?
    ensures AddBuses(c, buses).value.stopsTable == c.stopsTable
    ensures BusesRegistered(c, buses, AddBuses(c, buses).value)
    decreases |buses|
  {
    if |buses| > 0 {
      var b := buses[0];
      var rest := buses[1..];
      assert forall i :: 0 <= i < |rest| ==> rest[i] == buses[i + 1];
      var ids := FindStops(c, b.stopsNames).value;
      var bus := Bus(b.busName, ids, b.isRound);
      var next := Catalogue.AddBus(c, bus).value;
      AddBusesRegisters(next, rest);
      var r := AddBuses(next, rest).value;
      forall n ensures n in r.busesTable <==> n in c.busesTable || BufferedBus(buses, n) {
        if BufferedBus(rest, n) {
          var i :| 0 <= i < |rest| && rest[i].busName == n;
          assert buses[i + 1].busName == n;
        }
        if BufferedBus(buses, n) && n != b.busName {
          var i :| 0 <= i < |buses| && buses[i].busName == n;
          assert rest[i - 1].busName == n;
        }
      }
      forall i | 0 <= i < |buses| && FirstOfName(c, buses, i) ensures BusLoaded(r, buses[i]) {
        if i == 0 {
          assert next.busesTable[b.busName] == bus;
        } else {
          assert buses[0].busName != buses[i].busName;
          assert FirstOfName(next, rest, i - 1);
        }
      }
    }
  }

  /** The bus loop succeeds exactly when every listed stop is registered. It
      then registers every bus name, keeps the buses already registered,
      holds the first bus under each new name with its stops, and lists each
      bus among the buses of each of its stops. */
  lemma AddBusesSpec(c: Catalogue.Catalogue, buses: seq<BusBuffer>)
    requires Catalogue.Valid(c)
    ensures AddBuses(c, buses).Success? <==> BusStopsKnown(c, buses)
    ensures AddBuses(c, buses).Success? ==>
      var r := AddBuses(c, buses).value;
      && Catalogue.Valid(r) && r.stops == c.stops && r.stopsTable == c.stopsTable && r.distances == c.distances
      && BusesRegistered(c, buses, r)
      && (forall n, b :: n in c.stopsToBuses && b in c.stopsToBuses[n] ==> b in r.stopsToBuses[n])
      && forall i, k :: 0 <= i < |buses| && 0 <= k < |buses[i].stopsNames| ==>
           buses[i].busName in r.stopsToBuses[buses[i].stopsNames[k]]
  {
    AddBusesLinks(c, buses);
    if AddBuses(c, buses).Success? {
      AddBusesRegisters(c, buses);
    }
  }

  /** The bus loop succeeds exactly when every listed stop is registered,
      keeps the registry invariant, and adds each bus to the bus set of
      each of its stops. */
  lemma {:induction false} AddBusesLinks(c: Catalogue.Catalogue, buses: seq<BusBuffer>)
    requires Catalogue.Valid(c)
    ensures AddBuses(c, buses).Success? <==> BusStopsKnown(c, buses)
    ensures AddBuses(c, buses).Success? ==>
      var r := AddBuses(c, buses).value;
      && Catalogue.Valid(r)
      && (forall n, b :: n in c.stopsToBuses && b in c.stopsToBuses[n] ==> b in r.stopsToBuses[n])
      && forall i, k :: 0 <= i < |buses| && 0 <= k < |buses[i].stopsNames| ==>
           buses[i].busName in r.stopsToBuses[buses[i].stopsNames[k]]
    decreases |buses|
  {
    if |buses| > 0 {
      var b := buses[0];
      var rest := buses[1..];
      assert forall i :: 0 <= i < |rest| ==> rest[i] == buses[i + 1];
      if FindStops(c, b.stopsNames).Success? {
        var ids := FindStops(c, b.stopsNames).value;
        var bus := Bus(b.busName, ids, b.isRound);
        assert Catalogue.StopsRegistered(c, ids);
        Catalogue.AddBusSpec(c, bus);
        Catalogue.AddBusValid(c, bus);
        var next := Catalogue.AddBus(c, bus).value;
        AddBusesLinks(next, rest);
        assert BusStopsKnown(c, buses) <==> BusStopsKnown(next, rest);
        if AddBuses(c, buses).Success? {
          var r := AddBuses(next, rest).value;
          forall i, k | 0 <= i < |buses| && 0 <= k < |buses[i].stopsNames|
            ensures buses[i].busName in r.stopsToBuses[buses[i].stopsNames[k]]
          {
            if i == 0 {
              assert c.stops[ids[k]].name == b.stopsNames[k];
              assert b.busName in next.stopsToBuses[b.stopsNames[k]];
            } else {
              assert buses[i] == rest[i - 1];
            }
          }
        }
      } else {
        assert !BusStopsKnown(c, buses);
      }
    }
  }

  /** `CreateDatabase`: all stops, then all distances (in the buffer's
      iteration order `order`), then all buses. */
  function CreateDatabase(r: Reader, order: seq<(string, string)>): (c: Result<Catalogue.Catalogue>)
    requires DistinctPairs(order) && forall k :: k in order <==> k in r.distances
    ensures c.Failure? ==> c.error == InvalidArgument || c.error == OutOfRange
    ensures c.Success? ==> c.value.stops == r.stops
  {
    var withStops := AddStops(Catalogue.Empty, r.stops);
    var withDistances :- AddDistances(withStops, r.distances, order);
    AddBuses(withDistances, r.buses)
  }

  /** After the stop loop the catalogue is consistent and holds the
      buffered stops in order. */
  lemma StopsLoaded(stops: seq<Stop>)
    ensures Catalogue.Valid(AddStops(Catalogue.Empty, stops))
    ensures AddStops(Catalogue.Empty, stops).stops == stops
  {
    Catalogue.EmptyValid();
    AddStopsValid(Catalogue.Empty, stops);
    assert Catalogue.Empty.stops + stops == stops;
  }

  /** After the stop loop every buffered name, and only those, is
      registered. */
  lemma StopNamesLoaded(stops: seq<Stop>)
    ensures forall n :: n in AddStops(Catalogue.Empty, stops).stopsTable <==> Buffered(stops, n)
  {
    var c := AddStops(Catalogue.Empty, stops);
    StopsLoaded(stops);
    forall n ensures n in c.stopsTable <==> Buffered(stops, n) {
      Catalogue.FindStopByNameSpec(c, n);
    }
  }

  /** Every buffered distance names two buffered stops. */
  predicate DistancesKnown(r: Reader) {
    forall k :: k in r.distances ==> Buffered(r.stops, k.0) && Buffered(r.stops, k.1)
  }

  /** Every stop a buffered bus lists is a buffered stop. */
  predicate BusesKnown(r: Reader) {
    forall i, k :: 0 <= i < |r.buses| && 0 <= k < |r.buses[i].stopsNames| ==> Buffered(r.stops, r.buses[i].stopsNames[k])
  }

  lemma DistancesLoad(r: Reader, order: seq<(string, string)>)
    requires DistinctPairs(order) && forall k :: k in order <==> k in r.distances
    ensures AddDistances(AddStops(Catalogue.Empty, r.stops), r.distances, order).Success? <==> DistancesKnown(r)
  {
    var c1 := AddStops(Catalogue.Empty, r.stops);
    StopNamesLoaded(r.stops);
    var known := forall i :: 0 <= i < |order| ==> order[i].0 in c1.stopsTable && order[i].1 in c1.stopsTable;
    assert AddDistances(c1, r.distances, order).Success? <==> known;
    if known {
      forall k | k in r.distances ensures Buffered(r.stops, k.0) && Buffered(r.stops, k.1) {
        assert k in order;
        var i :| 0 <= i < |order| && order[i] == k;
        assert k.0 in c1.stopsTable && k.1 in c1.stopsTable;
      }
    }
    if DistancesKnown(r) {
      forall i | 0 <= i < |order| ensures order[i].0 in c1.stopsTable && order[i].1 in c1.stopsTable {
        assert order[i] in r.distances;
      }
    }
    assert known <==> DistancesKnown(r);
  }

  lemma BusesLoad(r: Reader, c: Catalogue.Catalogue)
    requires forall n :: n in c.stopsTable <==> Buffered(r.stops, n)
    ensures BusStopsKnown(c, r.buses) <==> BusesKnown(r)
  {
  }

  /** The catalogue after the stop and distance loops. */
  lemma DistancesLoaded(r: Reader, order: seq<(string, string)>)
    requires DistinctPairs(order) && forall k :: k in order <==> k in r.distances
    requires DistancesKnown(r)
    ensures AddDistances(AddStops(Catalogue.Empty, r.stops), r.distances, order).Success?
    ensures var c2 := AddDistances(AddStops(Catalogue.Empty, r.stops), r.distances, order).value;
      && Catalogue.Valid(c2) && c2.stops == r.stops
      && (forall n :: n in c2.stopsTable <==> Buffered(r.stops, n))
      && forall k :: k in r.distances ==> IdPair(c2, k) in c2.distances && c2.distances[IdPair(c2, k)] == r.distances[k]
  {
    var c1 := AddStops(Catalogue.Empty, r.stops);
    StopsLoaded(r.stops);
    StopNamesLoaded(r.stops);
    DistancesLoad(r, order);
    var c2 := AddDistances(c1, r.distances, order).value;
    TableInjective(c1);
    AddDistancesStored(c1, r.distances, order);
    assert c2 == c1.(distances := c2.distances);
    forall k | k in r.distances ensures IdPair(c2, k) in c2.distances && c2.distances[IdPair(c2, k)] == r.distances[k] {
      var i :| 0 <= i < |order| && order[i] == k;
    }
  }

  /** Loading succeeds exactly when every distance and every bus names only
      buffered stops, wherever in the base requests those stops appear. */
  lemma CreateDatabaseSucceeds(r: Reader, order: seq<(string, string)>)
    requires DistinctPairs(order) && forall k :: k in order <==> k in r.distances
    ensures CreateDatabase(r, order).Success? <==> DistancesKnown(r) && BusesKnown(r)
  {
    DistancesLoad(r, order);
    if DistancesKnown(r) {
      DistancesLoaded(r, order);
      var c2 := AddDistances(AddStops(Catalogue.Empty, r.stops), r.distances, order).value;
      assert CreateDatabase(r, order) == AddBuses(c2, r.buses);
      AddBusesSpec(c2, r.buses);
      BusesLoad(r, c2);
    }
  }

  /** A loaded catalogue holds each buffered distance under its stops' ids,
      registers exactly the buffered bus names, holds the first bus under
      each name with its stops, and lists each bus among the buses of each
      of its stops. */
  lemma CreateDatabaseContents(r: Reader, order: seq<(string, string)>)
    requires DistinctPairs(order) && forall k :: k in order <==> k in r.distances
    requires CreateDatabase(r, order).Success?
    ensures DistancesKnown(r) && BusesKnown(r)
    ensures var c := CreateDatabase(r, order).value;
      && Catalogue.Valid(c) && c.stops == r.stops
      && (forall n :: n in c.stopsTable <==> Buffered(r.stops, n))
      && (forall k :: k in r.distances ==> IdPair(c, k) in c.distances && c.distances[IdPair(c, k)] == r.distances[k])
      && forall i, k :: 0 <= i < |r.buses| && 0 <= k < |r.buses[i].stopsNames| ==>
           r.buses[i].busName in Catalogue.GetStopInfo(c, r.buses[i].stopsNames[k]).buses
  {
    CreateDatabaseSucceeds(r, order);
    DistancesLoaded(r, order);
    var c2 := AddDistances(AddStops(Catalogue.Empty, r.stops), r.distances, order).value;
    assert CreateDatabase(r, order) == AddBuses(c2, r.buses);
    AddBusesSpec(c2, r.buses);
  }

  /** The database holds a bus for every name the buffer holds and no other;
      the first bus of each name is the one loaded. */
  lemma CreateDatabaseBuses(r: Reader, order: seq<(string, string)>)
    requires DistinctPairs(order) && forall k :: k in order <==> k in r.distances
    requires CreateDatabase(r, order).Success?
    ensures var c := CreateDatabase(r, order).value;
      && (forall n :: n in c.busesTable <==> BufferedBus(r.buses, n))
      && forall i :: 0 <= i < |r.buses| && (forall j :: 0 <= j < i ==> r.buses[j].busName != r.buses[i].busName) ==>
           BusLoaded(c, r.buses[i])
  {
    CreateDatabaseSucceeds(r, order);
    DistancesLoaded(r, order);
    var c2 := AddDistances(AddStops(Catalogue.Empty, r.stops), r.distances, order).value;
    assert CreateDatabase(r, order) == AddBuses(c2, r.buses);
    AddBusesSpec(c2, r.buses);
    assert c2.busesTable == map[];
    forall i | 0 <= i < |r.buses| && (forall j :: 0 <= j < i ==> r.buses[j].busName != r.buses[i].busName)
      ensures FirstOfName(c2, r.buses, i)
    {
    }
  }

  // ------------------------------------------------------------ answers

  type Doc = JsonBuilder.Doc

  function Text(s: string): Doc { JsonBuilder.Leaf(String(s)) }
  function Number(i: int): Doc { JsonBuilder.Leaf(Int(i)) }
  function Fraction(x: real): Doc { JsonBuilder.Leaf(Double(x)) }
  /** A `size_t` count written through `static_cast<int>`. */
  function Count(n: nat): Doc { Number(Decimal.Wrap32(n)) }

  /** The object answering a query about an unknown name. */
  function NotFoundObject(id: int): Node {
    Dict(map["error_message" := String("not found"), "request_id" := Int(id)])
  }

  function NotFound(id: int): (d: Doc)
    ensures JsonBuilder.WellKeyed(d)
    ensures JsonBuilder.ToNode(d) == NotFoundObject(id)
  {
    JsonBuilder.TwoMembers("error_message", Text("not found"), "request_id", Number(id));
    JsonBuilder.DictDoc([JsonBuilder.Member("error_message", Text("not found")), JsonBuilder.Member("request_id", Number(id))])
  }

  /** `ProceedBusRequest` once the response is known: a response whose
      `bus_exist` is false gives the not-found object, any other the five
      statistics. */
  function ProceedBusRequest(resp: BusResponse, curvature: real, id: int): (d: Doc)
    ensures JsonBuilder.WellKeyed(d)
    ensures !resp.busExist ==> JsonBuilder.ToNode(d) == NotFoundObject(id)
    ensures resp.busExist ==> JsonBuilder.ToNode(d) == Dict(map[
      "curvature" := Double(curvature), "request_id" := Int(id), "route_length" := Int(resp.routeLength),
      "stop_count" := Int(Decimal.Wrap32(resp.stopsCount)),
      "unique_stop_count" := Int(Decimal.Wrap32(resp.uniqueStopsCount))])
  {
    if !resp.busExist then NotFound(id)
    else
      JsonBuilder.FiveMembers("curvature", Fraction(curvature), "request_id", Number(id),
        "route_length", Number(resp.routeLength), "stop_count", Count(resp.stopsCount),
        "unique_stop_count", Count(resp.uniqueStopsCount));
      JsonBuilder.DictDoc([JsonBuilder.Member("curvature", Fraction(curvature)), JsonBuilder.Member("request_id", Number(id)),
        JsonBuilder.Member("route_length", Number(resp.routeLength)), JsonBuilder.Member("stop_count", Count(resp.stopsCount)),
        JsonBuilder.Member("unique_stop_count", Count(resp.uniqueStopsCount))])
  }

  function Strings(ss: seq<string>): seq<Node> {
    seq(|ss|, k requires 0 <= k < |ss| => String(ss[k]))
  }

  /** `ProceedStopRequest` once the response is known: the bus names in the
      response's order, then the id. */
  function ProceedStopRequest(resp: StopResponse, id: int): (d: Doc)
    ensures JsonBuilder.WellKeyed(d)
    ensures !resp.stopExist ==> JsonBuilder.ToNode(d) == NotFoundObject(id)
    ensures resp.stopExist ==>
      JsonBuilder.ToNode(d) == Dict(map["buses" := Array(Strings(resp.buses)), "request_id" := Int(id)])
  {
    if !resp.stopExist then NotFound(id)
    else
      var buses := JsonBuilder.ArrayDoc(seq(|resp.buses|, k requires 0 <= k < |resp.buses| => Text(resp.buses[k])));
      assert JsonBuilder.ToNode(buses) == Array(Strings(resp.buses));
      JsonBuilder.TwoMembers("buses", buses, "request_id", Number(id));
      JsonBuilder.DictDoc([JsonBuilder.Member("buses", buses), JsonBuilder.Member("request_id", Number(id))])
  }

  /** `ProceedMapRequest` with the rendered document's text. */
  function ProceedMapRequest(svg: string, id: int): (d: Doc)
    ensures JsonBuilder.WellKeyed(d)
    ensures JsonBuilder.ToNode(d) == Dict(map["map" := String(svg), "request_id" := Int(id)])
  {
    JsonBuilder.TwoMembers("map", Text(svg), "request_id", Number(id));
    JsonBuilder.DictDoc([JsonBuilder.Member("map", Text(svg)), JsonBuilder.Member("request_id", Number(id))])
  }

  /** The object describing one segment of an itinerary. */
  function SegmentObject(cut: Timecut): Node {
    match cut
    case Wait(t, stop) => Dict(map["stop_name" := String(stop), "time" := Double(t), "type" := String("Wait")])
    case RidingBus(t, bus, n) =>
      Dict(map["bus" := String(bus), "span_count" := Int(Decimal.Wrap32(n)), "time" := Double(t), "type" := String("Bus")])
  }

  function SegmentDoc(cut: Timecut): (d: Doc)
    ensures JsonBuilder.WellKeyed(d)
    ensures JsonBuilder.ToNode(d) == SegmentObject(cut)
    ensures JsonBuilder.ToNode(d).entries["time"] == Double(cut.time)
  {
    match cut
    case Wait(t, stop) =>
      JsonBuilder.ThreeMembers("stop_name", Text(stop), "time", Fraction(t), "type", Text("Wait"));
      JsonBuilder.DictDoc([JsonBuilder.Member("stop_name", Text(stop)), JsonBuilder.Member("time", Fraction(t)),
        JsonBuilder.Member("type", Text("Wait"))])
    case RidingBus(t, bus, n) =>
      JsonBuilder.FourMembers("bus", Text(bus), "span_count", Count(n), "time", Fraction(t), "type", Text("Bus"));
      JsonBuilder.DictDoc([JsonBuilder.Member("bus", Text(bus)), JsonBuilder.Member("span_count", Count(n)),
        JsonBuilder.Member("time", Fraction(t)), JsonBuilder.Member("type", Text("Bus"))])
  }

  function Segments(cuts: seq<Timecut>): seq<Node> {
    seq(|cuts|, k requires 0 <= k < |cuts| => SegmentObject(cuts[k]))
  }

  /** `ProceedRouteRequest` once the route is known: no route gives the id
      and then the error; a route gives the id, the total time and one
      object per segment, in itinerary order. */
  function ProceedRouteRequest(resp: Option<RouteResponse>, id: int): (d: Doc)
    ensures JsonBuilder.WellKeyed(d)
    ensures resp.None? ==> JsonBuilder.ToNode(d) == NotFoundObject(id)
    ensures resp.Some? ==> JsonBuilder.ToNode(d) == Dict(map[
      "request_id" := Int(id), "total_time" := Double(resp.value.totalTime), "items" := Array(Segments(resp.value.timeCuts))])
  {
    match resp
    case None =>
      JsonBuilder.TwoMembers("request_id", Number(id), "error_message", Text("not found"));
      assert map["request_id" := Int(id), "error_message" := String("not found")] == NotFoundObject(id).entries;
      JsonBuilder.DictDoc([JsonBuilder.Member("request_id", Number(id)), JsonBuilder.Member("error_message", Text("not found"))])
    case Some(route) =>
      var cuts := route.timeCuts;
      var items := JsonBuilder.ArrayDoc(seq(|cuts|, k requires 0 <= k < |cuts| => SegmentDoc(cuts[k])));
      assert JsonBuilder.ToNode(items) == Array(Segments(cuts));
      JsonBuilder.ThreeMembers("request_id", Number(id), "total_time", Fraction(route.totalTime), "items", items);
      JsonBuilder.DictDoc([JsonBuilder.Member("request_id", Number(id)), JsonBuilder.Member("total_time", Fraction(route.totalTime)),
        JsonBuilder.Member("items", items)])
  }

  // ---------------------------------------------------- request handling

  /** What `RequestHandler` answers from: the catalogue, the router with its
      shortest-path solver, the rendered map's text and the geographic
      curvature of each bus. */
  datatype Handler = Handler(
    catalogue: Catalogue.Catalogue,
    router: TransportRouter.Router,
    solver: (TransportRouter.Graph, TransportRouter.VertexId, TransportRouter.VertexId) -> Option<TransportRouter.RouteInfo>,
    svg: string,
    curvature: string -> real)

  /** `request.AsMap().at(key).AsString()`. */
  function StringAt(request: map<string, Node>, key: string): (r: Result<string>)
    ensures r.Success? <==> key in request && request[key].String?
    ensures r.Success? ==> r.value == request[key].s
    ensures r.Failure? ==> r.error == (if key in request then LogicError else OutOfRange)
  {
    var n :- MapAt(request, key);
    AsString(n)
  }

  /** `request.AsMap().at("id").AsInt()`. */
  function RequestId(request: map<string, Node>): (r: Result<int>)
    ensures r.Success? <==> "id" in request && request["id"].Int?
    ensures r.Success? ==> r.value == request["id"].i
    ensures r.Failure? ==> r.error == (if "id" in request then LogicError else OutOfRange)
  {
    var n :- MapAt(request, "id");
    AsInt(n)
  }

  /** The catalogue's bus statistics with `bus_exist` set, as the JSON
      answer expects of a bus that was found. */
  function FoundBusInfo(c: Catalogue.Catalogue, name: string): (r: Result<BusResponse>)
    ensures name !in c.busesTable ==> r == Failure(InvalidArgument)
    ensures r.Success? ==> r.value.busExist
    ensures r.Success? <==> Catalogue.GetBusInfo(c, name).Success?
    ensures r.Success? ==> r.value == Catalogue.GetBusInfo(c, name).value.(busExist := true)
  {
    var resp :- Catalogue.GetBusInfo(c, name);
    Success(resp.(busExist := true))
  }

  /** A bus query with the catalogue's response as the source computes it. */
  function BusAnswerAsWritten(h: Handler, request: map<string, Node>): (r: Result<Doc>)
    ensures r.Success? ==> JsonBuilder.WellKeyed(r.value)
    ensures r.Success? ==> RequestId(request).Success? && JsonBuilder.ToNode(r.value) == NotFoundObject(request["id"].i)
  {
    var name :- StringAt(request, "name");
    var resp :- Catalogue.GetBusInfo(h.catalogue, name);
    var id :- RequestId(request);
    Success(ProceedBusRequest(resp, h.curvature(name), id))
  }

  /** A bus query answered from a response that records that the bus was
      found. */
  function BusAnswer(h: Handler, request: map<string, Node>): (r: Result<Doc>)
    ensures r.Success? ==> JsonBuilder.WellKeyed(r.value)
    ensures StringAt(request, "name").Success? && request["name"].s !in h.catalogue.busesTable ==>
      r == Failure(InvalidArgument)
    ensures r.Success? <==> (&& StringAt(request, "name").Success?
                             && Catalogue.GetBusInfo(h.catalogue, request["name"].s).Success?
                             && RequestId(request).Success?)
  {
    var name :- StringAt(request, "name");
    var resp :- FoundBusInfo(h.catalogue, name);
    var id :- RequestId(request);
    Success(ProceedBusRequest(resp, h.curvature(name), id))
  }

  function StopAnswer(h: Handler, request: map<string, Node>): (r: Result<Doc>)
    ensures r.Success? <==> StringAt(request, "name").Success? && RequestId(request).Success?
    ensures r.Success? ==>
      var resp := Catalogue.GetStopInfo(h.catalogue, request["name"].s);
      JsonBuilder.WellKeyed(r.value) && r.value == ProceedStopRequest(resp, request["id"].i)
  {
    var name :- StringAt(request, "name");
    var resp := Catalogue.GetStopInfo(h.catalogue, name);
    var id :- RequestId(request);
    Success(ProceedStopRequest(resp, id))
  }

  function MapAnswer(h: Handler, request: map<string, Node>): (r: Result<Doc>)
    ensures r.Success? <==> RequestId(request).Success?
    ensures r.Success? ==> JsonBuilder.WellKeyed(r.value) && JsonBuilder.ToNode(r.value) == Dict(map["map" := String(h.svg), "request_id" := Int(request["id"].i)])
  {
    var id :- RequestId(request);
    Success(ProceedMapRequest(h.svg, id))
  }

  function RouteAnswer(h: Handler, request: map<string, Node>): (r: Result<Doc>)
    ensures r.Success? ==> JsonBuilder.WellKeyed(r.value)
    ensures r.Success? ==>
      && StringAt(request, "from").Success? && StringAt(request, "to").Success?
      && TransportRouter.GetRoute(h.router, h.solver, request["from"].s, request["to"].s).Success?
      && RequestId(request).Success?
    ensures r.Success? ==>
      var route := TransportRouter.GetRoute(h.router, h.solver, request["from"].s, request["to"].s).value;
      r.value == ProceedRouteRequest(route, request["id"].i)
  {
    var from :- StringAt(request, "from");
    var to :- StringAt(request, "to");
    var route :- TransportRouter.GetRoute(h.router, h.solver, from, to);
    var id :- RequestId(request);
    Success(ProceedRouteRequest(route, id))
  }

  predicate Answered(kind: string) {
    kind == "Bus" || kind == "Stop" || kind == "Map" || kind == "Route"
  }

  /** One stat request: its answer, or `None` for a type nothing answers. */
  function Answer(h: Handler, request: Node): (r: Result<Option<Doc>>)
    ensures r.Success? ==> request.Dict? && StringAt(request.entries, "type").Success?
    ensures r.Success? ==> (r.value.None? <==> !Answered(request.entries["type"].s))
    ensures r.Success? && r.value.Some? ==> JsonBuilder.WellKeyed(r.value.value)
    ensures request.Dict? && StringAt(request.entries, "type").Success? && !Answered(request.entries["type"].s) ==>
      r == Success(None)
  {
    var dict :- AsMap(request);
    var kind :- StringAt(dict, "type");
    if kind == "Bus" then
      var d :- BusAnswer(h, dict); Success(Some(d))
    else if kind == "Stop" then
      var d :- StopAnswer(h, dict); Success(Some(d))
    else if kind == "Map" then
      var d :- MapAnswer(h, dict); Success(Some(d))
    else if kind == "Route" then
      var d :- RouteAnswer(h, dict); Success(Some(d))
    else Success(None)
  }

  /** The handler's answer to each request, as a function value. */
  function AnswerOf(h: Handler): Node -> Result<Option<Doc>> {
    request => Answer(h, request)
  }

  /** Every document an answer function produces can be emitted. */
  ghost predicate AnswersWellKeyed(answer: Node -> Result<Option<Doc>>) {
    forall request :: answer(request).Success? && answer(request).value.Some? ==>
      JsonBuilder.WellKeyed(answer(request).value.value)
  }

  lemma HandlerAnswersWellKeyed(h: Handler)
    ensures AnswersWellKeyed(AnswerOf(h))
  {
    forall request | AnswerOf(h)(request).Success? && AnswerOf(h)(request).value.Some?
      ensures JsonBuilder.WellKeyed(AnswerOf(h)(request).value.value)
    {
      assert AnswerOf(h)(request) == Answer(h, request);
    }
  }

  /** The answers in request order; the first failure ends the run. */
  function Answers(answer: Node -> Result<Option<Doc>>, requests: seq<Node>): (r: Result<seq<Doc>>)
    ensures r.Success? ==> |r.value| <= |requests|
  {
    if |requests| == 0 then Success([])
    else
      var first :- answer(requests[0]);
      var rest :- Answers(answer, requests[1..]);
      Success(if first.Some? then [first.value] + rest else rest)
  }

  function Nodes(docs: seq<Doc>): seq<Node> {
    seq(|docs|, k requires 0 <= k < |docs| => JsonBuilder.ToNode(docs[k]))
  }

  /** The loop of `RequestAndPrint`: each answer is emitted into the open
      array before the next request is read. */
  function RespondAll(answer: Node -> Result<Option<Doc>>, b: JsonBuilder.Builder, requests: seq<Node>): Result<JsonBuilder.Builder>
    decreases |requests|
  {
    if |requests| == 0 then Success(b)
    else
      var first :- answer(requests[0]);
      var b' :- if first.Some? then JsonBuilder.Run(b, JsonBuilder.Emit(first.value)) else Success(b);
      RespondAll(answer, b', requests[1..])
  }

  /** `RequestAndPrint` up to the printing: the document it builds. */
  function RequestAndPrint(h: Handler, statRequests: seq<Node>): Result<Node>
  {
    var b :- JsonBuilder.StartArray(JsonBuilder.Fresh);
    var b' :- RespondAll(AnswerOf(h), b, statRequests);
    var b'' :- JsonBuilder.EndArray(b');
    JsonBuilder.Build(b'')
  }

  /** An answer emitted into the open response array is appended to it. */
  lemma EmitAnswer(b: JsonBuilder.Builder, d: Doc)
    requires b.stack == [[]] && b.root.Array? && JsonBuilder.InArray(b, []) && JsonBuilder.WellKeyed(d)
    ensures JsonBuilder.Run(b, JsonBuilder.Emit(d)) == Success(b.(root := Array(b.root.items + [JsonBuilder.ToNode(d)])))
    ensures JsonBuilder.InArray(b.(root := Array(b.root.items + [JsonBuilder.ToNode(d)])), [])
  {
    JsonBuilder.EmitInArray(b, [], d);
    JsonBuilder.SetTopValid(b, Array(b.root.items + [JsonBuilder.ToNode(d)]));
  }

  lemma NodesCons(d: Doc, docs: seq<Doc>)
    ensures Nodes([d] + docs) == [JsonBuilder.ToNode(d)] + Nodes(docs)
  {
  }

  /** The loop's builder holds the answers in request order, or the loop
      fails with the first failing answer. */
  predicate RespondsAsAnswers(answer: Node -> Result<Option<Doc>>, b: JsonBuilder.Builder, requests: seq<Node>)
    requires b.root.Array?
  {
    match Answers(answer, requests)
    case Failure(e) => RespondAll(answer, b, requests) == Failure(e)
    case Success(docs) => RespondAll(answer, b, requests) == Success(b.(root := Array(b.root.items + Nodes(docs))))
  }

  lemma {:induction false} RespondAllSpec(answer: Node -> Result<Option<Doc>>, b: JsonBuilder.Builder, requests: seq<Node>)
    requires AnswersWellKeyed(answer)
    requires b.stack == [[]] && b.root.Array? && JsonBuilder.InArray(b, [])
    ensures RespondsAsAnswers(answer, b, requests)
    decreases |requests|, 1
  {
    if |requests| > 0 {
      var first := answer(requests[0]);
      if first.Success? && first.value.Some? {
        RespondEmitted(answer, b, requests);
      } else if first.Success? {
        RespondAllSpec(answer, b, requests[1..]);
      }
    } else {
      assert b.root.items + Nodes([]) == b.root.items;
    }
  }

  /** The step of the loop for a request that is answered. */
  lemma {:induction false} RespondEmitted(answer: Node -> Result<Option<Doc>>, b: JsonBuilder.Builder, requests: seq<Node>)
    requires AnswersWellKeyed(answer)
    requires b.stack == [[]] && b.root.Array? && JsonBuilder.InArray(b, [])
    requires |requests| > 0 && answer(requests[0]).Success? && answer(requests[0]).value.Some?
    ensures RespondsAsAnswers(answer, b, requests)
    decreases |requests|, 0
  {
    var d := answer(requests[0]).value.value;
    var rest := Answers(answer, requests[1..]);
    var next := b.(root := Array(b.root.items + [JsonBuilder.ToNode(d)]));
    EmitAnswer(b, d);
    RespondAllSpec(answer, next, requests[1..]);
    if rest.Success? {
      NodesCons(d, rest.value);
      assert b.root.items + Nodes([d] + rest.value) == next.root.items + Nodes(rest.value);
    }
  }

  lemma OpenResponses()
    ensures JsonBuilder.StartArray(JsonBuilder.Fresh) == Success(JsonBuilder.Builder(Array([]), [[]], false, false))
    ensures JsonBuilder.InArray(JsonBuilder.Builder(Array([]), [[]], false, false), [])
  {
  }

  /** The response document is the array of the answers, one per request of
      a known type and in request order; a failing request fails the whole
      run with its own exception. */
  lemma RequestAndPrintSpec(h: Handler, statRequests: seq<Node>)
    ensures var answers := Answers(AnswerOf(h), statRequests);
      && (answers.Failure? ==> RequestAndPrint(h, statRequests) == Failure(answers.error))
      && (answers.Success? ==> RequestAndPrint(h, statRequests) == Success(Array(Nodes(answers.value))))
  {
    OpenResponses();
    HandlerAnswersWellKeyed(h);
    var b := JsonBuilder.Builder(Array([]), [[]], false, false);
    RespondAllSpec(AnswerOf(h), b, statRequests);
    var answers := Answers(AnswerOf(h), statRequests);
    if answers.Success? {
      assert [] + Nodes(answers.value) == Nodes(answers.value);
    }
  }

  // ------------------------------------------- bus answers, as written

  /** As written, a bus the catalogue knows, with every leg's distance
      stored, is still answered "not found", because `GetBusInfo` never sets
      `bus_exist`. */
  lemma KnownBusReportedMissing(h: Handler, request: map<string, Node>)
    requires StringAt(request, "name").Success? && RequestId(request).Success?
    requires Catalogue.GetBusInfo(h.catalogue, request["name"].s).Success?
    ensures BusAnswerAsWritten(h, request).Success?
    ensures JsonBuilder.ToNode(BusAnswerAsWritten(h, request).value) == NotFoundObject(request["id"].i)
  {
  }

  /** With the found flag recorded, a known bus is answered with its
      statistics: the curvature, the road length of its stop sequence, the
      number of stops and the number of distinct stops. */
  lemma BusAnswerReportsStatistics(h: Handler, request: map<string, Node>)
    requires StringAt(request, "name").Success? && RequestId(request).Success?
    requires Catalogue.GetBusInfo(h.catalogue, request["name"].s).Success?
    ensures BusAnswer(h, request).Success?
    ensures
      var name := request["name"].s;
      var stops := h.catalogue.busesTable[name].stops;
      JsonBuilder.ToNode(BusAnswer(h, request).value) == Dict(map[
        "curvature" := Double(h.curvature(name)), "request_id" := Int(request["id"].i),
        "route_length" := Int(Catalogue.RoadLength(h.catalogue, stops).value),
        "stop_count" := Int(Decimal.Wrap32(|stops|)),
        "unique_stop_count" := Int(Decimal.Wrap32(|Catalogue.UniqueStops(stops)|))])
  {
  }

  /** For a solver that reports a path of existing edges with its total
      weight, the total time of a route answer is the sum of the times of
      its segments. */
  lemma RouteAnswerTimesAddUp(h: Handler, request: map<string, Node>)
    requires TransportRouter.WellFormed(h.router)
    requires RouteAnswer(h, request).Success?
    requires var route := TransportRouter.GetRoute(h.router, h.solver, request["from"].s, request["to"].s);
      route.value.Some?
    requires var info := h.solver(h.router.graph, h.router.stopIds[request["from"].s], h.router.stopIds[request["to"].s]);
      info.Some? && (forall k :: 0 <= k < |info.value.edges| ==> info.value.edges[k] < |h.router.graph.edges|) &&
      info.value.weight == TransportRouter.SumWeights(h.router.graph, info.value.edges)
    ensures
      var route := TransportRouter.GetRoute(h.router, h.solver, request["from"].s, request["to"].s).value.value;
      var answer := JsonBuilder.ToNode(RouteAnswer(h, request).value);
      && answer.entries["total_time"] == Double(TransportRouter.SumTimes(route.timeCuts))
      && answer.entries["items"] == Array(Segments(route.timeCuts))
  {
    TransportRouter.RouteTimesAddUp(h.router, h.solver, request["from"].s, request["to"].s);
  }
}
