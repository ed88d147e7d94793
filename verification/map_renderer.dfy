/** The discrete layout of the route map (map_renderer.cpp): which buses and
    stops are drawn, in which order, with which palette colour, and where
    the bus labels go. The projection of coordinates onto the canvas is not
    part of this model, so a draw item names the stops it is placed at
    instead of carrying points. */
module MapRenderer {
  import opened Wrappers
  import opened Domain
  import Catalogue
  import Ordered
  import Svg
  import JsonReader

  /** The tolerance of the numeric setters. */
  const EPSILON: real := 0.000001

  /** The settings the layout depends on; the geometric ones (sizes,
      offsets, widths) are not part of this model. */
  datatype Renderer = Renderer(
    busLabelFontSize: int,
    stopLabelFontSize: int,
    underlayerColor: Svg.Color,
    palette: seq<Svg.Color>)

  /** A default-constructed `MapRenderer`. */
  const Default: Renderer := Renderer(20, 20, Svg.NoneColor, [Svg.Named("green"), Svg.Rgb(255, 160, 0), Svg.Named("red")])

  /** What every renderer the setters produce satisfies. */
  predicate Valid(r: Renderer) {
    && |r.palette| > 0
    && 0 <= r.busLabelFontSize <= 100000
    && 0 <= r.stopLabelFontSize <= 100000
  }

  lemma DefaultValid()
    ensures Valid(Default)
  {
  }

  // --------------------------------------------------------------- setters

  /** The range check of the integer setters, with the `int` converted to
      `double` for the comparison with `-EPSILON`. */
  function CheckFontSize(size: int): (r: Result<int>)
    ensures r.Failure? <==> size < 0 || size > 100000
    ensures r.Failure? ==> r.error == InvalidArgument
    ensures r.Success? ==> r.value == size
  {
    if (size as real) < -EPSILON || size > 100000 then Failure(InvalidArgument) else Success(size)
  }

  /** `SetBusLabelFontSize`. */
  function SetBusLabelFontSize(r: Renderer, size: int): (res: Result<Renderer>)
    ensures res.Failure? <==> size < 0 || size > 100000
    ensures res.Success? ==> res.value.busLabelFontSize == size && res.value.(busLabelFontSize := r.busLabelFontSize) == r
    ensures Valid(r) && res.Success? ==> Valid(res.value)
  {
    var s :- CheckFontSize(size);
    Success(r.(busLabelFontSize := s))
  }

  /** `SetStopLabelFontSize`. */
  function SetStopLabelFontSize(r: Renderer, size: int): (res: Result<Renderer>)
    ensures res.Failure? <==> size < 0 || size > 100000
    ensures res.Success? ==> res.value.stopLabelFontSize == size && res.value.(stopLabelFontSize := r.stopLabelFontSize) == r
    ensures Valid(r) && res.Success? ==> Valid(res.value)
  {
    var s :- CheckFontSize(size);
    Success(r.(stopLabelFontSize := s))
  }

  /** `SetUnderlayerColor`: accepts any colour. */
  function SetUnderlayerColor(r: Renderer, color: Svg.Color): (res: Renderer)
    ensures Valid(r) ==> Valid(res)
    ensures res.underlayerColor == color && res.(underlayerColor := r.underlayerColor) == r
  {
    r.(underlayerColor := color)
  }

  /** `SetColorPalette`: `invalid_argument` for an empty palette, otherwise
      the palette is replaced. */
  function SetColorPalette(r: Renderer, palette: seq<Svg.Color>): (res: Result<Renderer>)
    ensures res.Failure? <==> |palette| == 0
    ensures res.Failure? ==> res.error == InvalidArgument
    ensures res.Success? ==> res.value.palette == palette && res.value.(palette := r.palette) == r
    ensures Valid(r) && res.Success? ==> Valid(res.value)
  {
    if |palette| == 0 then Failure(InvalidArgument) else Success(r.(palette := palette))
  }

  // ------------------------------------------------------------ draw items

  /** One object of the map document. Bus labels and stop labels come as an
      underlayer (in the underlayer colour) followed by the label itself. */
  datatype Item =
    | RouteLine(stops: seq<string>, stroke: Svg.Color)
    | BusLabelUnderlayer(bus: string, at: string, color: Svg.Color)
    | BusLabel(bus: string, at: string, fill: Svg.Color)
    | StopCircle(stop: string)
    | StopLabelUnderlayer(stop: string, color: Svg.Color)
    | StopLabel(stop: string)

  /** The four layers of the document, bottom to top. */
  function Layer(item: Item): nat {
    match item
    case RouteLine(_, _) => 0
    case BusLabelUnderlayer(_, _, _) => 1
    case BusLabel(_, _, _) => 1
    case StopCircle(_) => 2
    case StopLabelUnderlayer(_, _) => 3
    case StopLabel(_) => 3
  }

  predicate InLayer(items: seq<Item>, k: nat) {
    forall i :: 0 <= i < |items| ==> Layer(items[i]) == k
  }

  /** No item is drawn over one of a higher layer. */
  predicate LayersAscending(items: seq<Item>) {
    forall i, j :: 0 <= i < j < |items| ==> Layer(items[i]) <= Layer(items[j])
  }

  /** The name of a stop id; every id of a valid catalogue is registered, so
      the empty fallback is never reached there. */
  function StopName(c: Catalogue.Catalogue, id: StopId): string {
    if id < |c.stops| then c.stops[id].name else ""
  }

  /** The stops a bus is drawn through, by name. */
  function RouteStops(c: Catalogue.Catalogue, ids: seq<StopId>): (r: seq<string>)
    ensures |r| == |ids|
    ensures forall k :: 0 <= k < |ids| ==> r[k] == StopName(c, ids[k])
  {
    seq(|ids|, k requires 0 <= k < |ids| => StopName(c, ids[k]))
  }

  /** The polyline of a bus in the given colour. */
  function LineDraw(c: Catalogue.Catalogue): (Bus, Svg.Color) -> seq<Item> {
    (bus: Bus, color: Svg.Color) => [RouteLine(RouteStops(c, bus.stops), color)]
  }

  /** The labels of one bus: an underlayer and a label at the first stop;
      for a bus that is not round, a second pair at `stops[|stops| / 2]`
      unless that is the first stop again. */
  function BusLabels(r: Renderer, c: Catalogue.Catalogue, bus: Bus, color: Svg.Color): (items: seq<Item>)
    ensures |bus.stops| > 0 ==>
      && |items| >= 2
      && items[0] == BusLabelUnderlayer(bus.name, StopName(c, bus.stops[0]), r.underlayerColor)
      && items[1] == BusLabel(bus.name, StopName(c, bus.stops[0]), color)
    ensures InLayer(items, 1)
  {
    if |bus.stops| == 0 then []
    else
      var first := StopName(c, bus.stops[0]);
      var ends := [BusLabelUnderlayer(bus.name, first, r.underlayerColor), BusLabel(bus.name, first, color)];
      var far := bus.stops[|bus.stops| / 2];
      if !bus.isRound && bus.stops[0] != far then
        var second := StopName(c, far);
        ends + [BusLabelUnderlayer(bus.name, second, r.underlayerColor), BusLabel(bus.name, second, color)]
      else ends
  }

  function LabelDraw(r: Renderer, c: Catalogue.Catalogue): (Bus, Svg.Color) -> seq<Item> {
    (bus: Bus, color: Svg.Color) => BusLabels(r, c, bus, color)
  }

  /** A round bus, or one whose middle stop is its first, is labelled once. */
  lemma {:induction false} SingleTerminusLabel(r: Renderer, c: Catalogue.Catalogue, bus: Bus, color: Svg.Color)
    requires |bus.stops| > 0
    requires bus.isRound || bus.stops[0] == bus.stops[|bus.stops| / 2]
    ensures |BusLabels(r, c, bus, color)| == 2
  {
  }

  /** A bus read as a there-and-back route `s` with distinct ends gets its
      second label pair at the far end of `s`. */
  lemma {:induction false} FarTerminusLabel(r: Renderer, c: Catalogue.Catalogue, bus: Bus, color: Svg.Color, s: seq<string>)
    requires |s| > 0 && s[0] != s[|s| - 1]
    requires !bus.isRound && RouteStops(c, bus.stops) == JsonReader.OutAndBack(s)
    ensures var items := BusLabels(r, c, bus, color);
      && |items| == 4
      && items[0] == BusLabelUnderlayer(bus.name, s[0], r.underlayerColor)
      && items[2] == BusLabelUnderlayer(bus.name, s[|s| - 1], r.underlayerColor)
      && items[3] == BusLabel(bus.name, s[|s| - 1], color)
  {
    JsonReader.OutAndBackShape(s);
    var names := RouteStops(c, bus.stops);
    assert |bus.stops| / 2 == |s| - 1;
    assert names[0] == s[0] && names[|s| - 1] == s[|s| - 1];
    assert bus.stops[0] != bus.stops[|bus.stops| / 2];
  }

  // ---------------------------------------------------------- bus passes

  /** Every name is a key of the bus table. */
  predicate InTable(c: Catalogue.Catalogue, names: seq<string>) {
    forall k :: 0 <= k < |names| ==> names[k] in c.busesTable
  }

  /** The buses of `names` that have stops, in the same order. */
  function Drawn(c: Catalogue.Catalogue, names: seq<string>): (r: seq<string>)
    requires InTable(c, names)
    ensures InTable(c, r)
    ensures forall n :: n in r <==> n in names && n in c.busesTable && |c.busesTable[n].stops| > 0
    decreases |names|
  {
    if |names| == 0 then []
    else
      var rest := Drawn(c, names[1..]);
      assert forall n :: n in names <==> n == names[0] || n in names[1..];
      if |c.busesTable[names[0]].stops| == 0 then rest else [names[0]] + rest
  }

  /** Keeping some names of an ascending list keeps it ascending. */
  lemma {:induction false} DrawnSorted(c: Catalogue.Catalogue, names: seq<string>)
    requires InTable(c, names) && Ordered.StrictlySorted(names)
    ensures Ordered.StrictlySorted(Drawn(c, names))
    decreases |names|
  {
    if |names| > 0 {
      var tail := names[1..];
      assert Ordered.StrictlySorted(tail) by {
        forall i, j | 0 <= i < j < |tail| ensures Ordered.Less(tail[i], tail[j]) {
          assert tail[i] == names[i + 1] && tail[j] == names[j + 1];
        }
      }
      DrawnSorted(c, tail);
      forall y | y in Drawn(c, tail) ensures Ordered.Less(names[0], y) {
        var k :| 0 <= k < |tail| && tail[k] == y;
        assert names[k + 1] == y;
      }
      Ordered.ConsSorted(names[0], Drawn(c, tail));
    }
  }

  /** The palette iterator's step: forward, and back to the first colour
      after the last. */
  function Next(ci: nat, n: nat): nat
    requires ci < n
  {
    if ci + 1 == n then 0 else ci + 1
  }

  /** One pass of `PrintMap` over the sorted bus table: buses without stops
      are skipped and do not move the palette iterator `ci`. */
  function Pass(c: Catalogue.Catalogue, names: seq<string>, palette: seq<Svg.Color>, ci: nat,
                draw: (Bus, Svg.Color) -> seq<Item>): seq<Item>
    requires InTable(c, names) && ci < |palette|
    decreases |names|
  {
    if |names| == 0 then []
    else
      var bus := c.busesTable[names[0]];
      if |bus.stops| == 0 then Pass(c, names[1..], palette, ci, draw)
      else draw(bus, palette[ci]) + Pass(c, names[1..], palette, Next(ci, |palette|), draw)
  }

  /** Reference drawing of the listed buses: the `j`-th gets palette colour
      `(start + j) mod |palette|`. */
  function Painted(c: Catalogue.Catalogue, drawn: seq<string>, palette: seq<Svg.Color>, start: nat,
                   draw: (Bus, Svg.Color) -> seq<Item>): seq<Item>
    requires InTable(c, drawn) && |palette| > 0
    decreases |drawn|
  {
    if |drawn| == 0 then []
    else draw(c.busesTable[drawn[0]], palette[start % |palette|]) + Painted(c, drawn[1..], palette, start + 1, draw)
  }

  lemma MulAtLeast(k: int, n: int)
    requires k > 0 && n > 0
    ensures k * n >= n
  {
    if k > 1 {
      MulAtLeast(k - 1, n);
      assert k * n == (k - 1) * n + n;
    }
  }

  /** Adding the modulus does not change the remainder. */
  lemma ModPeriod(s: nat, n: nat)
    requires n > 0
    ensures (s + n) % n == s % n
  {
    var q, m := s / n, s % n;
    var q', m' := (s + n) / n, (s + n) % n;
    assert s == q * n + m;
    assert s + n == q' * n + m';
    var k := q' - q - 1;
    assert k * n == m - m' by {
      assert q' * n - q * n - n == k * n;
    }
    if k > 0 {
      MulAtLeast(k, n);
    } else if k < 0 {
      MulAtLeast(-k, n);
    }
  }

  /** Colours repeat with the palette's period. */
  lemma {:induction false} PaintedPeriodic(c: Catalogue.Catalogue, drawn: seq<string>, palette: seq<Svg.Color>, start: nat,
                                           draw: (Bus, Svg.Color) -> seq<Item>)
    requires InTable(c, drawn) && |palette| > 0
    ensures Painted(c, drawn, palette, start, draw) == Painted(c, drawn, palette, start + |palette|, draw)
    decreases |drawn|
  {
    if |drawn| > 0 {
      ModPeriod(start, |palette|);
      PaintedPeriodic(c, drawn[1..], palette, start + 1, draw);
      assert start + |palette| + 1 == start + 1 + |palette|;
    }
  }

  /** The palette iterator of a pass gives the `k`-th bus with stops the
      colour `k mod |palette|` (counted from the iterator's start), and
      empty buses draw nothing. */
  lemma {:induction false} PassPaints(c: Catalogue.Catalogue, names: seq<string>, palette: seq<Svg.Color>, ci: nat,
                                      draw: (Bus, Svg.Color) -> seq<Item>)
    requires InTable(c, names) && ci < |palette|
    ensures Pass(c, names, palette, ci, draw) == Painted(c, Drawn(c, names), palette, ci, draw)
    decreases |names|
  {
    if |names| > 0 {
      var rest := names[1..];
      var bus := c.busesTable[names[0]];
      if |bus.stops| == 0 {
        PassPaints(c, rest, palette, ci, draw);
      } else {
        PassPaints(c, rest, palette, Next(ci, |palette|), draw);
        PaintedNext(c, Drawn(c, rest), palette, ci, draw);
        var d := Drawn(c, names);
        assert d == [names[0]] + Drawn(c, rest);
        assert d[0] == names[0] && d[1..] == Drawn(c, rest);
      }
    }
  }

  /** The iterator's step agrees with counting on. */
  lemma PaintedNext(c: Catalogue.Catalogue, drawn: seq<string>, palette: seq<Svg.Color>, ci: nat,
                    draw: (Bus, Svg.Color) -> seq<Item>)
    requires InTable(c, drawn) && ci < |palette|
    ensures ci % |palette| == ci
    ensures Painted(c, drawn, palette, Next(ci, |palette|), draw) == Painted(c, drawn, palette, ci + 1, draw)
  {
    if ci + 1 == |palette| {
      PaintedPeriodic(c, drawn, palette, 0, draw);
    }
  }

  /** The `j`-th route line is that of the `j`-th listed bus, in palette
      colour `(start + j) mod |palette|`. */
  lemma {:induction false} PaintedLines(c: Catalogue.Catalogue, drawn: seq<string>, palette: seq<Svg.Color>, start: nat)
    requires InTable(c, drawn) && |palette| > 0
    ensures var items := Painted(c, drawn, palette, start, LineDraw(c));
      && |items| == |drawn|
      && forall j :: 0 <= j < |drawn| ==>
           items[j] == RouteLine(RouteStops(c, c.busesTable[drawn[j]].stops), palette[(start + j) % |palette|])
    decreases |drawn|
  {
    if |drawn| > 0 {
      PaintedLines(c, drawn[1..], palette, start + 1);
      var items := Painted(c, drawn, palette, start, LineDraw(c));
      var rest := Painted(c, drawn[1..], palette, start + 1, LineDraw(c));
      assert items == LineDraw(c)(c.busesTable[drawn[0]], palette[start % |palette|]) + rest;
      forall j | 0 < j < |drawn|
        ensures items[j] == RouteLine(RouteStops(c, c.busesTable[drawn[j]].stops), palette[(start + j) % |palette|])
      {
        assert items[j] == rest[j - 1] && drawn[1..][j - 1] == drawn[j];
        assert start + 1 + (j - 1) == start + j;
      }
    }
  }

  /** A drawing function that stays in one layer paints in that layer. */
  lemma {:induction false} PaintedInLayer(c: Catalogue.Catalogue, drawn: seq<string>, palette: seq<Svg.Color>, start: nat,
                                          draw: (Bus, Svg.Color) -> seq<Item>, k: nat)
    requires InTable(c, drawn) && |palette| > 0
    requires forall b, col :: InLayer(draw(b, col), k)
    ensures InLayer(Painted(c, drawn, palette, start, draw), k)
    decreases |drawn|
  {
    if |drawn| > 0 {
      PaintedInLayer(c, drawn[1..], palette, start + 1, draw, k);
      var head := draw(c.busesTable[drawn[0]], palette[start % |palette|]);
      var rest := Painted(c, drawn[1..], palette, start + 1, draw);
      assert InLayer(head, k);
      forall i | 0 <= i < |head + rest| ensures Layer((head + rest)[i]) == k {
        if i >= |head| {
          assert (head + rest)[i] == rest[i - |head|];
        }
      }
    }
  }

  // ------------------------------------------------------------ stop pass

  /** Bus `name` runs through a stop called `stop`. */
  predicate Serves(c: Catalogue.Catalogue, name: string, stop: string) {
    name in c.busesTable && stop in RouteStops(c, c.busesTable[name].stops)
  }

  /** Some bus of `names` runs through a stop called `stop`. */
  predicate ServedBy(c: Catalogue.Catalogue, names: seq<string>, stop: string) {
    exists k :: 0 <= k < |names| && Serves(c, names[k], stop)
  }

  lemma {:induction false} ServedByCons(c: Catalogue.Catalogue, names: seq<string>, stop: string)
    requires |names| > 0
    ensures ServedBy(c, names, stop) <==> Serves(c, names[0], stop) || ServedBy(c, names[1..], stop)
  {
    if ServedBy(c, names, stop) {
      var k :| 0 <= k < |names| && Serves(c, names[k], stop);
      if k > 0 {
        assert names[1..][k - 1] == names[k];
      }
    }
    if ServedBy(c, names[1..], stop) {
      var k :| 0 <= k < |names[1..]| && Serves(c, names[1..][k], stop);
      assert names[k + 1] == names[1..][k];
    }
  }

  /** The stop names of the buses with stops, bus by bus, as they are
      inserted into the sorted stop map. */
  function ServedStops(c: Catalogue.Catalogue, names: seq<string>): (r: seq<string>)
    requires InTable(c, names)
    ensures forall n :: n in r <==> ServedBy(c, names, n)
    decreases |names|
  {
    if |names| == 0 then []
    else
      var bus := c.busesTable[names[0]];
      var rest := ServedStops(c, names[1..]);
      var own := if |bus.stops| == 0 then [] else RouteStops(c, bus.stops);
      assert forall n :: ServedBy(c, names, n) <==> Serves(c, names[0], n) || ServedBy(c, names[1..], n) by {
        forall n ensures ServedBy(c, names, n) <==> Serves(c, names[0], n) || ServedBy(c, names[1..], n) {
          ServedByCons(c, names, n);
        }
      }
      own + rest
  }

  /** The distinct served stops in ascending name order, as the keys of
      `sorted_stops`. */
  function SortedStops(c: Catalogue.Catalogue, names: seq<string>): (r: seq<string>)
    requires InTable(c, names)
    ensures Ordered.StrictlySorted(r)
    ensures forall n :: n in r <==> ServedBy(c, names, n)
  {
    Ordered.InsertAllSorted([], ServedStops(c, names));
    Ordered.InsertAll([], ServedStops(c, names))
  }

  /** A circle for each stop, in order. */
  function Circles(stops: seq<string>): (r: seq<Item>)
    ensures |r| == |stops| && InLayer(r, 2)
    ensures forall k :: 0 <= k < |stops| ==> r[k] == StopCircle(stops[k])
  {
    seq(|stops|, k requires 0 <= k < |stops| => StopCircle(stops[k]))
  }

  /** An underlayer and a label for each stop, in order. */
  function StopLabels(r: Renderer, stops: seq<string>): (items: seq<Item>)
    ensures |items| == 2 * |stops| && InLayer(items, 3)
    ensures forall k :: 0 <= k < |stops| ==>
      items[2 * k] == StopLabelUnderlayer(stops[k], r.underlayerColor) && items[2 * k + 1] == StopLabel(stops[k])
  {
    seq(2 * |stops|, i requires 0 <= i < 2 * |stops| =>
      if i % 2 == 0 then StopLabelUnderlayer(stops[i / 2], r.underlayerColor) else StopLabel(stops[i / 2]))
  }

  // -------------------------------------------------------------- PrintMap

  /** The keys of the bus table in ascending order, as `sorted_buses_table`
      holds them after inserting the table's entries in `order`. */
  function SortedBuses(order: seq<string>): seq<string> {
    Ordered.InsertAll([], order)
  }

  lemma SortedBusesSpec(c: Catalogue.Catalogue, order: seq<string>)
    requires Catalogue.EnumeratesBuses(c, order)
    ensures Ordered.StrictlySorted(SortedBuses(order))
    ensures forall n :: n in SortedBuses(order) <==> n in c.busesTable
    ensures InTable(c, SortedBuses(order))
  {
    Ordered.InsertAllSorted([], order);
  }

  /** `PrintMap`: all route lines, then all bus labels, then the stop
      circles, then the stop labels; the two bus passes each start at the
      first palette colour. `order` is the iteration order of the bus table
      handed in. */
  function PrintMap(r: Renderer, c: Catalogue.Catalogue, order: seq<string>): (items: seq<Item>)
    requires |r.palette| > 0
    requires Catalogue.EnumeratesBuses(c, order)
  {
    SortedBusesSpec(c, order);
    var names := SortedBuses(order);
    var stops := SortedStops(c, names);
    Pass(c, names, r.palette, 0, LineDraw(c)) + Pass(c, names, r.palette, 0, LabelDraw(r, c))
      + Circles(stops) + StopLabels(r, stops)
  }

  /** The buses drawn are exactly those with stops, in ascending name
      order. */
  lemma DrawnBuses(c: Catalogue.Catalogue, order: seq<string>)
    requires Catalogue.EnumeratesBuses(c, order)
    ensures InTable(c, Drawn(c, SortedBuses(order)))
    ensures Ordered.StrictlySorted(Drawn(c, SortedBuses(order)))
    ensures forall n :: n in Drawn(c, SortedBuses(order)) <==> n in c.busesTable && |c.busesTable[n].stops| > 0
  {
    SortedBusesSpec(c, order);
    DrawnSorted(c, SortedBuses(order));
  }

  /** The stops drawn are exactly those some bus runs through, each once,
      in ascending name order. */
  lemma DrawnStops(c: Catalogue.Catalogue, order: seq<string>)
    requires Catalogue.EnumeratesBuses(c, order)
    ensures InTable(c, SortedBuses(order))
    ensures Ordered.StrictlySorted(SortedStops(c, SortedBuses(order)))
    ensures forall n :: n in SortedStops(c, SortedBuses(order)) <==> exists b :: b in c.busesTable && Serves(c, b, n)
  {
    SortedBusesSpec(c, order);
    var names := SortedBuses(order);
    forall n ensures n in SortedStops(c, names) <==> exists b :: b in c.busesTable && Serves(c, b, n) {
      if exists b :: b in c.busesTable && Serves(c, b, n) {
        var b :| b in c.busesTable && Serves(c, b, n);
        assert b in names;
        var k :| 0 <= k < |names| && names[k] == b;
        assert Serves(c, names[k], n);
        assert ServedBy(c, names, n);
      }
    }
  }

  /** The map in terms of the drawn buses and stops: the route lines and
      the bus labels of the `j`-th bus with stops both use palette colour
      `j mod |palette|`. */
  lemma {:induction false} PrintMapParts(r: Renderer, c: Catalogue.Catalogue, order: seq<string>)
    requires |r.palette| > 0
    requires Catalogue.EnumeratesBuses(c, order)
    ensures InTable(c, SortedBuses(order)) && InTable(c, Drawn(c, SortedBuses(order)))
    ensures var drawn := Drawn(c, SortedBuses(order));
      var stops := SortedStops(c, SortedBuses(order));
      PrintMap(r, c, order) == Painted(c, drawn, r.palette, 0, LineDraw(c)) + Painted(c, drawn, r.palette, 0, LabelDraw(r, c))
        + Circles(stops) + StopLabels(r, stops)
  {
    SortedBusesSpec(c, order);
    var names := SortedBuses(order);
    PassPaints(c, names, r.palette, 0, LineDraw(c));
    PassPaints(c, names, r.palette, 0, LabelDraw(r, c));
  }

  /** The map starts with one route line per bus with stops, in ascending
      name order, the `j`-th in palette colour `j mod |palette|`. */
  lemma MapRouteLines(r: Renderer, c: Catalogue.Catalogue, order: seq<string>)
    requires |r.palette| > 0
    requires Catalogue.EnumeratesBuses(c, order)
    ensures InTable(c, Drawn(c, SortedBuses(order)))
    ensures var drawn := Drawn(c, SortedBuses(order));
      var items := PrintMap(r, c, order);
      && |drawn| <= |items|
      && forall j :: 0 <= j < |drawn| ==>
           items[j] == RouteLine(RouteStops(c, c.busesTable[drawn[j]].stops), r.palette[j % |r.palette|])
  {
    PrintMapParts(r, c, order);
    var drawn := Drawn(c, SortedBuses(order));
    PaintedLines(c, drawn, r.palette, 0);
  }

  /** Lines, bus labels, circles and stop labels come in that order: no
      item is drawn over one of a later kind. */
  lemma MapLayers(r: Renderer, c: Catalogue.Catalogue, order: seq<string>)
    requires |r.palette| > 0
    requires Catalogue.EnumeratesBuses(c, order)
    ensures LayersAscending(PrintMap(r, c, order))
  {
    PrintMapParts(r, c, order);
    var drawn := Drawn(c, SortedBuses(order));
    var stops := SortedStops(c, SortedBuses(order));
    var a := Painted(c, drawn, r.palette, 0, LineDraw(c));
    var b := Painted(c, drawn, r.palette, 0, LabelDraw(r, c));
    assert forall bus, col :: InLayer(LineDraw(c)(bus, col), 0);
    assert forall bus, col :: InLayer(LabelDraw(r, c)(bus, col), 1);
    PaintedInLayer(c, drawn, r.palette, 0, LineDraw(c), 0);
    PaintedInLayer(c, drawn, r.palette, 0, LabelDraw(r, c), 1);
    LayeredBlocks(a, b, Circles(stops), StopLabels(r, stops));
  }

  lemma LayeredBlocks(a: seq<Item>, b: seq<Item>, c: seq<Item>, d: seq<Item>)
    requires InLayer(a, 0) && InLayer(b, 1) && InLayer(c, 2) && InLayer(d, 3)
    ensures LayersAscending(a + b + c + d)
  {
    var s := a + b + c + d;
    forall i | 0 <= i < |s|
      ensures Layer(s[i]) == if i < |a| then 0 else if i < |a| + |b| then 1 else if i < |a| + |b| + |c| then 2 else 3
    {
      if i < |a| {
        assert s[i] == a[i];
      } else if i < |a| + |b| {
        assert s[i] == b[i - |a|];
      } else if i < |a| + |b| + |c| {
        assert s[i] == c[i - |a| - |b|];
      } else {
        assert s[i] == d[i - |a| - |b| - |c|];
      }
    }
  }
}
