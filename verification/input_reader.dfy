/** The line-oriented front end of input_reader.cpp. A stop line is
    `Stop X: lat, lng, D1m to stop1, D2m to stop2, ...` and a bus line is
    `Bus X: s1 > s2 > ... > s1` or `Bus X: s1 - s2 - ... - sN`. Every
    position is a `size_t`, so the wrap-around of `npos + 1` and of
    `a - b` for `a < b` is written out through `CString`. */
module InputReader {
  import opened Wrappers
  import opened Domain
  import opened CString
  import Decimal
  import Catalogue
  import JsonReader

  /** A parsed stop line: the stop and the distances to its neighbours. */
  datatype StopLine = StopLine(name: string, coordinates: Coordinates, distances: map<string, int>)

  /** A parsed bus line; the stop names are already expanded for a
      there-and-back route. */
  datatype BusLine = BusLine(busName: string, stopsNames: seq<string>)

  datatype Reader = Reader(stops: seq<StopLine>, buses: seq<BusLine>)

  const Empty: Reader := Reader([], [])

  /** The characters that end a stop name on a bus line. */
  const Separators: set<char> := {'-', '>'}

  // --------------------------------------------------------------- names

  /** The name of a command: from the first non-space at or after `from`
      up to the next ':', trailing spaces trimmed, with the position of the
      ':' (or `npos`). */
  function ParseName(line: string, from: SizeT): (r: Result<(string, SizeT)>)
    requires Fits(line)
    ensures r.Success? ==> r.value.1 == FindFirstOf(line, {':'}, FindFirstNotOf(line, ' ', from))
    ensures r.Success? ==> |r.value.0| == 0 || r.value.0[|r.value.0| - 1] != ' '
  {
    var begin := FindFirstNotOf(line, ' ', from);
    var end := FindFirstOf(line, {':'}, begin);
    var name :- Substr(line, begin, Sub(end, begin));
    var trimmed :- TrimBack(name);
    CString.TrimRightShape(name);
    Success((trimmed, end))
  }

  /** A name written after `from` as blanks, the name, optional trailing
      blanks and a ':' is read back without the blanks. */
  lemma ParseNameSpec(line: string, from: SizeT, begin: nat, end: nat)
    requires Fits(line)
    requires from <= begin < end < |line|
    requires forall i :: from <= i < begin ==> line[i] == ' '
    requires line[begin] != ' ' && line[end] == ':'
    requires forall i :: begin <= i < end ==> line[i] != ':'
    ensures ParseName(line, from) == Success((TrimRight(line[begin..end]), end))
  {
    assert FindFirstNotOf(line, ' ', from) == begin;
    assert FindFirstOf(line, {':'}, begin) == end;
    assert Sub(end, begin) == end - begin;
  }

  // --------------------------------------------------------------- stops

  /** One `D m to name` entry after position `prev`: the distance, the
      neighbour's name and the position of the ',' that follows it (`npos`
      at the end of the line). `std::stoi` gives an `int`, which goes
      through `uint32_t` and back into the `int` of `Distance` unchanged. */
  function DistanceEntry(line: string, prev: SizeT): (r: Result<(int, string, SizeT)>)
    requires Fits(line)
    ensures r.Success? ==> Decimal.IsInt32(r.value.0)
    ensures r.Success? ==> r.value.2 == NPOS || r.value.2 < |line|
  {
    var distanceBegin := FindFirstNotOf(line, ' ', Add(prev, 1));
    var distanceEnd := FindFirstOf(line, {'m'}, distanceBegin);
    var distanceText :- Substr(line, distanceBegin, Sub(distanceEnd, distanceBegin));
    var distance :- Decimal.Stoi(distanceText);
    var to := Find(line, "to", distanceEnd);
    var stopBegin := FindFirstNotOf(line, ' ', Add(to, 2));
    var stopEnd := FindFirstOf(line, {','}, stopBegin);
    var size := if stopEnd == NPOS then Sub(|line|, stopBegin) else Sub(stopEnd, stopBegin);
    var stop :- Substr(line, stopBegin, size);
    Success((Decimal.Wrap32(distance), stop, stopEnd))
  }

  /** The positions `0 .. n - 1`. */
  function Positions(n: nat): (r: set<SizeT>)
    requires n < SIZE_MODULUS
    ensures forall i :: i in r <==> 0 <= i < n
  {
    if n == 0 then {} else Positions(n - 1) + {n - 1}
  }

  /** `ParseStopsDistances` from position `prev`, adding to `acc` with
      `insert` (a repeated neighbour keeps its first distance). The
      recursion depends on nothing but the position, so reaching a position
      already in `visited` means the source recurses forever. */
  function ParseStopsDistances(line: string, prev: SizeT, visited: set<SizeT>, acc: map<string, int>)
    : (r: Result<map<string, int>>)
    requires Fits(line) && prev < |line| && visited <= Positions(|line|)
    ensures r.Success? ==> forall n :: n in acc ==> n in r.value && r.value[n] == acc[n]
    decreases Positions(|line|) - visited
  {
    if prev in visited then Failure(Diverges)
    else
      var (distance, stop, next) :- DistanceEntry(line, prev);
      var acc' := if stop in acc then acc else acc[stop := distance];
      if next == NPOS then Success(acc')
      else ParseStopsDistances(line, next, visited + {prev}, acc')
  }

  /** Every distance read is a 32-bit value. */
  lemma {:induction false} DistancesInt32(line: string, prev: SizeT, visited: set<SizeT>, acc: map<string, int>)
    requires Fits(line) && prev < |line| && visited <= Positions(|line|)
    requires forall n :: n in acc ==> Decimal.IsInt32(acc[n])
    requires ParseStopsDistances(line, prev, visited, acc).Success?
    ensures forall n :: n in ParseStopsDistances(line, prev, visited, acc).value ==>
      Decimal.IsInt32(ParseStopsDistances(line, prev, visited, acc).value[n])
    decreases Positions(|line|) - visited
  {
    var (distance, stop, next) := DistanceEntry(line, prev).value;
    var acc' := if stop in acc then acc else acc[stop := distance];
    if next != NPOS {
      DistancesInt32(line, next, visited + {prev}, acc');
    }
  }

  /** A coordinate field from `begin` to `end`: `substr` and the trimming
      check run on it, but `std::stod(field.data())` reads from `begin` to the
      end of the line. */
  function CoordinateText(line: string, begin: SizeT, end: SizeT): (r: Result<string>)
    requires Fits(line)
    ensures r.Success? <==> begin < |line| && (end != NPOS ==> begin != end)
    ensures r.Failure? ==> r.error == if begin > |line| then OutOfRange else Undefined
    ensures r.Success? ==> r.value == line[begin..]
  {
    var text :- Substr(line, begin, Sub(end, begin));
    var _ :- TrimBack(text);
    Success(line[begin..])
  }

  /** The coordinate fields of a stop line whose name ends at `nameEnd`,
      as `std::stod` reads them, and where the longitude ends. The
      latitude's end is searched from the start of the line, not from the
      latitude. */
  function CoordinateTexts(line: string, nameEnd: SizeT): (r: Result<(string, string, SizeT)>)
    requires Fits(line)
    ensures r.Success? ==> r.value.2 == NPOS || r.value.2 < |line|
  {
    var latitudeBegin := FindFirstNotOf(line, ' ', Add(nameEnd, 1));
    var latitudeEnd := FindFirstOf(line, {','}, 0);
    var longitudeBegin := FindFirstNotOf(line, ' ', Add(latitudeEnd, 1));
    var longitudeEnd := FindFirstOf(line, {','}, longitudeBegin);
    var latitudeText :- CoordinateText(line, latitudeBegin, latitudeEnd);
    var longitudeText :- CoordinateText(line, longitudeBegin, longitudeEnd);
    Success((latitudeText, longitudeText, longitudeEnd))
  }

  /** The distances after the longitude: none when no `,` follows it. */
  function StopDistances(line: string, longitudeEnd: SizeT): (r: Result<map<string, int>>)
    requires Fits(line) && (longitudeEnd == NPOS || longitudeEnd < |line|)
    ensures r.Success? ==> forall n :: n in r.value ==> Decimal.IsInt32(r.value[n])
  {
    if longitudeEnd == NPOS then Success(map[])
    else
      var r := ParseStopsDistances(line, longitudeEnd, {}, map[]);
      if r.Success? then DistancesInt32(line, longitudeEnd, {}, map[]); r else r
  }

  /** `ParseStop` after the keyword at `command`. The coordinates are read
      by `std::stod`, given here as `stod`. */
  function ParseStop(line: string, command: SizeT, stod: string -> Result<real>): (r: Result<StopLine>)
    requires Fits(line)
    ensures r.Success? ==> |r.value.name| == 0 || r.value.name[|r.value.name| - 1] != ' '
    ensures r.Success? ==> forall n :: n in r.value.distances ==> Decimal.IsInt32(r.value.distances[n])
  {
    var (name, nameEnd) :- ParseName(line, Add(command, 4));
    var (latitudeText, longitudeText, longitudeEnd) :- CoordinateTexts(line, nameEnd);
    var latitude :- stod(latitudeText);
    var longitude :- stod(longitudeText);
    var distances :- StopDistances(line, longitudeEnd);
    Success(StopLine(name, Coordinates(latitude, longitude), distances))
  }

  // ---------------------------------------------------------------- buses

  /** The end of the stop name beginning at `begin`, as the size handed to
      `substr`: up to the next separator, or to the end of the line. */
  function StopSize(line: string, begin: SizeT, end: SizeT): SizeT
    requires Fits(line)
  {
    if end == NPOS then Sub(|line|, begin) else Sub(end, begin)
  }

  /** The stop name after the separator at `prev` and the position of the
      separator that ends it (`npos` at the end of the line): the piece of
      code `ParseStops` and `FindAndAddAnotherStop` share. */
  function NextName(line: string, prev: SizeT): (r: Result<(string, SizeT)>)
    requires Fits(line)
    ensures r.Success? ==> r.value.1 == NPOS || r.value.1 < |line|
    ensures r.Success? && prev < |line| ==> r.value.1 == NPOS || prev < r.value.1
  {
    var begin := FindFirstNotOf(line, ' ', Add(prev, 1));
    var end := FindFirstOf(line, Separators, begin);
    var stop :- Substr(line, begin, StopSize(line, begin, end));
    var trimmed :- TrimBack(stop);
    Success((trimmed, end))
  }

  /** `FindAndAddAnotherStop`: the stop names after the separator at
      `prev`, in order. */
  function MoreStops(line: string, prev: SizeT): (r: Result<seq<string>>)
    requires Fits(line) && prev < |line|
    ensures r.Success? ==> |r.value| >= 1
    decreases |line| - prev
  {
    var (name, end) :- NextName(line, prev);
    if end == NPOS then Success([name])
    else
      var rest :- MoreStops(line, end);
      Success([name] + rest)
  }

  /** `ParseStops`: the first two names are read unconditionally, the
      others by `FindAndAddAnotherStop`. */
  function ParseStops(line: string, nameEnd: SizeT): (r: Result<seq<string>>)
    requires Fits(line)
    ensures r.Success? ==> |r.value| >= 2
  {
    var firstBegin := FindFirstNotOf(line, ' ', Add(nameEnd, 1));
    var firstEnd := FindFirstOf(line, Separators, firstBegin);
    var first :- Substr(line, firstBegin, Sub(firstEnd, firstBegin));
    var first' :- TrimBack(first);
    var (second, secondEnd) :- NextName(line, firstEnd);
    var rest :- if secondEnd != NPOS then MoreStops(line, secondEnd) else Success([]);
    Success([first', second] + rest)
  }

  /** `ParseBus`: a '-' anywhere on the line makes the route there and
      back. */
  function ParseBus(line: string, command: SizeT): (r: Result<BusLine>)
    requires Fits(line)
    ensures r.Success? ==> ParseName(line, Add(command, 3)).Success?
    ensures r.Success? ==>
      var (name, nameEnd) := ParseName(line, Add(command, 3)).value;
      && ParseStops(line, nameEnd).Success?
      && r.value.busName == name
      && r.value.stopsNames ==
           if '-' in line then JsonReader.OutAndBack(ParseStops(line, nameEnd).value)
           else ParseStops(line, nameEnd).value
  {
    var (name, nameEnd) :- ParseName(line, Add(command, 3));
    var stops :- ParseStops(line, nameEnd);
    if FindFirstOf(line, {'-'}, 0) != NPOS then Success(BusLine(name, JsonReader.OutAndBack(stops)))
    else Success(BusLine(name, stops))
  }

  // ---------------------------------------------------------------- lines

  /** `ParseLine`: a stop command when the first non-space is 'S', a bus
      command otherwise; a blank line reads `line[npos]`. */
  function ParseLine(r: Reader, line: string, stod: string -> Result<real>): (res: Result<Reader>)
    requires Fits(line)
    ensures res.Success? ==> exists i :: 0 <= i < |line| && line[i] != ' '
    ensures res.Failure? && (forall i :: 0 <= i < |line| ==> line[i] == ' ') ==> res.error == Undefined
    ensures res.Success? ==>
      var c := FindFirstNotOf(line, ' ', 0);
      if line[c] == 'S' then
        && ParseStop(line, c, stod).Success?
        && res.value == r.(stops := r.stops + [ParseStop(line, c, stod).value])
      else
        && ParseBus(line, c).Success?
        && res.value == r.(buses := r.buses + [ParseBus(line, c).value])
  {
    var c := FindFirstNotOf(line, ' ', 0);
    if c >= |line| then Failure(Undefined)
    else if line[c] == 'S' then
      var stop :- ParseStop(line, c, stod);
      Success(r.(stops := r.stops + [stop]))
    else
      var bus :- ParseBus(line, c);
      Success(r.(buses := r.buses + [bus]))
  }

  // ------------------------------------------------------ written lines

  /** A name the line format can carry: not empty, no blank at either end,
      and none of the characters the parsers split at. */
  predicate Plain(s: string) {
    && |s| > 0 && s[0] != ' ' && s[|s| - 1] != ' '
    && forall i :: 0 <= i < |s| ==> s[i] != ':' && s[i] != '-' && s[i] != '>' && s[i] != ','
  }

  /** The stops after the first on a written bus line: ` > name` (or
      ` - name`) for each. */
  function Links(names: seq<string>, sep: char): (r: string)
    ensures |names| > 0 ==> |r| >= 3 + |names[0]|
  {
    if |names| == 0 then "" else " " + [sep] + " " + names[0] + Links(names[1..], sep)
  }

  /** A bus line as it is written: `Bus name: s1 > s2 > ...`, or with '-'
      for a route there and back. */
  function BusText(name: string, stops: seq<string>, sep: char): string
    requires |stops| > 0
  {
    "Bus " + name + ": " + stops[0] + Links(stops[1..], sep)
  }

  lemma {:induction false} LinksChars(names: seq<string>, sep: char, i: nat)
    requires sep in Separators
    requires forall k :: 0 <= k < |names| ==> Plain(names[k])
    requires i < |Links(names, sep)|
    ensures Links(names, sep)[i] != ':' && Links(names, sep)[i] != ','
    ensures Links(names, sep)[i] == '-' ==> sep == '-'
    ensures Links(names, sep)[i] == '>' ==> sep == '>'
    decreases |names|
  {
    var head := " " + [sep] + " " + names[0];
    assert Links(names, sep) == head + Links(names[1..], sep);
    if i >= |head| {
      LinksChars(names[1..], sep, i - |head|);
    } else if i >= 3 {
      assert head[i] == names[0][i - 3];
    }
  }

  /** Trimming a plain name followed by one blank gives the name back. */
  lemma TrimPlain(name: string)
    requires Plain(name)
    ensures TrimRight(name + " ") == name && TrimRight(name) == name
  {
    assert (name + " ")[..|name + " "| - 1] == name;
  }

  function Prepend(name: string, r: Result<seq<string>>): Result<seq<string>> {
    if r.Success? then Success([name] + r.value) else r
  }

  /** A plain name written from `begin` is followed by the end of the line
      (`end == npos`) or by one blank and the separator at `end`. */
  predicate NameAt(line: string, begin: nat, name: string, end: SizeT) {
    && Plain(name) && begin + |name| <= |line| && line[begin..begin + |name|] == name
    && (end == NPOS ==> begin + |name| == |line|)
    && (end != NPOS ==> end == begin + |name| + 1 < |line| && line[end - 1] == ' ' && line[end] in Separators)
  }

  lemma NameEnds(line: string, begin: SizeT, name: string, end: SizeT)
    requires Fits(line) && NameAt(line, begin, name, end)
    ensures FindFirstOf(line, Separators, begin) == end
    ensures Substr(line, begin, StopSize(line, begin, end)) == Success(if end == NPOS then name else name + " ")
  {
    assert forall i :: begin <= i < begin + |name| ==> line[i] == name[i - begin];
    if end == NPOS {
      FindFirstOfNone(line, Separators, begin);
      SubNoWrap(|line|, begin);
      assert line[begin..] == name;
    } else {
      FindFirstOfAt(line, Separators, begin, end);
      SubNoWrap(end, begin);
      assert line[begin..end] == name + " ";
    }
  }

  /** A name written as one blank after the separator at `prev` is read
      back by `NextName`. */
  lemma NextNameAt(line: string, prev: SizeT, name: string, end: SizeT)
    requires Fits(line) && LinkAt(line, prev, name, end)
    ensures NextName(line, prev) == Success((name, end))
  {
    var begin := prev + 2;
    AddNoWrap(prev, 1);
    assert line[begin] == name[0];
    FindFirstNotOfAt(line, ' ', prev + 1, begin);
    NameEnds(line, begin, name, end);
    TrimPlain(name);
  }

  /** `FindAndAddAnotherStop` reads one name, then stops at the end of the
      line or goes on after the separator that ends it. */
  lemma MoreStopsStep(line: string, prev: SizeT, name: string, end: SizeT)
    requires Fits(line) && prev < |line| && NextName(line, prev) == Success((name, end))
    ensures end == NPOS ==> MoreStops(line, prev) == Success([name])
    ensures end != NPOS ==> end < |line| && MoreStops(line, prev) == Prepend(name, MoreStops(line, end))
  {
  }

  /** The positions of the separators before the stops of a written link
      sequence whose first separator is at `start`, closed by `npos`. */
  function LinkEnds(start: nat, names: seq<string>): (ps: seq<int>)
    requires |names| > 0
    ensures |ps| == |names| + 1 && ps[0] == start && ps[|names|] == NPOS
    decreases |names|
  {
    if |names| == 1 then [start, NPOS]
    else [start] + LinkEnds(start + 3 + |names[0]|, names[1..])
  }

  /** A separator at `prev`, one blank, and a plain name ending at `end`. */
  predicate LinkAt(line: string, prev: int, name: string, end: SizeT) {
    0 <= prev && prev + 1 < |line| && line[prev + 1] == ' ' && NameAt(line, prev + 2, name, end)
  }

  /** Every stop of `names` is written after the separator before it,
      `ps` holding the separators' positions and `npos` after the last. */
  predicate Written(line: string, ps: seq<int>, names: seq<string>)
    decreases |names|
  {
    && |ps| == |names| + 1
    && (|names| == 0 ==> ps[0] == NPOS)
    && (|names| > 0 ==>
          && 0 <= ps[1] < SIZE_MODULUS && LinkAt(line, ps[0], names[0], ps[1])
          && Written(line, ps[1..], names[1..]))
  }

  /** Where the first link of `pre + Links(names, sep)` lies. */
  lemma FirstLink(pre: string, names: seq<string>, sep: char)
    requires sep in Separators && |names| > 0 && Plain(names[0])
    requires |names| > 1 ==> |names[1]| > 0
    requires Fits(pre + Links(names, sep))
    ensures pre + Links(names, sep) == (pre + " " + [sep] + " " + names[0]) + Links(names[1..], sep)
    ensures LinkAt(pre + Links(names, sep), |pre| + 1, names[0],
                   if |names| == 1 then NPOS else |pre| + 4 + |names[0]|)
  {
    var rest := Links(names[1..], sep);
    assert pre + Links(names, sep) == (pre + " " + [sep] + " " + names[0]) + rest;
    if |names| > 1 {
      assert rest[0] == ' ' && rest[1] == sep;
    }
    LinkLaid(pre, sep, names[0], rest);
  }

  /** Where the pieces of `pre <sep> <n><rest>` lie. */
  lemma LinkLaid(pre: string, sep: char, n: string, rest: string)
    ensures var line := (pre + " " + [sep] + " " + n) + rest;
      var b := |pre| + 3;
      && |line| == b + |n| + |rest|
      && line[|pre| + 2] == ' ' && line[b..b + |n|] == n
      && (|rest| > 1 ==> line[b + |n|] == rest[0] && line[b + |n| + 1] == rest[1])
  {
    var line := (pre + " " + [sep] + " " + n) + rest;
    var head := pre + " " + [sep] + " ";
    var pre' := head + n;
    assert line == pre' + rest;
    assert |head| == |pre| + 3;
    assert line[|pre| + 2] == head[|pre| + 2] == ' ';
    assert line[|pre| + 3..|pre'|] == n by {
      assert line[..|pre'|] == pre';
      assert pre'[|head|..] == n;
    }
  }

  /** A first link in front of a written link sequence. */
  lemma WrittenStep(line: string, ps: seq<int>, names: seq<string>)
    requires |names| > 1 && |ps| == |names| + 1 && 0 <= ps[1] < SIZE_MODULUS
    requires LinkAt(line, ps[0], names[0], ps[1]) && Written(line, ps[1..], names[1..])
    ensures Written(line, ps, names)
  {
  }

  /** The layout of `pre + Links(names, sep)`. */
  lemma {:induction false} LinksWritten(pre: string, names: seq<string>, sep: char)
    requires sep in Separators && |names| > 0
    requires forall k :: 0 <= k < |names| ==> Plain(names[k])
    requires Fits(pre + Links(names, sep))
    ensures Written(pre + Links(names, sep), LinkEnds(|pre| + 1, names), names)
    decreases |names|
  {
    FirstLink(pre, names, sep);
    if |names| == 1 {
      var ps := LinkEnds(|pre| + 1, names);
      assert Written(pre + Links(names, sep), ps[1..], names[1..]);
    } else {
      var pre' := pre + " " + [sep] + " " + names[0];
      LinksWritten(pre', names[1..], sep);
      LinksCons(pre, names, sep, pre' + Links(names[1..], sep), |pre'| + 1);
    }
  }

  /** The first link in front of the written rest. */
  lemma LinksCons(pre: string, names: seq<string>, sep: char, line: string, next: nat)
    requires sep in Separators && |names| > 1 && Plain(names[0]) && |names[1]| > 0
    requires Fits(pre + Links(names, sep)) && line == pre + Links(names, sep)
    requires next == |pre| + 4 + |names[0]| && Written(line, LinkEnds(next, names[1..]), names[1..])
    ensures Written(line, LinkEnds(|pre| + 1, names), names)
  {
    FirstLinkAt(pre, names, sep, line, next);
    var ps := LinkEnds(|pre| + 1, names);
    LinkEndsCons(|pre| + 1, names, next);
    assert ps[1..] == LinkEnds(next, names[1..]);
    WrittenStep(line, ps, names);
  }

  /** The first link, when more follow. */
  lemma FirstLinkAt(pre: string, names: seq<string>, sep: char, line: string, next: nat)
    requires sep in Separators && |names| > 1 && Plain(names[0]) && |names[1]| > 0
    requires Fits(pre + Links(names, sep)) && line == pre + Links(names, sep)
    requires next == |pre| + 4 + |names[0]|
    ensures next < SIZE_MODULUS && LinkAt(line, |pre| + 1, names[0], next)
  {
    FirstLink(pre, names, sep);
  }

  lemma LinkEndsCons(start: nat, names: seq<string>, next: nat)
    requires |names| > 1 && next == start + 3 + |names[0]|
    ensures LinkEnds(start, names) == [start] + LinkEnds(next, names[1..])
  {
  }

  /** The first stop of a written link sequence is read after its
      separator. */
  lemma WrittenHead(line: string, ps: seq<int>, names: seq<string>)
    requires Fits(line) && |names| > 0 && Written(line, ps, names)
    ensures 0 <= ps[0] < |line| && 0 <= ps[1] < SIZE_MODULUS
    ensures NextName(line, ps[0]) == Success((names[0], ps[1]))
    ensures |names| > 1 ==> ps[1] != NPOS
  {
    NextNameAt(line, ps[0], names[0], ps[1]);
    if |names| > 1 {
      assert Written(line, ps[1..], names[1..]);
      assert LinkAt(line, ps[1..][0], names[1..][0], ps[1..][1]);
    }
  }

  /** `FindAndAddAnotherStop` from the first separator of a written link
      sequence reads its stops back. */
  lemma {:induction false} WrittenStops(line: string, ps: seq<int>, names: seq<string>)
    requires Fits(line) && |names| > 0 && Written(line, ps, names)
    ensures 0 <= ps[0] < |line| && MoreStops(line, ps[0]) == Success(names)
    decreases |names|
  {
    WrittenHead(line, ps, names);
    MoreStopsStep(line, ps[0], names[0], ps[1]);
    if |names| == 1 {
      assert names == [names[0]];
    } else {
      var rest := ps[1..];
      assert rest[0] == ps[1];
      WrittenStops(line, rest, names[1..]);
      PrependSplit(names, MoreStops(line, ps[1]));
    }
  }

  /** When the first stop ends at a separator, `ParseStops` is the first
      name followed by `FindAndAddAnotherStop` from that separator. */
  lemma ParseStopsTail(line: string, nameEnd: SizeT, first: string, firstEnd: SizeT)
    requires Fits(line) && firstEnd < |line| && NextName(line, nameEnd) == Success((first, firstEnd))
    ensures ParseStops(line, nameEnd) == Prepend(first, MoreStops(line, firstEnd))
  {
    var tail := MoreStops(line, firstEnd);
    if tail.Success? {
      assert [first] + tail.value == [first, tail.value[0]] + tail.value[1..];
    }
  }

  /** The header of a bus line: `Bus `, the name, `: ` and the first stop
      followed by a blank and a separator. */
  predicate HeaderAt(line: string, name: string, first: string) {
    && Fits(line) && Plain(name) && 6 + |name| < |line|
    && line[0] == 'B' && line[3] == ' ' && line[4..4 + |name|] == name
    && line[4 + |name|] == ':' && 7 + |name| + |first| < |line|
    && LinkAt(line, 4 + |name|, first, 7 + |name| + |first|)
  }

  /** The name of a bus line, read from its header. */
  lemma BusNameAt(line: string, name: string, first: string)
    requires HeaderAt(line, name, first)
    ensures ParseName(line, Add(0, 3)) == Success((name, 4 + |name|))
  {
    AddNoWrap(0, 3);
    assert forall i :: 4 <= i < 4 + |name| ==> line[i] == name[i - 4];
    ParseNameSpec(line, 3, 4, 4 + |name|);
    TrimPlain(name);
  }

  /** The first stop of a bus line, read from its header; `p` is the
      separator after it. */
  lemma BusFirstStopAt(line: string, name: string, first: string, p: SizeT)
    requires HeaderAt(line, name, first) && p == 7 + |name| + |first|
    ensures ParseStops(line, 4 + |name|) == Prepend(first, MoreStops(line, p))
  {
    FirstStopTail(line, 4 + |name|, first, p);
  }

  /** The first stop, written as a link, is followed by the remaining stops. */
  lemma FirstStopTail(line: string, nameEnd: SizeT, first: string, firstEnd: SizeT)
    requires Fits(line) && firstEnd < |line| && LinkAt(line, nameEnd, first, firstEnd)
    ensures ParseStops(line, nameEnd) == Prepend(first, MoreStops(line, firstEnd))
  {
    NextNameAt(line, nameEnd, first, firstEnd);
    ParseStopsTail(line, nameEnd, first, firstEnd);
  }

  /** `ParseBus` reads back the header and the stops of a bus line. */
  lemma BusParsedAt(line: string, name: string, stops: seq<string>, sep: char, p: SizeT)
    requires Fits(line) && |stops| >= 2 && HeaderAt(line, name, stops[0])
    requires p == 7 + |name| + |stops[0]| < |line|
    requires MoreStops(line, p) == Success(stops[1..])
    requires '-' in line <==> sep == '-'
    ensures ParseBus(line, 0) == Success(BusLine(name, if sep == '-' then JsonReader.OutAndBack(stops) else stops))
  {
    BusNameAt(line, name, stops[0]);
    BusStopsAt(line, name, stops, p);
    FindFirstOfAny(line, '-');
  }

  lemma BusStopsAt(line: string, name: string, stops: seq<string>, p: SizeT)
    requires Fits(line) && |stops| >= 2 && HeaderAt(line, name, stops[0])
    requires p == 7 + |name| + |stops[0]| < |line|
    requires MoreStops(line, p) == Success(stops[1..])
    ensures ParseStops(line, 4 + |name|) == Success(stops)
  {
    BusFirstStopAt(line, name, stops[0], p);
    PrependSplit(stops, MoreStops(line, p));
  }

  lemma PrependSplit(stops: seq<string>, tail: Result<seq<string>>)
    requires |stops| >= 1 && tail == Success(stops[1..])
    ensures Prepend(stops[0], tail) == Success(stops)
  {
    assert [stops[0]] + stops[1..] == stops;
  }

  /** A line that opens with `B` is read as the bus `ParseBus` makes of it. */
  lemma BusLineAt(r: Reader, line: string, stod: string -> Result<real>, bus: BusLine)
    requires Fits(line) && |line| > 0 && line[0] == 'B' && ParseBus(line, 0) == Success(bus)
    ensures ParseLine(r, line, stod) == Success(r.(buses := r.buses + [bus]))
  {
    FindFirstNotOfAt(line, ' ', 0, 0);
  }

  /** Where the pieces of a written bus line lie. */
  lemma BusLayout(name: string, stops: seq<string>, sep: char)
    requires Plain(name) && |stops| >= 2 && Plain(stops[0]) && |stops[1]| > 0 && sep in Separators
    requires Fits(BusText(name, stops, sep))
    ensures BusText(name, stops, sep) == ("Bus " + name + ": " + stops[0]) + Links(stops[1..], sep)
    ensures HeaderAt(BusText(name, stops, sep), name, stops[0])
  {
    var line := BusText(name, stops, sep);
    var n := |name|;
    var head := "Bus " + name + ": ";
    var pre := head + stops[0];
    var links := Links(stops[1..], sep);
    assert line == pre + links;
    assert |head| == 6 + n;
    assert line[..|pre|] == pre;
    assert line[4..4 + n] == name by {
      assert pre[4..4 + n] == name;
    }
    assert line[6 + n..|pre|] == stops[0] by {
      assert pre[|head|..] == stops[0];
    }
    assert links[0] == ' ' && links[1] == sep;
    assert line[|pre|] == ' ' && line[|pre| + 1] == sep;
    assert line[0] == 'B' && line[3] == ' ' && line[4 + n] == ':' && line[5 + n] == ' ';
    assert NameAt(line, 6 + n, stops[0], 7 + n + |stops[0]|);
  }

  /** A written bus line holds a '-' exactly when its stops are joined by
      '-'. */
  lemma BusDash(name: string, stops: seq<string>, sep: char)
    requires Plain(name) && |stops| >= 2 && sep in Separators
    requires forall k :: 0 <= k < |stops| ==> Plain(stops[k])
    ensures '-' in BusText(name, stops, sep) <==> sep == '-'
  {
    var line := BusText(name, stops, sep);
    var head := "Bus " + name + ": ";
    var pre := head + stops[0];
    var links := Links(stops[1..], sep);
    assert line == pre + links;
    assert links[1] == sep;
    assert '-' !in name && '-' !in stops[0];
    assert '-' !in pre;
    if sep == '-' {
      assert line[|pre| + 1] == '-';
    } else {
      forall i | 0 <= i < |links| ensures links[i] != '-' {
        LinksChars(stops[1..], sep, i);
      }
      assert '-' !in links;
    }
  }

  /** A written bus line is read back as its name and stops, expanded there
      and back when the stops are joined by '-'. */
  lemma BusLineRoundTrip(r: Reader, name: string, stops: seq<string>, sep: char, stod: string -> Result<real>)
    requires Plain(name) && |stops| >= 2 && sep in Separators
    requires forall k :: 0 <= k < |stops| ==> Plain(stops[k])
    requires Fits(BusText(name, stops, sep))
    ensures ParseLine(r, BusText(name, stops, sep), stod)
         == Success(r.(buses := r.buses + [BusLine(name, if sep == '-' then JsonReader.OutAndBack(stops) else stops)]))
  {
    var line := BusText(name, stops, sep);
    var pre := "Bus " + name + ": " + stops[0];
    var p := 7 + |name| + |stops[0]|;
    BusLayout(name, stops, sep);
    assert |pre| + 1 == p;
    LinksWritten(pre, stops[1..], sep);
    var ps := LinkEnds(|pre| + 1, stops[1..]);
    assert ps[0] == p;
    WrittenStops(line, ps, stops[1..]);
    assert MoreStops(line, p) == Success(stops[1..]);
    BusDash(name, stops, sep);
    BusParsedAt(line, name, stops, sep, p);
    BusLineAt(r, line, stod, BusLine(name, if sep == '-' then JsonReader.OutAndBack(stops) else stops));
  }

  /** A bus line with a single stop, as it is laid out. */
  predicate SingleAt(line: string, name: string, stop: string) {
    var n := |name|;
    && Fits(line) && Plain(name) && Plain(stop) && |line| == 6 + n + |stop|
    && line[..4] == "Bus " && line[4..4 + n] == name && line[4 + n] == ':' && line[5 + n] == ' '
    && line[6 + n..] == stop
    && forall i :: 0 <= i < |line| ==> line[i] !in Separators
  }

  lemma SingleLayout(name: string, stop: string)
    requires Plain(name) && Plain(stop) && Fits(BusText(name, [stop], '>'))
    ensures BusText(name, [stop], '>') == "Bus " + name + ": " + stop
    ensures SingleAt(BusText(name, [stop], '>'), name, stop)
  {
    var line := BusText(name, [stop], '>');
    var head := "Bus " + name + ": ";
    var n := |name|;
    assert Links([stop][1..], '>') == "";
    assert line == head + stop;
    assert line[..4] == "Bus " by {
      assert head[..4] == "Bus ";
    }
    assert line[4..4 + n] == name by {
      assert head[4..4 + n] == name;
    }
    assert line[6 + n..] == stop;
    forall i | 0 <= i < |line| ensures line[i] !in Separators {
      if i < 4 {
        assert line[i] == line[..4][i];
      } else if i < 4 + n {
        assert line[i] == name[i - 4];
      } else if 6 + n <= i {
        assert line[i] == stop[i - 6 - n];
      }
    }
  }

  /** The first stop of a single-stop bus line runs to the end of the line. */
  lemma SingleFirstAt(line: string, name: string, stop: string)
    requires SingleAt(line, name, stop)
    ensures 4 + |name| + 1 < SIZE_MODULUS
    ensures FindFirstNotOf(line, ' ', Add(4 + |name|, 1)) == 6 + |name|
    ensures FindFirstOf(line, Separators, 6 + |name|) == NPOS
    ensures Substr(line, 6 + |name|, Sub(NPOS, 6 + |name|)) == Success(stop)
    ensures TrimBack(stop) == Success(stop)
  {
    var n := |name|;
    AddNoWrap(4 + n, 1);
    assert line[6 + n] == stop[0];
    FindFirstNotOfAt(line, ' ', 5 + n, 6 + n);
    FindFirstOfNone(line, Separators, 6 + n);
    SubNoWrap(NPOS, 6 + n);
    TrimPlain(stop);
  }

  /** The second "stop" of a single-stop bus line: `npos + 1` wraps to 0
      and the whole line is read as a name. */
  lemma SingleSecondAt(line: string, name: string, stop: string)
    requires SingleAt(line, name, stop)
    ensures NextName(line, NPOS) == Success((line, NPOS))
  {
    assert Add(NPOS, 1) == 0;
    assert line[0] == line[..4][0];
    FindFirstNotOfAt(line, ' ', 0, 0);
    FindFirstOfNone(line, Separators, 0);
    SubNoWrap(|line|, 0);
    assert line[|line| - 1] == stop[|stop| - 1];
  }

  /** A bus line naming a single stop is read as a route from that stop to
      a stop named after the whole line, since the second name is read
      unconditionally. */
  lemma SingleStopBusLine(name: string, stop: string)
    requires Plain(name) && Plain(stop) && Fits(BusText(name, [stop], '>'))
    ensures ParseBus(BusText(name, [stop], '>'), 0)
         == Success(BusLine(name, [stop, BusText(name, [stop], '>')]))
  {
    var line := BusText(name, [stop], '>');
    SingleLayout(name, stop);
    SingleNameAt(line, name, stop);
    SingleStopsAt(line, name, stop);
    FindFirstOfAny(line, '-');
  }

  lemma SingleNameAt(line: string, name: string, stop: string)
    requires SingleAt(line, name, stop)
    ensures ParseName(line, Add(0, 3)) == Success((name, 4 + |name|))
  {
    var n := |name|;
    AddNoWrap(0, 3);
    assert line[3] == line[..4][3];
    assert forall i :: 4 <= i < 4 + n ==> line[i] == name[i - 4];
    ParseNameSpec(line, 3, 4, 4 + n);
    TrimPlain(name);
  }

  lemma SingleStopsAt(line: string, name: string, stop: string)
    requires SingleAt(line, name, stop)
    ensures ParseStops(line, 4 + |name|) == Success([stop, line])
  {
    SingleFirstAt(line, name, stop);
    SingleSecondAt(line, name, stop);
    assert Sub(NPOS, 6 + |name|) == NPOS - (6 + |name|);
    assert [stop, line] + [] == [stop, line];
  }

  // ----------------------------------------------------- written stop lines

  /** The reference reading of a distance list: the entries in order, a
      neighbour already present keeping its first distance. */
  function KeepFirst(acc: map<string, int>, entries: seq<(string, nat)>): map<string, int>
    decreases |entries|
  {
    if |entries| == 0 then acc
    else
      var (n, d) := entries[0];
      KeepFirst(if n in acc then acc else acc[n := d], entries[1..])
  }

  /** The neighbours `KeepFirst` knows: those of `acc` and of the entries. */
  lemma {:induction false} KeepFirstKeys(acc: map<string, int>, entries: seq<(string, nat)>)
    ensures KeepFirst(acc, entries).Keys == acc.Keys + set i | 0 <= i < |entries| :: entries[i].0
    decreases |entries|
  {
    if |entries| > 0 {
      var (n, d) := entries[0];
      var acc' := if n in acc then acc else acc[n := d];
      KeepFirstKeys(acc', entries[1..]);
      var rest := set i | 0 <= i < |entries[1..]| :: entries[1..][i].0;
      var all := set i | 0 <= i < |entries| :: entries[i].0;
      assert all == {n} + rest by {
        forall x | x in all ensures x in {n} + rest {
          var i :| 0 <= i < |entries| && entries[i].0 == x;
          if i > 0 { assert entries[1..][i - 1].0 == x; }
        }
        forall x | x in rest ensures x in all {
          var i :| 0 <= i < |entries[1..]| && entries[1..][i].0 == x;
          assert entries[i + 1].0 == x;
        }
      }
    }
  }

  /** An entry whose neighbour is not yet known and does not occur earlier
      keeps its distance; an entry of `acc` is never replaced. */
  lemma {:induction false} KeepFirstWins(acc: map<string, int>, entries: seq<(string, nat)>, i: nat)
    requires i < |entries| && entries[i].0 !in acc
    requires forall j :: 0 <= j < i ==> entries[j].0 != entries[i].0
    ensures entries[i].0 in KeepFirst(acc, entries) && KeepFirst(acc, entries)[entries[i].0] == entries[i].1
    decreases |entries|
  {
    var (n, d) := entries[0];
    var acc' := if n in acc then acc else acc[n := d];
    if i == 0 {
      KeepFirstKeeps(acc', entries[1..], n);
    } else {
      assert entries[1..][i - 1] == entries[i];
      KeepFirstWins(acc', entries[1..], i - 1);
    }
  }

  lemma {:induction false} KeepFirstKeeps(acc: map<string, int>, entries: seq<(string, nat)>, n: string)
    requires n in acc
    ensures n in KeepFirst(acc, entries) && KeepFirst(acc, entries)[n] == acc[n]
    decreases |entries|
  {
    if |entries| > 0 {
      var (m, d) := entries[0];
      KeepFirstKeeps(if m in acc then acc else acc[m := d], entries[1..], n);
    }
  }

  /** A field of a stop line, a coordinate or a neighbour's name, as the
      line carries it: not empty, not starting with a blank, without ','.
      It is not trimmed. */
  predicate Field(s: string) {
    |s| > 0 && s[0] != ' ' && forall i :: 0 <= i < |s| ==> s[i] != ','
  }

  /** Entries a stop line can carry: every neighbour a field, every
      distance an `int`. */
  predicate Writable(entries: seq<(string, nat)>)
    decreases |entries|
  {
    |entries| == 0 || (Field(entries[0].0) && entries[0].1 <= Decimal.INT_MAX && Writable(entries[1..]))
  }

  /** The distance entries of a written stop line: `, Dm to name` each. */
  function DistText(entries: seq<(string, nat)>): (r: string)
    ensures |entries| > 0 ==> |r| >= 7 + |entries[0].0|
  {
    if |entries| == 0 then ""
    else ", " + Decimal.NatToString(entries[0].1) + "m to " + entries[0].0 + DistText(entries[1..])
  }

  /** Where the 'm' after the digits of an entry starting at `prev` lies. */
  function DigitsEnd(prev: int, d: nat): int {
    prev + 2 + |Decimal.NatToString(d)|
  }

  /** An entry `, Dm to name` whose ',' is at `prev`, followed by the end of
      the line or by the ',' at `end`. */
  predicate EntryAt(line: string, prev: int, d: nat, n: string, end: SizeT) {
    var q := DigitsEnd(prev, d);
    && 0 <= prev && d <= Decimal.INT_MAX && Field(n) && q + 5 + |n| <= |line|
    && line[prev + 1] == ' ' && line[prev + 2..q] == Decimal.NatToString(d)
    && line[q..q + 5] == "m to " && line[q + 5..q + 5 + |n|] == n
    && (end == NPOS ==> q + 5 + |n| == |line|)
    && (end != NPOS ==> end == q + 5 + |n| < |line| && line[end] == ',')
  }

  /** The distance of an entry. */
  lemma EntryDistanceAt(line: string, prev: SizeT, d: nat, n: string, end: SizeT)
    requires Fits(line) && EntryAt(line, prev, d, n, end)
    ensures var q := DigitsEnd(prev, d);
      && FindFirstNotOf(line, ' ', Add(prev, 1)) == prev + 2
      && FindFirstOf(line, {'m'}, prev + 2) == q
      && Substr(line, prev + 2, Sub(q, prev + 2)) == Success(Decimal.NatToString(d))
      && Decimal.Stoi(Decimal.NatToString(d)) == Success(d)
  {
    var q := DigitsEnd(prev, d);
    AddNoWrap(prev, 1);
    MToChars(line, q);
    DigitsAt(line, Add(prev, 1), prev + 2, Decimal.NatToString(d), q);
    Decimal.StoiOfIntToString(d);
  }

  /** Digits written at `b`, after a blank at `from` and before an 'm' at `q`. */
  lemma DigitsAt(line: string, from: SizeT, b: SizeT, digits: string, q: SizeT)
    requires Fits(line) && b == from + 1 && q == b + |digits| < |line|
    requires |digits| > 0 && Decimal.AllDigits(digits)
    requires line[from] == ' ' && line[b..q] == digits && line[q] == 'm'
    ensures FindFirstNotOf(line, ' ', from) == b
    ensures FindFirstOf(line, {'m'}, b) == q
    ensures Substr(line, b, Sub(q, b)) == Success(digits)
  {
    assert line[b] == digits[0];
    FindFirstNotOfAt(line, ' ', from, b);
    forall i | b <= i < q ensures line[i] !in {'m'} {
      assert line[i] == digits[i - b];
    }
    FindFirstOfAt(line, {'m'}, b, q);
    SubNoWrap(q, b);
  }

  /** The characters of `m to ` at `q`. */
  lemma MToChars(line: string, q: nat)
    requires q + 5 <= |line| && line[q..q + 5] == "m to "
    ensures line[q] == 'm' && line[q + 1] == ' ' && line[q + 2] == 't' && line[q + 3] == 'o' && line[q + 4] == ' '
  {
    var tail := line[q..q + 5];
    assert tail[0] == line[q] && tail[1] == line[q + 1] && tail[2] == line[q + 2];
    assert tail[3] == line[q + 3] && tail[4] == line[q + 4];
  }

  /** The "to" after `m ` is found two places after the 'm'. */
  lemma ToAhead(line: string, q: SizeT)
    requires Fits(line) && q + 5 <= |line|
    requires line[q] == 'm' && line[q + 1] == ' ' && line[q + 2] == 't' && line[q + 3] == 'o'
    ensures Find(line, "to", q) == q + 2
  {
    assert line[q + 2..q + 4] == "to";
    assert !OccursAt(line, "to", q) by {
      assert line[q..q + 2][0] == 'm';
    }
    assert !OccursAt(line, "to", q + 1) by {
      assert line[q + 1..q + 3][0] == ' ';
    }
    FindAt(line, "to", q, q + 2);
  }

  /** The "to" of an entry is the first one after its 'm'. */
  lemma EntryToAt(line: string, prev: SizeT, d: nat, n: string, end: SizeT)
    requires Fits(line) && EntryAt(line, prev, d, n, end)
    ensures DigitsEnd(prev, d) + 5 < |line|
    ensures Find(line, "to", DigitsEnd(prev, d)) == DigitsEnd(prev, d) + 2
  {
    var q := DigitsEnd(prev, d);
    MToChars(line, q);
    ToAhead(line, q);
  }

  /** The neighbour of an entry. */
  lemma EntryNeighbourAt(line: string, prev: SizeT, d: nat, n: string, end: SizeT)
    requires Fits(line) && EntryAt(line, prev, d, n, end)
    ensures var q := DigitsEnd(prev, d);
      && q + 2 < SIZE_MODULUS
      && FindFirstNotOf(line, ' ', Add(q + 2, 2)) == q + 5
      && FindFirstOf(line, {','}, q + 5) == end
      && Substr(line, q + 5, if end == NPOS then Sub(|line|, q + 5) else Sub(end, q + 5)) == Success(n)
  {
    var q := DigitsEnd(prev, d);
    MToChars(line, q);
    NameFieldAt(line, q, n, end);
  }

  /** The neighbour of an entry whose "m to " begins at `q`. */
  lemma NameFieldAt(line: string, q: nat, n: string, end: SizeT)
    requires Fits(line) && Field(n) && q + 5 + |n| <= |line|
    requires line[q + 4] == ' ' && line[q + 5..q + 5 + |n|] == n
    requires end == NPOS ==> q + 5 + |n| == |line|
    requires end != NPOS ==> end == q + 5 + |n| < |line| && line[end] == ','
    ensures q + 2 < SIZE_MODULUS
    ensures FindFirstNotOf(line, ' ', Add(q + 2, 2)) == q + 5
    ensures FindFirstOf(line, {','}, q + 5) == end
    ensures Substr(line, q + 5, if end == NPOS then Sub(|line|, q + 5) else Sub(end, q + 5)) == Success(n)
  {
    AddNoWrap(q + 2, 2);
    FieldAt(line, Add(q + 2, 2), q + 5, n, end);
  }

  /** A neighbour name written at `b`, after a blank and up to `end`. */
  lemma FieldAt(line: string, from: SizeT, b: SizeT, n: string, end: SizeT)
    requires Fits(line) && b == from + 1 && b + |n| <= |line| && Field(n)
    requires line[from] == ' ' && line[b..b + |n|] == n
    requires end == NPOS ==> b + |n| == |line|
    requires end != NPOS ==> end == b + |n| < |line| && line[end] == ','
    ensures FindFirstNotOf(line, ' ', from) == b
    ensures FindFirstOf(line, {','}, b) == end
    ensures Substr(line, b, if end == NPOS then Sub(|line|, b) else Sub(end, b)) == Success(n)
  {
    assert line[b] == n[0];
    FindFirstNotOfAt(line, ' ', from, b);
    assert forall i :: b <= i < b + |n| ==> line[i] == n[i - b];
    if end == NPOS {
      FindFirstOfNone(line, {','}, b);
      SubNoWrap(|line|, b);
      assert line[b..] == n;
    } else {
      FindFirstOfAt(line, {','}, b, end);
      SubNoWrap(end, b);
    }
  }

  /** `ParseStopsDistances`' step reads an entry back. */
  lemma DistanceEntryAt(line: string, prev: SizeT, d: nat, n: string, end: SizeT)
    requires Fits(line) && EntryAt(line, prev, d, n, end)
    ensures DistanceEntry(line, prev) == Success((d, n, end))
  {
    EntryDistanceAt(line, prev, d, n, end);
    EntryToAt(line, prev, d, n, end);
    EntryNeighbourAt(line, prev, d, n, end);
  }

  /** Every entry is written at the ',' before it, `ps` holding those
      positions and `npos` after the last. */
  predicate EntriesWritten(line: string, ps: seq<int>, entries: seq<(string, nat)>)
    decreases |entries|
  {
    && |ps| == |entries| + 1
    && (|entries| == 0 ==> ps[0] == NPOS)
    && (|entries| > 0 ==>
          && 0 <= ps[1] < SIZE_MODULUS && EntryAt(line, ps[0], entries[0].1, entries[0].0, ps[1])
          && EntriesWritten(line, ps[1..], entries[1..]))
  }

  /** The first entry of a written list and where the next begins. */
  lemma EntriesHead(line: string, ps: seq<int>, entries: seq<(string, nat)>)
    requires Fits(line) && |entries| > 0 && EntriesWritten(line, ps, entries)
    ensures 0 <= ps[0] < |line| && 0 <= ps[1] < SIZE_MODULUS
    ensures DistanceEntry(line, ps[0]) == Success((entries[0].1, entries[0].0, ps[1]))
    ensures |entries| > 1 ==> ps[0] < ps[1] < |line|
  {
    DistanceEntryAt(line, ps[0], entries[0].1, entries[0].0, ps[1]);
    if |entries| > 1 {
      assert EntriesWritten(line, ps[1..], entries[1..]);
      assert EntryAt(line, ps[1..][0], entries[1..][0].1, entries[1..][0].0, ps[1..][1]);
    }
  }

  /** `ParseStopsDistances` on a written list is `KeepFirst`, as long as no
      position ahead was visited. */
  lemma {:induction false} EntriesRead(line: string, ps: seq<int>, entries: seq<(string, nat)>,
                                       visited: set<SizeT>, acc: map<string, int>)
    requires Fits(line) && |entries| > 0 && EntriesWritten(line, ps, entries)
    requires visited <= Positions(|line|) && forall v :: v in visited ==> v < ps[0]
    ensures 0 <= ps[0] < |line|
    ensures ParseStopsDistances(line, ps[0], visited, acc) == Success(KeepFirst(acc, entries))
    decreases |entries|
  {
    EntriesStep(line, ps, entries, visited, acc);
    var (n, d) := entries[0];
    var acc' := if n in acc then acc else acc[n := d];
    if |entries| > 1 {
      var rest := ps[1..];
      assert rest[0] == ps[1];
      assert EntriesWritten(line, rest, entries[1..]);
      var visited': set<SizeT> := visited + {ps[0] as SizeT};
      EntriesRead(line, rest, entries[1..], visited', acc');
    }
  }

  /** One step of `ParseStopsDistances` over a written list: the first
      entry is kept unless its neighbour is already known, then the rest
      is read from the next ','. */
  lemma EntriesStep(line: string, ps: seq<int>, entries: seq<(string, nat)>,
                    visited: set<SizeT>, acc: map<string, int>)
    requires Fits(line) && |entries| > 0 && EntriesWritten(line, ps, entries)
    requires visited <= Positions(|line|) && forall v :: v in visited ==> v < ps[0]
    ensures 0 <= ps[0] < |line| && 0 <= ps[1] < SIZE_MODULUS
    ensures |entries| > 1 ==> ps[0] < ps[1] < |line|
    ensures var acc' := if entries[0].0 in acc then acc else acc[entries[0].0 := entries[0].1];
      ParseStopsDistances(line, ps[0], visited, acc)
      == if |entries| == 1 then Success(acc')
         else ParseStopsDistances(line, ps[1], visited + {ps[0] as SizeT}, acc')
  {
    EntriesHead(line, ps, entries);
    assert ps[0] !in visited;
  }

  /** The positions of the ',' of a written list starting at `start`. */
  function DistEnds(start: nat, entries: seq<(string, nat)>): (ps: seq<int>)
    requires |entries| > 0
    ensures |ps| == |entries| + 1 && ps[0] == start && ps[|entries|] == NPOS
    decreases |entries|
  {
    if |entries| == 1 then [start, NPOS]
    else [start] + DistEnds(DigitsEnd(start, entries[0].1) + 5 + |entries[0].0|, entries[1..])
  }

  /** Where the first entry of `pre + DistText(entries)` lies. */
  lemma FirstEntry(pre: string, entries: seq<(string, nat)>)
    requires |entries| > 0 && Field(entries[0].0) && entries[0].1 <= Decimal.INT_MAX
    requires Fits(pre + DistText(entries))
    ensures pre + DistText(entries)
         == (pre + ", " + Decimal.NatToString(entries[0].1) + "m to " + entries[0].0) + DistText(entries[1..])
    ensures EntryAt(pre + DistText(entries), |pre|, entries[0].1, entries[0].0,
                    if |entries| == 1 then NPOS else DigitsEnd(|pre|, entries[0].1) + 5 + |entries[0].0|)
  {
    var (n, d) := entries[0];
    var digits := Decimal.NatToString(d);
    var rest := DistText(entries[1..]);
    assert pre + DistText(entries) == (pre + ", " + digits + "m to " + n) + rest;
    if |entries| > 1 {
      assert rest[0] == ',';
    }
    EntryLaid(pre, digits, n, rest);
  }

  /** Where the pieces of `pre, <digits>m to <n><rest>` lie. */
  lemma EntryLaid(pre: string, digits: string, n: string, rest: string)
    ensures var line := (pre + ", " + digits + "m to " + n) + rest;
      var q := |pre| + 2 + |digits|;
      && |line| == q + 5 + |n| + |rest|
      && line[|pre| + 1] == ' ' && line[|pre| + 2..q] == digits
      && line[q..q + 5] == "m to " && line[q + 5..q + 5 + |n|] == n
      && (|rest| > 0 ==> line[q + 5 + |n|] == rest[0])
  {
    var line := (pre + ", " + digits + "m to " + n) + rest;
    var a := pre + ", ";
    var b := a + digits;
    var c := b + "m to ";
    var pre' := c + n;
    var q := |pre| + 2 + |digits|;
    assert line == pre' + rest;
    assert |a| == |pre| + 2 && |b| == q && |c| == q + 5;
    assert line[..|pre'|] == pre';
    assert line[|pre| + 1] == a[|pre| + 1] == ' ';
    assert line[|pre| + 2..q] == digits by {
      assert pre'[|a|..|b|] == b[|a|..] == digits;
    }
    assert line[q..q + 5] == "m to " by {
      assert pre'[|b|..|c|] == c[|b|..] == "m to ";
    }
    assert line[q + 5..|pre'|] == n by {
      assert pre'[|c|..] == n;
    }
  }

  /** A first entry in front of a written list. */
  lemma EntriesWrittenStep(line: string, ps: seq<int>, entries: seq<(string, nat)>)
    requires |entries| > 1 && |ps| == |entries| + 1 && 0 <= ps[1] < SIZE_MODULUS
    requires EntryAt(line, ps[0], entries[0].1, entries[0].0, ps[1]) && EntriesWritten(line, ps[1..], entries[1..])
    ensures EntriesWritten(line, ps, entries)
  {
  }

  /** The layout of `pre + DistText(entries)`. */
  lemma {:induction false} DistWritten(pre: string, entries: seq<(string, nat)>)
    requires |entries| > 0
    requires Writable(entries)
    requires Fits(pre + DistText(entries))
    ensures EntriesWritten(pre + DistText(entries), DistEnds(|pre|, entries), entries)
    decreases |entries|
  {
    FirstEntry(pre, entries);
    if |entries| == 1 {
      var ps := DistEnds(|pre|, entries);
      assert EntriesWritten(pre + DistText(entries), ps[1..], entries[1..]);
    } else {
      var pre' := pre + ", " + Decimal.NatToString(entries[0].1) + "m to " + entries[0].0;
      DistWritten(pre', entries[1..]);
      DistCons(pre, entries, pre' + DistText(entries[1..]), |pre'|);
    }
  }

  /** The first entry in front of the written rest. */
  lemma DistCons(pre: string, entries: seq<(string, nat)>, line: string, next: nat)
    requires |entries| > 1 && Writable(entries)
    requires Fits(pre + DistText(entries)) && line == pre + DistText(entries)
    requires next == DigitsEnd(|pre|, entries[0].1) + 5 + |entries[0].0|
    requires EntriesWritten(line, DistEnds(next, entries[1..]), entries[1..])
    ensures EntriesWritten(line, DistEnds(|pre|, entries), entries)
  {
    FirstEntryAt(pre, entries, line, next);
    var ps := DistEnds(|pre|, entries);
    DistEndsCons(|pre|, entries, next);
    assert ps[1..] == DistEnds(next, entries[1..]);
    EntriesWrittenStep(line, ps, entries);
  }

  /** The first entry, when more follow. */
  lemma FirstEntryAt(pre: string, entries: seq<(string, nat)>, line: string, next: nat)
    requires |entries| > 1 && Field(entries[0].0) && entries[0].1 <= Decimal.INT_MAX
    requires Fits(pre + DistText(entries)) && line == pre + DistText(entries)
    requires next == DigitsEnd(|pre|, entries[0].1) + 5 + |entries[0].0|
    ensures next < SIZE_MODULUS && EntryAt(line, |pre|, entries[0].1, entries[0].0, next)
  {
    FirstEntry(pre, entries);
  }

  lemma DistEndsCons(start: nat, entries: seq<(string, nat)>, next: nat)
    requires |entries| > 1 && next == DigitsEnd(start, entries[0].1) + 5 + |entries[0].0|
    ensures DistEnds(start, entries) == [start] + DistEnds(next, entries[1..])
  {
  }

  /** A stop line as it is written: `Stop name: lat, lng` and the
      distance entries. */
  function StopText(name: string, lat: string, lng: string, entries: seq<(string, nat)>): string {
    "Stop " + name + ": " + lat + ", " + lng + DistText(entries)
  }

  /** Where the latitude of a stop line ends. */
  function LatitudeEnd(name: string, lat: string): nat {
    7 + |name| + |lat|
  }

  /** The fields of a stop line before its distances. */
  predicate StopHeaderAt(line: string, name: string, lat: string, lng: string) {
    && Fits(line) && NameLaid(line, name) && LatitudeLaid(line, name, lat)
    && LongitudeLaid(line, LatitudeEnd(name, lat), lng)
  }

  /** `Stop <name>: ` opens the line. */
  predicate NameLaid(line: string, name: string) {
    var n := |name|;
    && Plain(name) && 6 + n < |line|
    && line[..5] == "Stop " && line[5..5 + n] == name && line[5 + n] == ':' && line[6 + n] == ' '
  }

  /** The latitude follows the name's `: ` and ends at a ','. */
  predicate LatitudeLaid(line: string, name: string, lat: string) {
    var l := LatitudeEnd(name, lat);
    Field(lat) && l < |line| && line[7 + |name|..l] == lat && line[l] == ','
  }

  /** The longitude follows the ', ' whose ',' is at `l`. */
  predicate LongitudeLaid(line: string, l: nat, lng: string) {
    Field(lng) && l + 2 + |lng| <= |line| && line[l + 1] == ' ' && line[l + 2..l + 2 + |lng|] == lng
  }

  /** The name of a stop line, read from its header. */
  lemma StopNameAt(line: string, name: string)
    requires Fits(line) && NameLaid(line, name)
    ensures ParseName(line, Add(0, 4)) == Success((name, 5 + |name|))
  {
    AddNoWrap(0, 4);
    assert line[4] == line[..5][4] == ' ';
    assert forall i :: 5 <= i < 5 + |name| ==> line[i] == name[i - 5];
    ParseNameSpec(line, 4, 5, 5 + |name|);
    TrimPlain(name);
  }

  /** The latitude of a stop line: it begins after `: ` and ends at the
      first ',' of the line. */
  lemma StopLatitudeAt(line: string, name: string, lat: string)
    requires Fits(line) && NameLaid(line, name) && LatitudeLaid(line, name, lat)
    ensures var n := |name|;
      && 5 + n + 1 < SIZE_MODULUS
      && FindFirstNotOf(line, ' ', Add(5 + n, 1)) == 7 + n
      && FindFirstOf(line, {','}, 0) == LatitudeEnd(name, lat)
      && CoordinateText(line, 7 + n, LatitudeEnd(name, lat)) == Success(line[7 + n..])
  {
    var n := |name|;
    var l := LatitudeEnd(name, lat);
    AddNoWrap(5 + n, 1);
    assert line[7 + n] == lat[0];
    FindFirstNotOfAt(line, ' ', 6 + n, 7 + n);
    forall i | 0 <= i < l
      ensures line[i] !in {','}
    {
      if i < 5 {
        assert line[i] == line[..5][i];
      } else if i < 5 + n {
        assert line[i] == name[i - 5];
      } else if 7 + n <= i {
        assert line[i] == lat[i - 7 - n];
      }
    }
    FindFirstOfAt(line, {','}, 0, l);
  }

  /** The longitude of a stop line: it begins after the `, ` at `l` and
      ends at `e`, the first ',' of the distances (`npos` without any). */
  lemma StopLongitudeAt(line: string, l: SizeT, lng: string, e: SizeT)
    requires Fits(line) && LongitudeLaid(line, l, lng)
    requires if e == NPOS then l + 2 + |lng| == |line| else e == l + 2 + |lng| < |line| && line[e] == ','
    ensures l + 1 < SIZE_MODULUS
    ensures FindFirstNotOf(line, ' ', Add(l, 1)) == l + 2
    ensures FindFirstOf(line, {','}, l + 2) == e
    ensures CoordinateText(line, l + 2, e) == Success(line[l + 2..])
  {
    var b := l + 2;
    AddNoWrap(l, 1);
    assert line[b] == lng[0];
    FindFirstNotOfAt(line, ' ', l + 1, b);
    assert forall i :: b <= i < b + |lng| ==> line[i] == lng[i - b];
    if e == NPOS {
      FindFirstOfNone(line, {','}, b);
    } else {
      FindFirstOfAt(line, {','}, b, e);
    }
  }

  /** Where `ParseStop` finds the fields of a stop line: the name, the
      two coordinates and the ',' that begins the distances. */
  lemma StopFieldsAt(line: string, name: string, lat: string, lng: string, e: SizeT)
    requires StopHeaderAt(line, name, lat, lng)
    requires var b := LatitudeEnd(name, lat) + 2;
      if e == NPOS then b + |lng| == |line|
      else e == b + |lng| < |line| && line[e] == ','
    ensures ParseName(line, Add(0, 4)) == Success((name, 5 + |name|))
    ensures CoordinateTexts(line, 5 + |name|) == Success((line[7 + |name|..], line[LatitudeEnd(name, lat) + 2..], e))
  {
    StopNameAt(line, name);
    StopCoordinatesRead(line, name, lat, lng, e);
  }

  /** Where `ParseStop` finds the two coordinates of a stop line. */
  lemma StopCoordinatesRead(line: string, name: string, lat: string, lng: string, e: SizeT)
    requires StopHeaderAt(line, name, lat, lng)
    requires var b := LatitudeEnd(name, lat) + 2;
      if e == NPOS then b + |lng| == |line|
      else e == b + |lng| < |line| && line[e] == ','
    ensures CoordinateTexts(line, 5 + |name|) == Success((line[7 + |name|..], line[LatitudeEnd(name, lat) + 2..], e))
  {
    StopLatitudeAt(line, name, lat);
    StopCoordinatesAt(line, 5 + |name|, 7 + |name|, LatitudeEnd(name, lat), lng, e);
  }

  /** Where `ParseStop` finds the two coordinates of a stop line, once the
      latitude is known to run from `latBegin` to the ',' at `l`. */
  lemma StopCoordinatesAt(line: string, nameEnd: SizeT, latBegin: SizeT, l: SizeT, lng: string, e: SizeT)
    requires Fits(line) && latBegin < |line| && LongitudeLaid(line, l, lng)
    requires if e == NPOS then l + 2 + |lng| == |line| else e == l + 2 + |lng| < |line| && line[e] == ','
    requires nameEnd + 1 < SIZE_MODULUS
    requires FindFirstNotOf(line, ' ', Add(nameEnd, 1)) == latBegin
    requires FindFirstOf(line, {','}, 0) == l
    requires CoordinateText(line, latBegin, l) == Success(line[latBegin..])
    ensures CoordinateTexts(line, nameEnd) == Success((line[latBegin..], line[l + 2..], e))
  {
    StopLongitudeAt(line, l, lng, e);
    CoordinateTextsOf(line, nameEnd, latBegin, l, l + 2, e);
  }

  /** `CoordinateTexts` once its four searches and both fields are known. */
  lemma CoordinateTextsOf(line: string, nameEnd: SizeT, latBegin: SizeT, latEnd: SizeT, lngBegin: SizeT, e: SizeT)
    requires Fits(line) && latBegin < |line| && lngBegin < |line|
    requires FindFirstNotOf(line, ' ', Add(nameEnd, 1)) == latBegin
    requires FindFirstOf(line, {','}, 0) == latEnd
    requires FindFirstNotOf(line, ' ', Add(latEnd, 1)) == lngBegin
    requires FindFirstOf(line, {','}, lngBegin) == e
    requires CoordinateText(line, latBegin, latEnd) == Success(line[latBegin..])
    requires CoordinateText(line, lngBegin, e) == Success(line[lngBegin..])
    ensures CoordinateTexts(line, nameEnd) == Success((line[latBegin..], line[lngBegin..], e))
  {
  }

  /** `ParseStop` reads back the header of a stop line and, given how its
      coordinates and distances read, the whole stop. */
  lemma StopParsedAt(line: string, name: string, lat: string, lng: string, e: SizeT,
                     stod: string -> Result<real>, latitude: real, longitude: real, distances: map<string, int>)
    requires StopHeaderAt(line, name, lat, lng)
    requires var b := LatitudeEnd(name, lat) + 2;
      if e == NPOS then b + |lng| == |line|
      else e == b + |lng| < |line| && line[e] == ','
    requires stod(line[7 + |name|..]) == Success(latitude)
    requires stod(line[LatitudeEnd(name, lat) + 2..]) == Success(longitude)
    requires e == NPOS ==> distances == map[]
    requires e != NPOS ==> ParseStopsDistances(line, e, {}, map[]) == Success(distances)
    ensures ParseStop(line, 0, stod) == Success(StopLine(name, Coordinates(latitude, longitude), distances))
  {
    StopFieldsAt(line, name, lat, lng, e);
  }

  /** A stop line whose header and distances read back as written. */
  lemma StopLineAt(r: Reader, line: string, name: string, lat: string, lng: string, e: SizeT,
                   stod: string -> Result<real>, latitude: real, longitude: real, distances: map<string, int>)
    requires StopHeaderAt(line, name, lat, lng)
    requires var b := LatitudeEnd(name, lat) + 2;
      if e == NPOS then b + |lng| == |line|
      else e == b + |lng| < |line| && line[e] == ','
    requires stod(line[7 + |name|..]) == Success(latitude)
    requires stod(line[LatitudeEnd(name, lat) + 2..]) == Success(longitude)
    requires e == NPOS ==> distances == map[]
    requires e != NPOS ==> ParseStopsDistances(line, e, {}, map[]) == Success(distances)
    ensures ParseLine(r, line, stod) == Success(r.(stops := r.stops + [StopLine(name, Coordinates(latitude, longitude), distances)]))
  {
    StopParsedAt(line, name, lat, lng, e, stod, latitude, longitude, distances);
    assert line[0] == line[..5][0] == 'S';
    FindFirstNotOfAt(line, ' ', 0, 0);
  }

  /** The distances of a written stop line, read from the ',' after its
      longitude. */
  lemma StopDistancesAt(line: string, p: SizeT, name: string, lat: string, lng: string, entries: seq<(string, nat)>)
    requires |entries| > 0 && Plain(name) && Field(lat) && Field(lng) && Writable(entries)
    requires line == StopText(name, lat, lng, entries) && Fits(line)
    requires p == LatitudeEnd(name, lat) + 2 + |lng|
    ensures p < |line| && line[p] == ','
    ensures ParseStopsDistances(line, p, {}, map[]) == Success(KeepFirst(map[], entries))
  {
    var pre := "Stop " + name + ": " + lat + ", " + lng;
    assert line == pre + DistText(entries);
    assert |pre| == p;
    DistWritten(pre, entries);
    EntriesRead(line, DistEnds(|pre|, entries), entries, {}, map[]);
    assert line[|pre|] == DistText(entries)[0];
  }

  /** Where the pieces of a written stop line lie. */
  lemma StopLayout(name: string, lat: string, lng: string, entries: seq<(string, nat)>)
    requires Plain(name) && Field(lat) && Field(lng)
    requires Fits(StopText(name, lat, lng, entries))
    ensures StopText(name, lat, lng, entries) == ("Stop " + name + ": " + lat + ", " + lng) + DistText(entries)
    ensures StopHeaderAt(StopText(name, lat, lng, entries), name, lat, lng)
    ensures StopText(name, lat, lng, entries)[7 + |name|..] == lat + ", " + lng + DistText(entries)
    ensures StopText(name, lat, lng, entries)[LatitudeEnd(name, lat) + 2..] == lng + DistText(entries)
  {
    var line := StopText(name, lat, lng, entries);
    var n := |name|;
    var l := LatitudeEnd(name, lat);
    var a := "Stop " + name + ": ";
    var b := a + lat;
    var c := b + ", ";
    var pre := c + lng;
    var dist := DistText(entries);
    assert line == pre + dist;
    assert |a| == 7 + n && |b| == l && |c| == l + 2;
    assert line[..|pre|] == pre;
    assert line[..5] == "Stop " by {
      assert pre[..5] == a[..5];
    }
    assert line[5..5 + n] == name by {
      assert pre[5..5 + n] == a[5..5 + n];
    }
    assert line[7 + n..l] == lat by {
      assert pre[|a|..|b|] == b[|a|..];
    }
    assert line[l + 2..l + 2 + |lng|] == lng by {
      assert pre[|c|..] == lng;
    }
    assert line[5 + n] == ':' && line[6 + n] == ' ' && line[l] == ',' && line[l + 1] == ' ';
    assert line[7 + n..] == lat + ", " + lng + dist;
    assert line[l + 2..] == lng + dist;
  }

  /** A written stop line is read back as its name, its coordinates as
      `stod` reads them and its distances, the first entry for a neighbour
      winning. */
  lemma StopLineRoundTrip(r: Reader, name: string, lat: string, lng: string, entries: seq<(string, nat)>,
                          stod: string -> Result<real>, latitude: real, longitude: real)
    requires Plain(name) && Field(lat) && Field(lng)
    requires Writable(entries)
    requires Fits(StopText(name, lat, lng, entries))
    requires stod(lat + ", " + lng + DistText(entries)) == Success(latitude)
    requires stod(lng + DistText(entries)) == Success(longitude)
    ensures ParseLine(r, StopText(name, lat, lng, entries), stod)
         == Success(r.(stops := r.stops + [StopLine(name, Coordinates(latitude, longitude), KeepFirst(map[], entries))]))
  {
    var line := StopText(name, lat, lng, entries);
    StopLayout(name, lat, lng, entries);
    if |entries| == 0 {
      StopLineAt(r, line, name, lat, lng, NPOS, stod, latitude, longitude, map[]);
    } else {
      var p := LatitudeEnd(name, lat) + 2 + |lng|;
      StopDistancesAt(line, p, name, lat, lng, entries);
      StopLineAt(r, line, name, lat, lng, p, stod, latitude, longitude, KeepFirst(map[], entries));
    }
  }

  // ------------------------------------------------------ applying commands

  /** The stop a stop line registers. Its distances stay behind: the
      catalogue's `ApplyDistances`, which would read them, is not part of
      this model. */
  function StopOf(s: StopLine): Stop {
    Stop(s.name, s.coordinates)
  }

  function StopsOf(lines: seq<StopLine>): (r: seq<Stop>)
    ensures |r| == |lines| && forall i :: 0 <= i < |lines| ==> r[i] == StopOf(lines[i])
  {
    seq(|lines|, i requires 0 <= i < |lines| => StopOf(lines[i]))
  }

  /** The buses of the bus lines; a bus built here keeps the default
      `is_round = false`. */
  function BuffersOf(buses: seq<BusLine>): (r: seq<JsonReader.BusBuffer>)
    ensures |r| == |buses|
    ensures forall i :: 0 <= i < |buses| ==> r[i] == JsonReader.BusBuffer(buses[i].busName, buses[i].stopsNames, false)
  {
    seq(|buses|, i requires 0 <= i < |buses| => JsonReader.BusBuffer(buses[i].busName, buses[i].stopsNames, false))
  }

  /** `ApplyCommands`: every buffered stop, then every buffered bus with its
      stops looked up by name. */
  function ApplyCommands(r: Reader, c: Catalogue.Catalogue): (res: Result<Catalogue.Catalogue>)
    ensures res.Failure? ==> res.error == InvalidArgument || res.error == OutOfRange
    ensures res.Success? ==> res.value.stops == c.stops + StopsOf(r.stops) && res.value.distances == c.distances
  {
    JsonReader.AddBuses(JsonReader.AddStops(c, StopsOf(r.stops)), BuffersOf(r.buses))
  }

  /** A name the catalogue knows after the stop loop: known before, or the
      name of a stop line. */
  predicate Known(c: Catalogue.Catalogue, r: Reader, n: string) {
    n in c.stopsTable || exists j :: 0 <= j < |r.stops| && r.stops[j].name == n
  }

  /** The stop loop keeps the catalogue consistent and registers exactly the
      names known before and the names of the added stops. */
  lemma {:induction false} StopsRegistered(c: Catalogue.Catalogue, stops: seq<Stop>)
    requires Catalogue.Valid(c)
    ensures Catalogue.Valid(JsonReader.AddStops(c, stops))
    ensures forall n :: n in JsonReader.AddStops(c, stops).stopsTable <==> n in c.stopsTable || Catalogue.HasName(stops, n)
    decreases |stops|
  {
    if |stops| > 0 {
      var c' := Catalogue.AddStop(c, stops[0]);
      AddStopNames(c, stops[0]);
      Catalogue.AddStopValid(c, stops[0]);
      StopsRegistered(c', stops[1..]);
      HasNameCons(stops);
    }
  }

  lemma AddStopNames(c: Catalogue.Catalogue, stop: Stop)
    ensures forall n :: n in Catalogue.AddStop(c, stop).stopsTable <==> n in c.stopsTable || n == stop.name
  {
  }

  lemma HasNameCons(stops: seq<Stop>)
    requires |stops| > 0
    ensures forall n :: Catalogue.HasName(stops, n) <==> n == stops[0].name || Catalogue.HasName(stops[1..], n)
  {
    forall n | Catalogue.HasName(stops[1..], n) ensures Catalogue.HasName(stops, n) {
      var j :| 0 <= j < |stops[1..]| && stops[1..][j].name == n;
      assert stops[j + 1].name == n;
    }
    forall n | Catalogue.HasName(stops, n) && n != stops[0].name ensures Catalogue.HasName(stops[1..], n) {
      var j :| 0 <= j < |stops| && stops[j].name == n;
      assert stops[1..][j - 1].name == n;
    }
  }

  /** After the stop loop the catalogue knows exactly the `Known` names. */
  lemma KnownAfterStops(r: Reader, c: Catalogue.Catalogue)
    requires Catalogue.Valid(c)
    ensures Catalogue.Valid(JsonReader.AddStops(c, StopsOf(r.stops)))
    ensures forall n :: n in JsonReader.AddStops(c, StopsOf(r.stops)).stopsTable <==> Known(c, r, n)
  {
    var stops := StopsOf(r.stops);
    StopsRegistered(c, stops);
    forall n ensures Catalogue.HasName(stops, n) <==> exists j :: 0 <= j < |r.stops| && r.stops[j].name == n {
      if Catalogue.HasName(stops, n) {
        var j :| 0 <= j < |stops| && stops[j].name == n;
        assert r.stops[j].name == n;
      }
      if exists j :: 0 <= j < |r.stops| && r.stops[j].name == n {
        var j :| 0 <= j < |r.stops| && r.stops[j].name == n;
        assert stops[j].name == n;
      }
    }
  }

  /** Applying the commands succeeds exactly when every stop a bus line
      lists is known, wherever among the lines its stop line stands; the
      catalogue then holds the stop lines' stops after its own, registers
      every bus line's name, keeps its own buses, holds the first bus under
      each new name with its stops, and lists every bus among the buses of
      each of its stops. */
  lemma ApplyCommandsSpec(r: Reader, c: Catalogue.Catalogue)
    requires Catalogue.Valid(c)
    ensures ApplyCommands(r, c).Success? <==>
      forall i, k :: 0 <= i < |r.buses| && 0 <= k < |r.buses[i].stopsNames| ==> Known(c, r, r.buses[i].stopsNames[k])
    ensures ApplyCommands(r, c).Success? ==>
      var res := ApplyCommands(r, c).value;
      && Catalogue.Valid(res) && res.stops == c.stops + StopsOf(r.stops)
      && (forall n :: n in res.busesTable <==> n in c.busesTable || JsonReader.BufferedBus(BuffersOf(r.buses), n))
      && (forall n :: n in c.busesTable ==> res.busesTable[n] == c.busesTable[n])
      && (forall i :: 0 <= i < |r.buses| && JsonReader.FirstOfName(c, BuffersOf(r.buses), i) ==>
            JsonReader.BusLoaded(res, BuffersOf(r.buses)[i]))
      && forall i, k :: 0 <= i < |r.buses| && 0 <= k < |r.buses[i].stopsNames| ==>
           r.buses[i].busName in Catalogue.GetStopInfo(res, r.buses[i].stopsNames[k]).buses
  {
    var stops := StopsOf(r.stops);
    var buffers := BuffersOf(r.buses);
    var c1 := JsonReader.AddStops(c, stops);
    KnownAfterStops(r, c);
    JsonReader.AddBusesSpec(c1, buffers);
    assert forall i :: 0 <= i < |r.buses| ==> (JsonReader.FirstOfName(c, buffers, i) <==> JsonReader.FirstOfName(c1, buffers, i));
    assert JsonReader.BusStopsKnown(c1, buffers) <==>
      forall i, k :: 0 <= i < |r.buses| && 0 <= k < |r.buses[i].stopsNames| ==> Known(c, r, r.buses[i].stopsNames[k]);
  }
}
