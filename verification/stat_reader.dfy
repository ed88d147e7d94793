/** The line-oriented query front end of stat_reader.cpp: a query line is
    `Bus X` or `Stop X`, and the answer is one output line. The text written
    to the stream, `std::endl` included, is the `string` a query returns. */
module StatReader {
  import opened Wrappers
  import opened Domain
  import opened CString
  import Decimal
  import Catalogue
  import Ordered

  /** A name as a query carries it: not empty, no blank at either end. */
  predicate Trimmed(s: string) {
    |s| > 0 && s[0] != ' ' && s[|s| - 1] != ' '
  }

  function Spaces(k: nat): (r: string)
    ensures |r| == k && forall i :: 0 <= i < k ==> r[i] == ' '
  {
    if k == 0 then "" else Spaces(k - 1) + " "
  }

  // ---------------------------------------------------------------- names

  /** The queried name: from the first non-space at or after `from` up to
      the last non-space of the line. A line with nothing after `from` makes
      `substr` throw `out_of_range`. */
  function QueryName(line: string, from: SizeT): (r: Result<string>)
    requires Fits(line)
    ensures r.Failure? <==> FindFirstNotOf(line, ' ', from) == NPOS
    ensures r.Failure? ==> r.error == OutOfRange
    ensures r.Success? ==>
      var begin := FindFirstNotOf(line, ' ', from);
      && r.value == TrimRight(line[begin..])
      && Trimmed(r.value)
  {
    var begin := FindFirstNotOf(line, ' ', from);
    var end := Add(FindLastNotOf(line, ' '), 1);
    if begin != NPOS then
      QueryNameRange(line, begin);
      Substr(line, begin, Sub(end, begin))
    else
      Substr(line, begin, Sub(end, begin))
  }

  /** The last non-space of the line closes the name that starts at `begin`. */
  lemma QueryNameRange(line: string, begin: nat)
    requires Fits(line) && begin < |line| && line[begin] != ' '
    ensures var end := FindLastNotOf(line, ' ') + 1;
      && begin < end <= |line|
      && Add(FindLastNotOf(line, ' '), 1) == end
      && line[begin..end] == TrimRight(line[begin..])
      && Trimmed(line[begin..end])
  {
    var tail := line[begin..];
    TrimmedTail(tail);
    NamePlacement(line, begin, tail, TrimRight(tail));
  }

  /** A trimmed prefix of the text from `begin` ends at the line's last non-blank. */
  lemma NamePlacement(line: string, begin: nat, tail: string, t: string)
    requires Fits(line) && begin < |line| && tail == line[begin..]
    requires Trimmed(t) && |t| <= |tail| && t == tail[..|t|]
    requires forall i :: |t| <= i < |tail| ==> tail[i] == ' '
    ensures FindLastNotOf(line, ' ') == begin + |t| - 1
    ensures line[begin..begin + |t|] == t
  {
    forall i | begin + |t| <= i < |line| ensures line[i] == ' ' {
      assert line[i] == tail[i - begin];
    }
    assert line[begin + |t| - 1] == t[|t| - 1];
    FindLastNotOfAt(line, ' ', begin + |t| - 1);
  }

  /** Trimming a text that starts with a non-blank leaves a trimmed name. */
  lemma TrimmedTail(tail: string)
    requires |tail| > 0 && tail[0] != ' '
    ensures var t := TrimRight(tail);
      && Trimmed(t) && |t| <= |tail| && t == tail[..|t|]
      && forall i :: |t| <= i < |tail| ==> tail[i] == ' '
  {
    TrimRightShape(tail);
    assert |TrimRight(tail)| > 0 by {
      assert tail[0] != ' ';
    }
  }

  /** A name after blanks and before trailing blanks is read back as is. */
  lemma {:induction false} QueryNameOf(line: string, from: SizeT, b: nat, name: string, j: nat)
    requires Fits(line) && from <= b <= |line| && Trimmed(name)
    requires forall i :: from <= i < b ==> line[i] == ' '
    requires line[b..] == name + Spaces(j)
    ensures QueryName(line, from) == Success(name)
  {
    assert line[b] == name[0];
    FindFirstNotOfAt(line, ' ', from, b);
    TrimSpaces(name, j);
  }

  lemma {:induction false} TrimSpaces(name: string, j: nat)
    requires Trimmed(name)
    ensures TrimRight(name + Spaces(j)) == name
    decreases j
  {
    if j == 0 {
      assert name + Spaces(0) == name;
    } else {
      assert (name + Spaces(j))[..|name| + j - 1] == name + Spaces(j - 1);
      TrimSpaces(name, j - 1);
    }
  }

  // ---------------------------------------------------------------- output

  /** The bus list of a stop: each name followed by one blank. */
  function Joined(buses: seq<string>): (r: string)
    ensures |buses| > 0 ==> |r| > 0 && r[|r| - 1] == ' '
  {
    if |buses| == 0 then "" else buses[0] + " " + Joined(buses[1..])
  }

  /** Reference reading of a blank-terminated list: the words before each
      blank. */
  function Words(s: string): seq<string>
    decreases |s|
  {
    if |s| == 0 then []
    else
      var k := BlankAt(s);
      if k == |s| then [s] else [s[..k]] + Words(s[k + 1..])
  }

  /** Bus names without blanks are read back from the printed list. */
  lemma {:induction false} WordsOfJoined(buses: seq<string>)
    requires forall i :: 0 <= i < |buses| ==> |buses[i]| > 0 && ' ' !in buses[i]
    ensures Words(Joined(buses)) == buses
    decreases |buses|
  {
    if |buses| > 0 {
      var s := Joined(buses);
      var b := buses[0];
      assert s == b + " " + Joined(buses[1..]);
      assert s[|b|] == ' ';
      assert forall i :: 0 <= i < |b| ==> s[i] == b[i];
      var k := BlankAt(s);
      assert k == |b|;
      assert s[..k] == b;
      assert s[k + 1..] == Joined(buses[1..]);
      WordsOfJoined(buses[1..]);
      assert [b] + buses[1..] == buses;
    }
  }

  function BusReport(name: string, d: BusResponse): string {
    "Bus " + name + ": " + Decimal.NatToString(d.stopsCount) + " stops on route, "
      + Decimal.NatToString(d.uniqueStopsCount) + " unique stops, "
      + Decimal.IntToString(d.routeLength) + " route length\n"
  }

  function BusNotFound(name: string): string {
    "Bus " + name + ": not found\n"
  }

  /** The answer to a stop query, one of three shapes. */
  function StopReport(name: string, resp: StopResponse): (r: string)
    ensures |r| >= 5 && r[..5] == "Stop " && r[|r| - 1] == '\n'
  {
    var head := "Stop " + name + ": ";
    var r := if !resp.stopExist then head + "not found\n"
      else if |resp.buses| == 0 then head + "no buses\n"
      else head + "buses " + Joined(resp.buses) + "\n";
    assert r[..5] == head[..5];
    r
  }

  // ---------------------------------------------------------------- queries

  /** The answer for a bus name: `invalid_argument` from `GetBusInfo` is
      caught and reported; any other exception passes through. */
  function BusAnswer(c: Catalogue.Catalogue, name: string): (r: Result<string>)
    ensures r.Success? ==> |r.value| >= 4 && r.value[..4] == "Bus "
  {
    match Catalogue.GetBusInfo(c, name)
    case Failure(e) =>
      if e == InvalidArgument then
        assert BusNotFound(name)[..4] == "Bus ";
        Success(BusNotFound(name))
      else Failure(e)
    case Success(d) =>
      assert BusReport(name, d)[..4] == "Bus ";
      Success(BusReport(name, d))
  }

  function BusStat(c: Catalogue.Catalogue, line: string, from: SizeT): (r: Result<string>)
    requires Fits(line)
    ensures r.Success? ==> |r.value| >= 4 && r.value[..4] == "Bus "
  {
    var name :- QueryName(line, from);
    BusAnswer(c, name)
  }

  function StopStat(c: Catalogue.Catalogue, line: string, from: SizeT): (r: Result<string>)
    requires Fits(line)
    ensures r.Success? ==> |r.value| >= 5 && r.value[..5] == "Stop "
  {
    var name :- QueryName(line, from);
    Success(StopReport(name, Catalogue.GetStopInfo(c, name)))
  }

  /** `ParseAndPrintStat` as written: `line.at(first non-space)` throws
      `out_of_range` on a blank line; a 'B' there makes a bus query, anything
      else a stop query; the name is searched from index 3 (4 for a stop) of
      the line, wherever the command starts. */
  function ParseAndPrintStat(c: Catalogue.Catalogue, line: string): (r: Result<string>)
    requires Fits(line)
    ensures (forall i :: 0 <= i < |line| ==> line[i] == ' ') ==> r == Failure(OutOfRange)
    ensures r.Success? ==> var first := FindFirstNotOf(line, ' ', 0);
      && first < |line|
      && (line[first] == 'B' ==> |r.value| >= 4 && r.value[..4] == "Bus ")
      && (line[first] != 'B' ==> |r.value| >= 5 && r.value[..5] == "Stop ")
  {
    var first := FindFirstNotOf(line, ' ', 0);
    if first >= |line| then Failure(OutOfRange)
    else if line[first] == 'B' then BusStat(c, line, 3)
    else StopStat(c, line, 4)
  }

  /** The query with the name searched after the command, wherever it
      starts, as the input reader does. */
  function ParseAndPrintStatFixed(c: Catalogue.Catalogue, line: string): (r: Result<string>)
    requires Fits(line)
    ensures (forall i :: 0 <= i < |line| ==> line[i] == ' ') ==> r == Failure(OutOfRange)
    ensures r.Success? ==> var first := FindFirstNotOf(line, ' ', 0);
      && first < |line|
      && (line[first] == 'B' ==> |r.value| >= 4 && r.value[..4] == "Bus ")
      && (line[first] != 'B' ==> |r.value| >= 5 && r.value[..5] == "Stop ")
  {
    var first := FindFirstNotOf(line, ' ', 0);
    if first >= |line| then Failure(OutOfRange)
    else if line[first] == 'B' then BusStat(c, line, Add(first, 3))
    else StopStat(c, line, Add(first, 4))
  }

  // ---------------------------------------------------------------- meaning

  /** A bus query reports "not found" exactly for an unknown bus, and for a
      known one its stop count, unique stop count and road length; a missing
      distance or a 32-bit overflow of the length is not caught. */
  lemma BusAnswerSpec(c: Catalogue.Catalogue, name: string)
    ensures name !in c.busesTable ==> BusAnswer(c, name) == Success("Bus " + name + ": not found\n")
    ensures name in c.busesTable ==>
      var stops := c.busesTable[name].stops;
      && (BusAnswer(c, name).Success? <==> Catalogue.RoadLength(c, stops).Success? && Catalogue.PartialSumsFit(c, stops))
      && (BusAnswer(c, name).Failure? ==>
            Catalogue.RoadLength32(c, stops).Failure? && BusAnswer(c, name).error == Catalogue.RoadLength32(c, stops).error)
    ensures name in c.busesTable && BusAnswer(c, name).Success? ==>
      var stops := c.busesTable[name].stops;
      BusAnswer(c, name) == Success("Bus " + name + ": " + Decimal.NatToString(|stops|) + " stops on route, "
        + Decimal.NatToString(|Catalogue.UniqueStops(stops)|) + " unique stops, "
        + Decimal.IntToString(Catalogue.RoadLength(c, stops).value) + " route length\n")
  {
  }

  /** A stop query reports "not found" exactly for a stop never added, "no
      buses" for a stop no bus lists, and otherwise its buses in ascending
      order. */
  lemma StopReportSpec(c: Catalogue.Catalogue, name: string)
    requires Catalogue.Valid(c)
    ensures !Catalogue.StopAdded(c, name) ==> StopReport(name, Catalogue.GetStopInfo(c, name)) == "Stop " + name + ": not found\n"
    ensures Catalogue.StopAdded(c, name) && |c.stopsToBuses[name]| == 0 ==>
      StopReport(name, Catalogue.GetStopInfo(c, name)) == "Stop " + name + ": no buses\n"
    ensures Catalogue.StopAdded(c, name) && |c.stopsToBuses[name]| > 0 ==>
      StopReport(name, Catalogue.GetStopInfo(c, name)) == "Stop " + name + ": buses " + Joined(c.stopsToBuses[name]) + "\n"
    ensures Catalogue.StopAdded(c, name) ==> Ordered.StrictlySorted(c.stopsToBuses[name])
  {
    Catalogue.GetStopInfoSpec(c, name);
  }

  /** The three stop answers are told apart by what follows the name. */
  lemma StopReportsDiffer(name: string, buses: seq<string>)
    requires |buses| > 0
    ensures StopReport(name, StopResponse(false, [])) != StopReport(name, StopResponse(true, []))
    ensures StopReport(name, StopResponse(true, [])) != StopReport(name, StopResponse(true, buses))
    ensures StopReport(name, StopResponse(false, [])) != StopReport(name, StopResponse(true, buses))
  {
    var k := 7 + |name|;
    var a := StopReport(name, StopResponse(false, []));
    var b := StopReport(name, StopResponse(true, []));
    var d := StopReport(name, StopResponse(true, buses));
    assert a[k] == 'n' && a[k + 1] == 'o' && a[k + 2] == 't';
    assert b[k] == 'n' && b[k + 1] == 'o' && b[k + 2] == ' ';
    assert d[k] == 'b';
  }

  // ------------------------------------------------------------ round trips

  /** The query line for a bus, after `k` blanks and before `j`. */
  function BusQuery(k: nat, name: string, j: nat): string {
    Spaces(k) + "Bus " + name + Spaces(j)
  }

  function StopQuery(k: nat, name: string, j: nat): string {
    Spaces(k) + "Stop " + name + Spaces(j)
  }

  /** Where the pieces of a query line lie. */
  lemma QueryLayout(k: nat, word: string, name: string, j: nat)
    requires |word| > 0 && word[0] != ' '
    ensures var line := Spaces(k) + word + name + Spaces(j);
      && |line| == k + |word| + |name| + j
      && (forall i :: 0 <= i < k ==> line[i] == ' ')
      && line[k] == word[0]
      && line[k..k + |word|] == word
      && line[k + |word|..] == name + Spaces(j)
  {
    var line := Spaces(k) + word + name + Spaces(j);
    var rest := word + (name + Spaces(j));
    assert line == Spaces(k) + rest;
    assert forall i :: 0 <= i < k ==> line[i] == Spaces(k)[i];
    assert line[k..] == rest;
    assert line[k] == rest[0];
    assert line[k..k + |word|] == rest[..|word|] == word;
    assert line[k + |word|..] == rest[|word|..] == name + Spaces(j);
  }

  /** The fixed query reads back a bus name after any number of blanks. */
  lemma BusQueryRoundTrip(c: Catalogue.Catalogue, k: nat, name: string, j: nat)
    requires Trimmed(name) && Fits(BusQuery(k, name, j))
    ensures ParseAndPrintStatFixed(c, BusQuery(k, name, j)) == BusAnswer(c, name)
  {
    var line := BusQuery(k, name, j);
    QueryLayout(k, "Bus ", name, j);
    FindFirstNotOfAt(line, ' ', 0, k);
    AddNoWrap(k, 3);
    assert line[k + 3] == ' ';
    QueryNameOf(line, k + 3, k + 4, name, j);
  }

  /** The fixed query reads back a stop name after any number of blanks. */
  lemma StopQueryRoundTrip(c: Catalogue.Catalogue, k: nat, name: string, j: nat)
    requires Trimmed(name) && Fits(StopQuery(k, name, j))
    ensures ParseAndPrintStatFixed(c, StopQuery(k, name, j)) == Success(StopReport(name, Catalogue.GetStopInfo(c, name)))
  {
    var line := StopQuery(k, name, j);
    QueryLayout(k, "Stop ", name, j);
    FindFirstNotOfAt(line, ' ', 0, k);
    AddNoWrap(k, 4);
    assert line[k + 4] == ' ';
    QueryNameOf(line, k + 4, k + 5, name, j);
  }

  /** Without leading blanks the query as written agrees with the fixed one. */
  lemma QueryAsWrittenAgrees(c: Catalogue.Catalogue, line: string)
    requires Fits(line) && |line| > 0 && line[0] != ' '
    ensures ParseAndPrintStat(c, line) == ParseAndPrintStatFixed(c, line)
  {
    FindFirstNotOfAt(line, ' ', 0, 0);
    AddNoWrap(0, 3);
    AddNoWrap(0, 4);
  }

  /** With leading blanks the query as written reads the name from inside
      the command word: `  Bus 750` asks for the bus `us 750`. */
  lemma LeadingBlanksMisread()
    ensures ParseAndPrintStat(Catalogue.Empty, BusQuery(2, "750", 0)) == Success(BusNotFound("us 750"))
  {
    var line := BusQuery(2, "750", 0);
    assert line == "  Bus 750";
    FindFirstNotOfAt(line, ' ', 0, 2);
    assert Spaces(0) == "";
    assert line[3..] == "us 750" by {
      assert |line[3..]| == 6;
      assert forall i :: 0 <= i < 6 ==> line[3..][i] == line[i + 3];
    }
    QueryNameOf(line, 3, 3, "us 750", 0);
    UnknownBus("us 750");
  }

  /** The fixed query answers for the bus `750`. */
  lemma LeadingBlanksRead()
    ensures ParseAndPrintStatFixed(Catalogue.Empty, BusQuery(2, "750", 0)) == Success(BusNotFound("750"))
  {
    BusQueryRoundTrip(Catalogue.Empty, 2, "750", 0);
    UnknownBus("750");
  }

  /** An empty catalogue knows no bus. */
  lemma UnknownBus(name: string)
    ensures BusAnswer(Catalogue.Empty, name) == Success(BusNotFound(name))
  {
    assert Catalogue.Empty.busesTable == map[];
  }
}
