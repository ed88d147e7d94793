# Transport catalogue in Dafny

A Dafny model of the core of a C++ transit-network program, cpp-transport-catalogue.

The program reads stops, road distances and bus routes, either as text lines or as a JSON document. It keeps them in a catalogue. It answers queries about buses, stops, shortest itineraries and an SVG route map.

The model is functional throughout:

- Entities are immutable datatypes.
- Integer ids stand in for `Stop*` and `Bus*`.
- Maps and sequences stand in for `deque` and `unordered_map`.
- Every throw of the source is a `Failure` of a `Result`, and so is each undefined behaviour the model covers: `invalid_argument`, `out_of_range`, `logic_error`, a JSON parsing error, undefined behaviour, or non-termination. The undefined behaviour that is not covered is listed under Left out.

The modules follow the source files:

| module | file | what it holds |
|---|---|---|
| `Wrappers` | wrappers.dfy | `Result`/`Option` and the error kinds. |
| `Domain` | domain.dfy | The records of domain.h. |
| `Ordered` | ordered.dfy | `std::less<std::string>` order, and the sorted, duplicate-free sequences that model `std::set` and the keys of `std::map`. |
| `CString` | cstring.dfy | The `std::string_view` searches the parsers use. `size_t` is exact: modulo 2^64, with `npos` = 2^64 - 1. |
| `Seqs` | seqs.dfy | Reversal and concatenation of sequences. |
| `Decimal` | decimal.dfy | `std::to_string`, `std::stoi` with its 32-bit range check, and the wrap-around of a cast to a 32-bit `int`. |
| `Catalogue` | catalogue.dfy | `TransportCatalogue`: the stop and bus registries, the stop → buses index, road distances, bus statistics. |
| `TransportRouter` | router.dfy | The transit graph: vertex doubling, wait edges, ride edges for every span of a bus, the edge → segment table, and `GetRoute` over an abstract shortest-path solver. |
| `Json` | json.dfy | The JSON node, its accessors and equality, string escaping, and the reader (`LoadNode` and the loaders it dispatches to). |
| `JsonBuilder` | json_builder.dfy | `json::Builder` as a state machine over a root and a stack of paths into it. |
| `JsonReader` | json_reader.dfy | Reading base requests into buffers, loading the catalogue, and the JSON answers to stat requests. |
| `InputReader` | input_reader.dfy | The line formats of stop and bus commands, parsed with the `size_t` arithmetic of the source. |
| `StatReader` | stat_reader.dfy | The line-format queries and the text lines they print. |
| `Svg` | svg.dfy | Stroke names, colour text and colour equality, XML escaping of text content, polyline point lists, and omission of empty text attributes. |
| `MapRenderer` | map_renderer.dfy | The discrete layout of the map: bus order, palette cycling, bus-label placement, the sorted set of drawn stops, and layer order. |

The model follows the code as written in these places:

- A bus line that names a single stop reads the rest of the line as a second stop, because `npos + 1` wraps to 0.
- The latitude of a stop line ends at the first `,` of the whole line.
- `std::stod` reads a coordinate up to the end of the line, not up to its field's end.
- `ParseStopsDistances` can recurse forever on a malformed line. The model ends such a run with `Diverges` once a position repeats.

Three places where the code misbehaves are listed under Findings below.

## Model

| member | source | states |
|---|---|---|
| Catalogue.EmptyValid | transport-catalogue/transport_catalogue.h:48-51 | An empty catalogue satisfies the registry invariant: names map to the ids of stops with that name, and every bus set is sorted. |
| Catalogue.AddStop | transport-catalogue/transport_catalogue.cpp:15-19 | The stop is appended. A new name gets the new id and an empty bus set. Other names, the buses and the distances are unchanged. |
| Catalogue.AddStopValid | transport-catalogue/transport_catalogue.cpp:15-19 | Adding a stop keeps the registry invariant. |
| Catalogue.FindStopByName | transport-catalogue/transport_catalogue.cpp:30-35 | Returns `invalid_argument` exactly for an unknown name, otherwise the registered id. |
| Catalogue.FindStopByNameSpec | transport-catalogue/transport_catalogue.cpp:30-35 | Lookup fails exactly for names no `AddStop` registered, and otherwise yields a stop with that name. |
| Catalogue.AddStopThenQuery | transport-catalogue/transport_catalogue.cpp:55-65 | A freshly added stop is found under its name and reported as existing with no buses. |
| Catalogue.AddBus | transport-catalogue/transport_catalogue.cpp:6-12 | Fails with `out_of_range` exactly when some stop of the bus has no bus set. Otherwise the bus name is registered, with the bus when the name is new, while an existing name keeps its first bus. Its name joins the bus set of each of its stops. Nothing else changes. |
| Catalogue.LinkStops | transport-catalogue/transport_catalogue.cpp:9-11 | The loop over the bus's stops: the same keys, each listed stop's set gains the bus, and no other set changes. |
| Catalogue.LinkStopsSorted | transport-catalogue/transport_catalogue.cpp:9-11 | Inserting into the `std::set` bus sets keeps each one strictly ascending. |
| Catalogue.AddBusValid | transport-catalogue/transport_catalogue.cpp:6-12 | A successful `AddBus` keeps the registry invariant. |
| Catalogue.AddBusSpec | transport-catalogue/transport_catalogue.cpp:6-12 | `AddBus` succeeds exactly when every stop of the bus was added, and then every stop reports the bus. |
| Catalogue.FindBusByName | transport-catalogue/transport_catalogue.cpp:22-27 | Returns `invalid_argument` exactly for an unknown name, otherwise the registered bus. |
| Catalogue.GetStopInfo | transport-catalogue/transport_catalogue.cpp:55-75 | The stop exists exactly when it has a bus set, and the answer lists that set. A missing stop lists nothing. |
| Catalogue.GetStopInfoSpec | transport-catalogue/transport_catalogue.cpp:55-75 | A stop is reported as existing exactly when it was added, and its bus list is strictly ascending. |
| Catalogue.AddDistance | transport-catalogue/transport_catalogue.h:39 | The ordered pair maps to the distance. Every other pair and the rest of the catalogue are unchanged. |
| Catalogue.AddDistanceValid | transport-catalogue/transport_catalogue.h:39 | Adding a distance keeps the registry invariant. |
| Catalogue.GetDistance | transport-catalogue/transport_catalogue.cpp:87-92 | The (from, to) entry if stored, else the (to, from) entry. Fails with `out_of_range` when neither is stored. |
| Catalogue.GetDistanceSymmetry | transport-catalogue/transport_catalogue.cpp:87-92 | With one direction stored, the distance is the same both ways. With both stored, each direction is its own. One direction succeeds exactly when the other does. |
| Catalogue.RoadLength | transport-catalogue/transport_catalogue.cpp:102-109 | The road length along a route is defined exactly when every consecutive leg has a distance. |
| Catalogue.RoadLengthCons | transport-catalogue/transport_catalogue.cpp:102-109 | The road length from a stop along a route is defined exactly when the first leg and the rest are, and is their sum. |
| Catalogue.RoadLength32 | transport-catalogue/transport_catalogue.cpp:102-109 | The sum in the 32-bit `Distance`: when defined, an `int` equal to the road length. A missing distance gives `out_of_range` and an overflowing partial sum gives undefined behaviour. A road length that is undefined makes it fail. |
| Catalogue.RoadLength32Defined | transport-catalogue/transport_catalogue.cpp:102-109 | The 32-bit sum is defined exactly when every leg has a distance and every partial sum fits in `int`. |
| Catalogue.LongRouteOverflows | transport-catalogue/transport_catalogue.cpp:103-107 | Two legs of 2 000 000 000 m, each a valid `int`, have a road length of 4 000 000 000 m, and the 32-bit sum over them is undefined behaviour. |
| Catalogue.RoadLength32PrefixFails | transport-catalogue/transport_catalogue.cpp:104-106 | Once the sum fails on a prefix, the whole route fails in the same way. |
| Catalogue.UniqueStopsBound | transport-catalogue/transport_catalogue.cpp:43-47 | A route has no more distinct stops than stops, and at least one when it is not empty. |
| Catalogue.GetBusInfo | transport-catalogue/transport_catalogue.cpp:38-53 | `invalid_argument` for an unknown bus. Otherwise it fails exactly when a leg's distance is missing or a partial sum leaves `int`, with the 32-bit sum's error. On success it gives the stop count, the distinct-stop count and the road length, an `int`, with `bus_exist` left false. |
| Catalogue.ComputeRoadBasedRouteLength | transport-catalogue/transport_catalogue.cpp:102-109 | The summing loop computes the 32-bit sum. It fails at the first missing distance, or at the first partial sum outside `int`. |
| Catalogue.CountUniqueStops | transport-catalogue/transport_catalogue.cpp:43-47 | The `unordered_set` loop counts the distinct stops of the route. |
| Catalogue.AllStops | transport-catalogue/transport_router.cpp:44 | `GetAllStops` lists every registered name once, and nothing else. |
| Catalogue.AllStopsEnumerates | transport-catalogue/transport_router.cpp:44-54 | Registration order is one enumeration of the stop table, so the router may be built from it. |
| Ordered.Insert | transport-catalogue/domain.h:27 | `std::set::insert` adds exactly the new element. |
| Ordered.InsertSorted | transport-catalogue/domain.h:27 | Inserting into a strictly ascending sequence keeps it strictly ascending, and re-inserting a member changes nothing. |
| Ordered.InsertAll | transport-catalogue/map_renderer.cpp:105-108 | Inserting a list of names yields exactly the old and the new names. |
| Ordered.InsertAllSorted | transport-catalogue/map_renderer.cpp:105-108 | The keys of a `std::map` filled by insertion are strictly ascending. |
| Ordered.StrictlySortedUnique | transport-catalogue/map_renderer.cpp:203-213 | Two strictly ascending sequences with the same elements are equal, so a sorted key set is determined by its contents. |
| CString.FindFirstNotOf | transport-catalogue/input_reader.cpp:43 | The first index at or after `pos` holding another character, or `npos` when none does. |
| CString.FindFirstOf | transport-catalogue/input_reader.cpp:44 | The first index at or after `pos` holding one of the characters, or `npos`. |
| CString.FindLastNotOf | transport-catalogue/input_reader.cpp:48 | The last index holding another character, or `npos`. |
| CString.Find | transport-catalogue/input_reader.cpp:178 | The first occurrence of the pattern at or after `pos`, or `npos`. |
| CString.Substr | transport-catalogue/input_reader.cpp:46 | `out_of_range` exactly when `pos` is past the end. Otherwise the count is clamped to the end. |
| CString.TrimRightShape | transport-catalogue/input_reader.cpp:47-49 | Trimming keeps a prefix that is empty or ends in a non-blank, and drops only blanks. |
| CString.TrimBack | transport-catalogue/input_reader.cpp:47-49 | The trimming idiom fails exactly on an empty name (`back()` is undefined) and otherwise removes the trailing blanks. |
| CString.TrimBackAgrees | transport-catalogue/input_reader.cpp:47-49 | `substr(0, find_last_not_of(' ') + 1)` of a name ending in a blank is that name trimmed. |
| CString.FindFirstOfAny | transport-catalogue/input_reader.cpp:91 | `find('-')` finds something exactly when the line contains a `-`. |
| Decimal.NatToString | transport-catalogue/svg.cpp:65 | `std::to_string` of a non-negative number is a non-empty digit string with no leading zero. |
| Decimal.IntToString | transport-catalogue/stat_reader.cpp:17 | `std::to_string` of an `int` starts with `-` exactly when the number is negative. |
| Decimal.DigitsValueOfNatToString | transport-catalogue/svg.cpp:65 | The digits `std::to_string` writes have the number's value. |
| Decimal.LeadingDigits | transport-catalogue/input_reader.cpp:176 | The longest all-digit prefix of a text. |
| Decimal.Stoi | transport-catalogue/input_reader.cpp:176 | `std::stoi` fails only with `invalid_argument` or `out_of_range`, and succeeds only with a 32-bit value. |
| Decimal.StoiOfIntToString | transport-catalogue/json.cpp:244 | `std::stoi` reads back every 32-bit value `std::to_string` writes. |
| InputReader.ParseName | transport-catalogue/input_reader.cpp:43-49 | A command's name ends at the first `:` after its first non-blank, and carries no trailing blank. |
| InputReader.ParseNameSpec | transport-catalogue/input_reader.cpp:43-49 | A name written after blanks and before `:` is read back with its trailing blanks trimmed, together with the position of the `:`. |
| InputReader.DistanceEntry | transport-catalogue/input_reader.cpp:172-180 | One `D m to name` entry yields a 32-bit distance and the position of the next `,`, or `npos`. |
| Decimal.Wrap32 | transport-catalogue/input_reader.cpp:176 | The `int` → `uint32_t` → `int` round, and `static_cast<int>` of a count, give a 32-bit value congruent to the input modulo 2^32, and the input itself when it already fits. |
| InputReader.ParseStopsDistances | transport-catalogue/input_reader.cpp:167-194 | `insert` never replaces a neighbour already read. |
| InputReader.CoordinateText | transport-catalogue/input_reader.cpp:57-66 | A coordinate field fails exactly when it is empty or starts past the end. The text handed to `stod` runs to the end of the line. |
| InputReader.CoordinateTexts | transport-catalogue/input_reader.cpp:51-56 | The longitude ends at a `,` inside the line, or at `npos`. |
| InputReader.NextName | transport-catalogue/input_reader.cpp:146-158 | The next route stop ends at a separator after the previous one, or at `npos`. |
| InputReader.MoreStops | transport-catalogue/input_reader.cpp:145-165 | `FindAndAddAnotherStop` adds at least one name. |
| InputReader.ParseStops | transport-catalogue/input_reader.cpp:108-143 | A route always has at least two names, because the first two are read unconditionally. |
| InputReader.ParseBus | transport-catalogue/input_reader.cpp:78-106 | The bus name is read after `Bus`. The stops are expanded there and back exactly when the line contains a `-`. |
| InputReader.ParseLine | transport-catalogue/input_reader.cpp:5-20 | A line whose first non-blank is `S` is a stop command, and any other is a bus command. A blank line is undefined behaviour, because it reads `line[npos]`. |
| InputReader.BusDash | transport-catalogue/input_reader.cpp:91 | A written bus line contains a `-` exactly when its stops are joined by `-`. |
| InputReader.BusLineRoundTrip | transport-catalogue/input_reader.cpp:78-165 | A written bus line is read back as its name and stops. The stops are expanded there and back when joined by `-`. |
| InputReader.SingleStopBusLine | transport-catalogue/input_reader.cpp:121-135 | A bus line with one stop is read as that stop followed by a stop named after the whole line. |
| InputReader.KeepFirstKeys | transport-catalogue/input_reader.cpp:185-190 | The neighbours read are those known before plus those of the entries. |
| InputReader.KeepFirstWins | transport-catalogue/input_reader.cpp:185-190 | The first entry for a neighbour supplies its distance. |
| InputReader.KeepFirstKeeps | transport-catalogue/input_reader.cpp:185-190 | A neighbour already known keeps its distance. |
| InputReader.EntriesRead | transport-catalogue/input_reader.cpp:167-194 | `ParseStopsDistances` on a written list of entries keeps the first distance of each neighbour. |
| InputReader.DistancesInt32 | transport-catalogue/input_reader.cpp:167-194 | Every distance `ParseStopsDistances` reads is a 32-bit value. |
| InputReader.StopDistances | transport-catalogue/input_reader.cpp:67-73 | A stop line without a `,` after the longitude has no distances. Every distance read is a 32-bit value. |
| InputReader.ParseStop | transport-catalogue/input_reader.cpp:42-76 | A stop's name carries no trailing blank, and all its distances are 32-bit values. InputReader.StopLineRoundTrip states the full reading of a written stop line. |
| InputReader.StopLineRoundTrip | transport-catalogue/input_reader.cpp:42-76 | A written stop line is read back as its name, its coordinates as `stod` reads them, and its distances, the first entry for a neighbour winning. |
| InputReader.StopsRegistered | transport-catalogue/input_reader.cpp:22-26 | The stop loop keeps the registry invariant and registers exactly the old names and those of the added stops. |
| InputReader.KnownAfterStops | transport-catalogue/input_reader.cpp:22-26 | After the stop loop the catalogue knows exactly the names registered before and those of the buffered stop lines. |
| InputReader.ApplyCommands | transport-catalogue/input_reader.cpp:22-40 | Fails only with `invalid_argument` or `out_of_range`. On success the stop lines' stops follow the catalogue's own, and the distances are untouched. InputReader.ApplyCommandsSpec states the rest. |
| InputReader.ApplyCommandsSpec | transport-catalogue/input_reader.cpp:22-40 | `ApplyCommands` succeeds exactly when every stop a bus lists is known, wherever its stop line stands. The stops are appended. Exactly the old bus names and the bus lines' names are registered. Old buses are kept, and each new name holds its first bus line with its stops' ids. Each bus is among the buses of each of its stops. |
| Json.KindsPartition | transport-catalogue/json.cpp:35-65 | Every node is of exactly one kind, and `IsDouble` holds for integer and floating nodes. |
| Json.AsInt | transport-catalogue/json.cpp:67-72 | `logic_error` exactly on a non-integer node, otherwise its payload. |
| Json.AsDouble | transport-catalogue/json.cpp:74-82 | `logic_error` exactly on a node that is neither integer nor floating. An integer node reads as its value. |
| Json.AsPureDouble | transport-catalogue/json.cpp:84-89 | `logic_error` exactly on a non-floating node, otherwise its payload. |
| Json.AsString | transport-catalogue/json.cpp:91-96 | `logic_error` exactly on a non-string node, otherwise its payload. |
| Json.AsBool | transport-catalogue/json.cpp:98-103 | `logic_error` exactly on a non-boolean node, otherwise its payload. |
| Json.AsArray | transport-catalogue/json.cpp:105-110 | `logic_error` exactly on a non-array node, otherwise its items. |
| Json.AsMap | transport-catalogue/json.cpp:112-117 | `logic_error` exactly on a non-dictionary node, otherwise its entries. |
| Json.AsDoubleOfInt | transport-catalogue/json.cpp:74-89 | On an integer node `AsDouble` and `AsInt` agree, and `AsPureDouble` fails. |
| Json.NodeEqIsEquality | transport-catalogue/json.cpp:119-145 | `operator==` holds exactly for the same kind with equal payloads. |
| Json.IntNeverEqualsDouble | transport-catalogue/json.cpp:119-145 | An integer node never equals a floating node. |
| Json.PrintString | transport-catalogue/json.cpp:393-422 | The printed text is quoted and no shorter than the original plus its quotes. |
| Json.EscapeAllQuotes | transport-catalogue/json.cpp:400-419 | Every quote in the escaped body follows a backslash. |
| Json.EscapeAllPlain | transport-catalogue/json.cpp:400-419 | A text without quote, backslash, newline, carriage return or tab is printed as is. |
| Json.LoadString | transport-catalogue/json.cpp:261-306 | A string literal that is read ends just after its closing quote. Failure is a parsing error. |
| Json.LoadEscaped | transport-catalogue/json.cpp:261-306 | An escaped text followed by a quote decodes to the original text, ending after the quote. |
| Json.LoadPrintedString | transport-catalogue/json.cpp:261-306 | Reading back a printed string yields the original text and stops just after the closing quote. |
| Json.LoadStringUnterminated | transport-catalogue/json.cpp:272-277 | Input that ends inside a string literal is a parsing error. |
| Json.SkipWs | transport-catalogue/json.cpp:330 | `input >> c` skips exactly the white space before the next character. |
| Json.ReadChar | transport-catalogue/json.cpp:330 | `input >> c` fails exactly at the end of input. Otherwise it gives the first non-space and the position after it. |
| Json.CollectWord | transport-catalogue/json.cpp:188-193 | The word runs up to the next `,`, `]`, `}` or the end, without white space. |
| Json.LoadNull | transport-catalogue/json.cpp:186-200 | Accepts exactly the word `null`, and anything else is a parsing error. |
| Json.LoadBool | transport-catalogue/json.cpp:202-219 | Accepts exactly `true` or `false` with that value, and anything else is a parsing error. |
| Json.LoadPrintedKeyword | transport-catalogue/json.cpp:186-219 | The printed keywords read back as the same node, up to a delimiter or the end. |
| Json.NumberEnd | transport-catalogue/json.cpp:237-241 | The number lexeme is the maximal run of digits and `-`, `.`, `e`, `E`, `+`. |
| Json.LoadNumber | transport-catalogue/json.cpp:222-249 | A lexeme without `.`, `e`, `E` or `+` is read with `stoi` as an integer node. Any other lexeme is read with `stod` as a floating node. |
| Json.LoadPrintedInt | transport-catalogue/json.cpp:222-249 | A printed `int` is read back as that integer node, consuming exactly its digits. |
| Json.LoadNode | transport-catalogue/json.cpp:328-362 | The end of input is undefined behaviour. A stray `,`, `]` or `}` is a parsing error. A node that is read ends inside the input. |
| Json.LoadArray | transport-catalogue/json.cpp:169-184 | An array that is read is an array node. Input ending inside the array is a parsing error. |
| Json.LoadDict | transport-catalogue/json.cpp:308-326 | A dictionary that is read is a dictionary node. Input ending inside it is a parsing error. |
| Json.Load | transport-catalogue/json.cpp:364-366 | The document is the first node of the input. |
| Json.LoadPrintedStringNode | transport-catalogue/json.cpp:393-422 | A printed string loads as the same string node. |
| Json.LoadPrintedKeywordNode | transport-catalogue/json.cpp:424-432 | A printed `null`, `true` or `false` loads as the same node. |
| Json.LoadPrintedIntNode | transport-catalogue/json.cpp:383-385 | A printed integer loads as the same integer node. |
| Json.LoadAtNumber | transport-catalogue/json.cpp:358-361 | Input opening with `-` or a digit loads as the number read there. |
| JsonBuilder.Top | transport-catalogue/json_builder.cpp:10 | `nodes_stack_.back()` exists exactly when the stack is non-empty and its path is in the tree. |
| JsonBuilder.Key | transport-catalogue/json_builder.cpp:9-20 | Only an open dictionary accepts a key, and otherwise it is `logic_error`. The key's slot, new or existing, becomes the top, with a pending key. |
| JsonBuilder.Value | transport-catalogue/json_builder.cpp:22-42 | Sets an untouched root once, appends to an open array, or fills a pending key's slot and pops back to the dictionary. Any other state is `logic_error`. |
| JsonBuilder.Start | transport-catalogue/json_builder.cpp:44-80 | Fills a null top, appends and enters a container in an open array, or fills a pending key's slot. Any other state is `logic_error`. |
| JsonBuilder.EndDict | transport-catalogue/json_builder.cpp:82-90 | Pops exactly when the top is a dictionary, and otherwise it is `logic_error`. |
| JsonBuilder.EndArray | transport-catalogue/json_builder.cpp:92-100 | Pops exactly when the top is an array, and otherwise it is `logic_error`. |
| JsonBuilder.Build | transport-catalogue/json_builder.cpp:102-116 | The root, once a root value was assigned or the stack is empty. A null or still-open top is `logic_error`. |
| JsonBuilder.FreshValid | transport-catalogue/json_builder.cpp:5-7 | A fresh builder's only stack entry points at the root. |
| JsonBuilder.ApplyValid | transport-catalogue/json_builder.cpp:9-100 | Every successful call keeps each stack entry pointing into the tree, the bottom one at the root. |
| JsonBuilder.RunValid | transport-catalogue/json_builder.cpp:9-100 | Every successful chain of calls keeps that invariant. |
| JsonBuilder.BuildEmitted | transport-catalogue/json_builder.cpp:9-116 | The calls that describe a document with distinct keys, made on a fresh builder, succeed and build exactly that document. |
| JsonBuilder.BuildFresh | transport-catalogue/json_builder.cpp:102-114 | `Build` on a fresh builder is `logic_error`. |
| JsonBuilder.SecondRootValue | transport-catalogue/json_builder.cpp:22-31 | A second root value is rejected unless the first was an array, which then takes it as an element. |
| JsonBuilder.ReusedKey | transport-catalogue/json_builder.cpp:9-15 | Giving a key again selects its existing entry. A later value is appended to it when it is an array and replaces it otherwise. |
| Wrappers.MapAt | transport-catalogue/json_reader.cpp:24 | `at` of a `Dict` or `unordered_map` is `out_of_range` exactly for a missing key, otherwise the entry. |
| JsonReader.StringsOf | transport-catalogue/json_reader.cpp:328-330 | `AsString` of each node succeeds exactly when all are strings, keeping their order. |
| Seqs.Reverse | transport-catalogue/json_reader.cpp:331 | The reverse iteration lists the elements back to front. |
| JsonReader.OutAndBackShape | transport-catalogue/json_reader.cpp:325-335 | A there-and-back route over `s` has 2·\|s\| - 1 stops. It starts with `s`, reads the same both ways, starts and ends at `s[0]`, and turns at the last outward stop. |
| JsonReader.ParseBus | transport-catalogue/json_reader.cpp:311-344 | Name, stops and round flag come from their keys. A round bus keeps its stops, and another bus is expanded there and back. An empty non-round list is undefined behaviour. |
| JsonReader.BufferDistances | transport-catalogue/json_reader.cpp:306-308 | Each neighbour is buffered under (stop, neighbour). A pair already buffered keeps its value, and nothing else is added. |
| JsonReader.ParseStop | transport-catalogue/json_reader.cpp:289-309 | The name comes from its key, and the road distances are buffered under it. A non-integer distance is `logic_error`. |
| JsonReader.RepeatedStopKeepsFirst | transport-catalogue/json_reader.cpp:306-308 | A stop described twice keeps the distances of its first description. |
| JsonReader.ParseBase | transport-catalogue/json_reader.cpp:29-36 | Each base request adds exactly one stop or one bus, after those already buffered. |
| JsonReader.ReadInput | transport-catalogue/json_reader.cpp:21-37 | The root must be a dictionary with the four sections. Each base request becomes one buffered stop or bus. |
| JsonReader.RoutingSettingsOf | transport-catalogue/json_reader.cpp:149-155 | Succeeds exactly for an integer wait time and a numeric velocity, with those values. |
| JsonReader.AddStops | transport-catalogue/json_reader.cpp:43-45 | The stop loop appends the buffered stops and leaves buses and distances alone. |
| JsonReader.AddStopsValid | transport-catalogue/json_reader.cpp:43-45 | The stop loop keeps the registry invariant. |
| JsonReader.AddDistances | transport-catalogue/json_reader.cpp:48-52 | The distance loop fails with `invalid_argument` exactly when a buffered pair names an unknown stop, and changes only distances. |
| JsonReader.AddDistancesStored | transport-catalogue/json_reader.cpp:48-52 | Afterwards each buffered pair's distance is stored under the ids of its stops. |
| JsonReader.TableInjective | transport-catalogue/json_reader.cpp:49-50 | Distinct registered names have distinct ids. |
| JsonReader.FindStops | transport-catalogue/json_reader.cpp:58-60 | Looking up a bus's stop names fails exactly on an unknown name, otherwise it gives their ids in order. |
| JsonReader.AddBuses | transport-catalogue/json_reader.cpp:55-63 | The bus loop fails only with `invalid_argument` or `out_of_range`, and leaves stops, names and distances alone. |
| JsonReader.AddBusesSpec | transport-catalogue/json_reader.cpp:55-63 | The bus loop succeeds exactly when every listed stop is registered. Each bus then serves each of its stops, and the bus table is registered as JsonReader.AddBusesRegisters states. |
| JsonReader.AddBusesLinks | transport-catalogue/json_reader.cpp:55-63 | The bus loop succeeds exactly when every listed stop is registered. The registry invariant then holds, old stop-to-bus links are kept, and each bus is linked to each of its stops. |
| JsonReader.AddBusesRegisters | transport-catalogue/json_reader.cpp:55-63 | The stop table is unchanged. Exactly the old and the buffered bus names are registered. Old buses are kept, and each new name holds its first buffered bus, with the same round flag and its stops' ids in order. |
| JsonReader.StopsLoaded | transport-catalogue/json_reader.cpp:43-45 | Loading the stops into an empty catalogue gives a consistent catalogue holding exactly them. |
| JsonReader.StopNamesLoaded | transport-catalogue/json_reader.cpp:43-45 | After the stop loop exactly the buffered names are registered. |
| JsonReader.DistancesLoad | transport-catalogue/json_reader.cpp:48-52 | The distance loop succeeds exactly when every buffered distance names two buffered stops. |
| JsonReader.DistancesLoaded | transport-catalogue/json_reader.cpp:48-52 | After the stop and distance loops, every buffered distance is stored under its stops' ids. |
| JsonReader.CreateDatabase | transport-catalogue/json_reader.cpp:39-66 | Fails only with `invalid_argument` or `out_of_range`, and a loaded catalogue holds the buffered stops in order. JsonReader.CreateDatabaseSucceeds and JsonReader.CreateDatabaseContents state the rest. |
| JsonReader.CreateDatabaseSucceeds | transport-catalogue/json_reader.cpp:39-66 | Loading succeeds exactly when every distance and every bus names only buffered stops, whatever their order in the input. |
| JsonReader.CreateDatabaseContents | transport-catalogue/json_reader.cpp:39-66 | A loaded catalogue holds the buffered stops and each buffered distance, and every bus serves each of its stops. |
| JsonReader.CreateDatabaseBuses | transport-catalogue/json_reader.cpp:55-63 | A loaded catalogue registers exactly the buffered bus names, each with the first bus buffered under it. |
| JsonReader.NotFound | transport-catalogue/json_reader.cpp:161-166 | The "not found" answer is the object with `error_message` and `request_id`. |
| JsonReader.ProceedBusRequest | transport-catalogue/json_reader.cpp:157-176 | The answer branches on `bus_exist` alone: "not found", or the curvature, id, route length and the two stop counts, each count through `static_cast<int>`. |
| JsonReader.ProceedStopRequest | transport-catalogue/json_reader.cpp:178-200 | A missing stop gives "not found". Otherwise the answer lists the bus names in order, with the id. |
| JsonReader.ProceedMapRequest | transport-catalogue/json_reader.cpp:202-216 | The map answer holds the rendered text and the id. |
| JsonReader.SegmentDoc | transport-catalogue/json_reader.cpp:235-254 | A wait segment is written as stop name, time and type `Wait`. A ride is written as bus, span count, time and type `Bus`. |
| JsonReader.ProceedRouteRequest | transport-catalogue/json_reader.cpp:218-258 | No route gives the id with "not found". Otherwise the answer is the id, the total time and one item per segment, in order. |
| JsonReader.StringAt | transport-catalogue/json_reader.cpp:159 | `at(key).AsString()` is `out_of_range` for a missing key and `logic_error` for a non-string. |
| JsonReader.RequestId | transport-catalogue/json_reader.cpp:164 | `at("id").AsInt()` is `out_of_range` for a missing id and `logic_error` for a non-integer. |
| JsonReader.FoundBusInfo | transport-catalogue/json_reader.cpp:157-176 | The catalogue's statistics with the found flag recorded. It succeeds exactly when `GetBusInfo` does. |
| JsonReader.BusAnswerAsWritten | transport-catalogue/json_reader.cpp:161 | As written, every bus answer that is produced is "not found". |
| JsonReader.KnownBusReportedMissing | transport-catalogue/json_reader.cpp:161 | A known bus with all its distances stored is still answered "not found". |
| JsonReader.BusAnswer | transport-catalogue/json_reader.cpp:157-176 | With the found flag recorded, an unknown bus is `invalid_argument`. A request with a name and an integer id is answered exactly when the bus's statistics are defined. |
| JsonReader.BusAnswerReportsStatistics | transport-catalogue/json_reader.cpp:167-175 | With the found flag recorded, a known bus is answered with its curvature, route length and stop counts. |
| JsonReader.StopAnswer | transport-catalogue/json_reader.cpp:178-200 | Answered exactly when the request has a string name and an integer id, with the stop's response. |
| JsonReader.MapAnswer | transport-catalogue/json_reader.cpp:202-216 | Answered exactly when the request has an integer id, with the rendered map. |
| JsonReader.RouteAnswer | transport-catalogue/json_reader.cpp:218-258 | Answered with the router's itinerary for `from` and `to`. |
| JsonReader.RouteAnswerTimesAddUp | transport-catalogue/json_reader.cpp:230-256 | For a solver that reports real paths with their weights, the item times of a route answer add up to its total time. |
| JsonReader.Answer | transport-catalogue/json_reader.cpp:264-277 | `Bus`, `Stop`, `Map` and `Route` requests are answered, and any other type silently gets nothing. |
| JsonReader.HandlerAnswersWellKeyed | transport-catalogue/json_reader.cpp:264-277 | Every answer has distinct keys, so the builder can emit it. |
| JsonReader.Answers | transport-catalogue/json_reader.cpp:264-277 | There is at most one answer per request. |
| JsonReader.RespondAllSpec | transport-catalogue/json_reader.cpp:264-277 | The loop's builder holds the answers in request order, or the loop fails with the first failing answer. |
| JsonReader.RequestAndPrintSpec | transport-catalogue/json_reader.cpp:260-283 | `RequestAndPrint` builds the array of the answers, one per answered request, in request order, or fails with the first failing answer. |
| TransportRouter.InitializeStops | transport-catalogue/transport_router.cpp:41-51 | Each enumerated name gets an even vertex below 2·\|names\|, and no other name gets one. |
| TransportRouter.InitializeStopsFirst | transport-catalogue/transport_router.cpp:41-51 | A name's vertex is twice the index of its first occurrence. |
| TransportRouter.InitializeStopsDistinct | transport-catalogue/transport_router.cpp:41-51 | For distinct names the k-th gets vertex 2k, and distinct names get distinct vertices. |
| TransportRouter.FindVertexIdByStopName | transport-catalogue/transport_router.cpp:14-16 | `out_of_range` exactly for an unknown name, otherwise its vertex. |
| TransportRouter.FindTimecutByEdgeId | transport-catalogue/transport_router.cpp:18-20 | `out_of_range` exactly for an edge id without a segment, otherwise its segment. |
| TransportRouter.WaitEntries | transport-catalogue/transport_router.cpp:57-60 | One wait edge per entry of the vertex table, from its vertex to the next one, weighted by the wait time and recorded as a `Wait` at that stop. |
| TransportRouter.WaitEntriesOnePerStop | transport-catalogue/transport_router.cpp:57-60 | Each stop has exactly one wait edge. |
| TransportRouter.RowPairsSpec | transport-catalogue/transport_router.cpp:79-83 | The inner loop visits exactly the admitted spans of row `i` from `j` on, in ascending order. |
| TransportRouter.LoopPairsSpec | transport-catalogue/transport_router.cpp:74-83 | The two loops visit exactly the admitted spans from row `i` on, in lexicographic order. |
| TransportRouter.SpansSpec | transport-catalogue/transport_router.cpp:74-83 | The loops visit exactly the spans i < j < n, with j ≤ n / 2 for a non-round bus, each once and in order. |
| TransportRouter.RowPairsCount | transport-catalogue/transport_router.cpp:79-83 | A row has one span for each admitted `j`. |
| TransportRouter.RoundPairsCount | transport-catalogue/transport_router.cpp:74-79 | From row `i`, a round bus of n stops has (n - i)(n - i - 1) / 2 spans. |
| TransportRouter.NonRoundPairsCount | transport-catalogue/transport_router.cpp:74-83 | From row `i`, a non-round bus has (n/2 - i)(n/2 - i + 1) / 2 spans. |
| TransportRouter.SpansCount | transport-catalogue/transport_router.cpp:74-83 | A round bus of n stops has n(n - 1)/2 spans. A non-round bus stored with 2m - 1 stops has m(m - 1)/2, each giving two edges. |
| TransportRouter.SpanLength | transport-catalogue/transport_router.cpp:88-89 | A missing distance for a leg of the span is `out_of_range`. |
| TransportRouter.InverseSpanLength | transport-catalogue/transport_router.cpp:88-90 | A missing distance for a leg driven backwards is `out_of_range`. |
| TransportRouter.InverseSpanLengthIsReverseRoadLength | transport-catalogue/transport_router.cpp:86-91 | The backward span distance is the catalogue's road length over the span's stops in reverse order. |
| TransportRouter.RideTimeCoversDistance | transport-catalogue/transport_router.cpp:94 | `RideTime`, in minutes, times the velocity in km/h is 60 times the distance in km, so it is distance / 1000 / velocity · 60. |
| TransportRouter.SpanLengthIsRoadLength | transport-catalogue/transport_router.cpp:86-91 | The forward span distance is the catalogue's road length over the stops it covers. |
| TransportRouter.SpanEntries | transport-catalogue/transport_router.cpp:92-111 | Span (i, j) gives a ride edge from the board vertex of stop i to the wait vertex of stop j. Its time is distance / 1000 / velocity · 60, and its segment has that time and span count j - i. A non-round bus also gets the reverse edge over the inverse distance. |
| TransportRouter.PairsEntries | transport-catalogue/transport_router.cpp:79-112 | The edges of a list of spans exist exactly when each span's edges do. There are one per span for a round bus, and two otherwise. Failure is `out_of_range`. |
| TransportRouter.PairsEntriesAt | transport-catalogue/transport_router.cpp:92-111 | The k-th span's ride edge stands at position k for a round bus. Otherwise it stands at 2k, and its ride back at 2k + 1. |
| TransportRouter.PairsEntriesLayout | transport-catalogue/transport_router.cpp:79-112 | Every span's edges stand at the place of the span in the list, in the loops' order. |
| TransportRouter.BusEntries | transport-catalogue/transport_router.cpp:72-114 | A bus's edges exist exactly when every admitted span's edges do, and fail with `out_of_range` otherwise. There are one per span for a round bus, and two otherwise. |
| TransportRouter.BusEntriesLayout | transport-catalogue/transport_router.cpp:74-112 | The k-th span the loops visit is admitted. Its edges stand k-th among the bus's edges: at k for a round bus, and at 2k and 2k + 1 otherwise. |
| TransportRouter.RideEntries | transport-catalogue/transport_router.cpp:66-69 | The ride edges exist exactly when every bus's edges do, and fail with `out_of_range` otherwise. |
| TransportRouter.RideEntriesInOrder | transport-catalogue/transport_router.cpp:66-69 | The ride edges are the buses' edges, one bus after the other, in the bus table's order. |
| TransportRouter.Build | transport-catalogue/transport_router.cpp:7-12 | The router is built exactly when the ride edges are, and fails with `out_of_range` otherwise. The graph has 2·\|stops\| vertices, and the vertex table comes from the stop enumeration. The first edges are the wait edges, and every edge id has a segment. |
| TransportRouter.BuildRides | transport-catalogue/transport_router.cpp:53-70 | After the wait edges, the graph holds the ride edges and the segment table their segments, in the same order. |
| TransportRouter.BuildWellFormed | transport-catalogue/transport_router.cpp:53-114 | Every edge of a built router joins existing vertices and carries a segment whose time equals its weight. |
| TransportRouter.CutsOfPath | transport-catalogue/transport_router.cpp:34-36 | Mapping a path succeeds exactly when every edge id has a segment, and gives the segments in path order. |
| TransportRouter.GetRoute | transport-catalogue/transport_router.cpp:22-39 | An unknown name is `out_of_range`, and no path gives `nullopt`. Otherwise the answer is the solver's weight and the path's segments in order. |
| TransportRouter.SumTimesOfPath | transport-catalogue/transport_router.cpp:31-36 | The segment times of a path add up to the sum of its edge weights. |
| TransportRouter.RouteTimesAddUp | transport-catalogue/transport_router.cpp:22-39 | For a solver reporting a path with its total weight, the answer's segment times add up to its total time. |
| TransportRouter.OuterIterationsAsWrittenFrom | transport-catalogue/transport_router.cpp:74 | With no stops, the `size_t` bound `stops.size() - 1` is 2^64 - 1, so the outer loop runs up to it. |
| TransportRouter.EmptyRoundBusIterations | transport-catalogue/transport_router.cpp:74 | A round bus with no stops runs the outer loop 2^64 - 1 times as written, and the clamped loop not at all. |
| TransportRouter.SpansAsWrittenAgree | transport-catalogue/transport_router.cpp:74-83 | The loops as written visit the same spans as the clamped loops. |
| TransportRouter.SpansAsWrittenSame | transport-catalogue/transport_router.cpp:74-83 | The underflow costs time only: the edges are the same. |
| StatReader.QueryName | transport-catalogue/stat_reader.cpp:9-12 | Fails with `out_of_range` exactly when nothing but blanks follows `from`. Otherwise the name runs from the first non-blank to the line's last non-blank. |
| StatReader.QueryNameRange | transport-catalogue/stat_reader.cpp:10-11 | The last non-blank of the line closes the name. |
| StatReader.NamePlacement | transport-catalogue/stat_reader.cpp:10-12 | A trimmed name followed only by blanks ends at the line's last non-blank. |
| StatReader.TrimSpaces | transport-catalogue/stat_reader.cpp:10-12 | Trailing blanks after a trimmed name are dropped and nothing else. |
| StatReader.WordsOfJoined | transport-catalogue/stat_reader.cpp:43-47 | Bus names without blanks can be read back from the printed list. |
| StatReader.StopReport | transport-catalogue/stat_reader.cpp:36-49 | Every stop answer is one line starting with `Stop `. |
| StatReader.BusAnswer | transport-catalogue/stat_reader.cpp:14-24 | Every bus answer starts with `Bus `. |
| StatReader.BusStat | transport-catalogue/stat_reader.cpp:8-24 | The answer to a bus query starts with `Bus `. |
| StatReader.StopStat | transport-catalogue/stat_reader.cpp:26-50 | The answer to a stop query starts with `Stop `. |
| StatReader.ParseAndPrintStat | transport-catalogue/stat_reader.cpp:3-51 | A blank line is `out_of_range`. The answer starts with `Bus ` when the first non-blank is `B`, and with `Stop ` otherwise. |
| StatReader.ParseAndPrintStatFixed | transport-catalogue/stat_reader.cpp:3-51 | The same dispatch and answer prefixes, with the name searched after the command wherever it starts. |
| StatReader.BusAnswerSpec | transport-catalogue/stat_reader.cpp:14-24 | An unknown bus prints `Bus X: not found`. A known bus prints its stop count, distinct-stop count and route length exactly when every leg has a distance and no partial sum leaves `int`. Otherwise it fails with the error of the 32-bit sum. |
| StatReader.StopReportSpec | transport-catalogue/stat_reader.cpp:36-49 | A stop never added prints `not found`. An added stop with no buses prints `no buses`. Otherwise it prints `buses ` and each name plus a blank, in ascending order. |
| StatReader.StopReportsDiffer | transport-catalogue/stat_reader.cpp:36-49 | The three stop answers can be told apart. |
| StatReader.BusQueryRoundTrip | transport-catalogue/stat_reader.cpp:9-12 | With the offset corrected, a bus query after any number of blanks, with trailing blanks, is answered for exactly the bus named. |
| StatReader.StopQueryRoundTrip | transport-catalogue/stat_reader.cpp:27-30 | With the offset corrected, a stop query after any number of blanks, with trailing blanks, is answered with the report for exactly the stop named. |
| StatReader.QueryAsWrittenAgrees | transport-catalogue/stat_reader.cpp:8-30 | Without leading blanks, the query as written agrees with the corrected one. |
| StatReader.LeadingBlanksMisread | transport-catalogue/stat_reader.cpp:9 | As written, `  Bus 750` asks for the bus `us 750`. |
| StatReader.LeadingBlanksRead | transport-catalogue/stat_reader.cpp:9 | With the offset corrected, `  Bus 750` asks for the bus `750`. |
| StatReader.UnknownBus | transport-catalogue/stat_reader.cpp:21-23 | In an empty catalogue every bus is reported `not found`. |
| Svg.LineCapName | transport-catalogue/svg.cpp:7-18 | Every line cap has a non-empty keyword. |
| Svg.LineJoinName | transport-catalogue/svg.cpp:20-35 | Every line join has a non-empty keyword. |
| Svg.LineCapOfName | transport-catalogue/svg.cpp:7-18 | A keyword that names a cap is the one that cap is written as. |
| Svg.LineJoinOfName | transport-catalogue/svg.cpp:20-35 | A keyword that names a join is the one that join is written as. |
| Svg.StrokeNamesRoundTrip | transport-catalogue/svg.cpp:7-35 | Each cap and join is written under its own keyword, which reads back as it. |
| Svg.ColorEqEquivalence | transport-catalogue/svg.cpp:78-84 | Colour equality by converted text is an equivalence relation. |
| Svg.ColorEqAcrossAlternatives | transport-catalogue/svg.cpp:55-84 | No colour equals the string `none`, and `Rgb{r,g,b}` equals the string `rgb(r,g,b)`. No RGB colour equals no colour. |
| Svg.ColorText | transport-catalogue/svg.cpp:37-71 | A colour is written `none` exactly when it is no colour or the name `none`. An RGB colour is written `rgb(`…`)`. Svg.RgbEqIff shows the text determines the components. |
| Svg.RgbEqIff | transport-catalogue/svg.cpp:64-84 | Two RGB colours are equal exactly when their components are. |
| Svg.ShieldChar | transport-catalogue/svg.cpp:189-205 | An escaped character is never a quote, apostrophe, `<` or `>`. |
| Svg.Shield | transport-catalogue/svg.cpp:185-210 | The escaped text contains no quote, apostrophe, `<` or `>`, and is no shorter than the original. |
| Svg.ShieldPlain | transport-catalogue/svg.cpp:185-210 | A text without the five special characters is kept as is. |
| Svg.UnshieldShield | transport-catalogue/svg.cpp:185-210 | Decoding the five entities recovers the original text, so the escaping loses nothing and keeps order. |
| Svg.RenderAttrs | transport-catalogue/svg.h:161-177 | The attributes are empty exactly when no property is set, and otherwise start with a blank. Svg.FillAttrAdded states where the fill goes. |
| Svg.StrokeAttrs | transport-catalogue/svg.h:164-175 | The stroke attributes are empty exactly when no stroke property is set, and otherwise start with a blank. |
| Svg.FillAttrAdded | transport-catalogue/svg.h:161-177 | Setting a fill colour puts the `fill` attribute with the colour's text before the other attributes. |
| Svg.CircleTag | transport-catalogue/svg.cpp:111-117 | A circle is one self-closing `<circle cx="…` tag. |
| Svg.PolylineTag | transport-catalogue/svg.cpp:126-145 | A polyline is one self-closing `<polyline points="…` tag. Svg.PointsTextPieces states the points it lists. |
| Svg.PointsText | transport-catalogue/svg.cpp:126-145 | The points attribute is empty exactly when there are no points. |
| Svg.PointsTextPieces | transport-catalogue/svg.cpp:130-140 | The points attribute splits at its blanks into the `x,y` texts of the points, in order. |
| Svg.TextTag | transport-catalogue/svg.cpp:212-228 | A text is one `<text x="…` element closed by `</text>`. Svg.TextContentRoundTrip states its content. |
| Svg.TextTagParts | transport-catalogue/svg.cpp:212-228 | A text tag is its position, offset and size, then font family, font weight, attributes and content. |
| Svg.FontFamilyOmitted | transport-catalogue/svg.cpp:220-222 | An empty font family writes nothing. A non-empty one inserts its attribute after the font size. |
| Svg.FontWeightOmitted | transport-catalogue/svg.cpp:223-225 | An empty font weight writes nothing. A non-empty one inserts its attribute after the font family. |
| Svg.TextContentRoundTrip | transport-catalogue/svg.cpp:212-228 | The content between `>` and `</text>`, with its entities decoded, is the text's data. |
| MapRenderer.DefaultValid | transport-catalogue/map_renderer.h:124-139 | The default settings have a non-empty palette and font sizes in range. |
| MapRenderer.CheckFontSize | transport-catalogue/map_renderer.cpp:56-61 | A font size fails with `invalid_argument` exactly outside 0..100000. |
| MapRenderer.SetBusLabelFontSize | transport-catalogue/map_renderer.cpp:56-61 | Fails exactly outside 0..100000. Otherwise only the bus label size changes, and the settings stay valid. |
| MapRenderer.SetStopLabelFontSize | transport-catalogue/map_renderer.cpp:71-76 | Fails exactly outside 0..100000. Otherwise only the stop label size changes, and the settings stay valid. |
| MapRenderer.SetUnderlayerColor | transport-catalogue/map_renderer.cpp:86-88 | Any colour is accepted, and only the underlayer colour changes. |
| MapRenderer.SetColorPalette | transport-catalogue/map_renderer.cpp:97-102 | `invalid_argument` exactly for an empty palette. Otherwise only the palette is replaced, and the settings stay valid. |
| MapRenderer.RouteStops | transport-catalogue/map_renderer.cpp:136-138 | A route line passes through the bus's stops in order. |
| MapRenderer.BusLabels | transport-catalogue/map_renderer.cpp:159-189 | A bus with stops gets an underlayer in the underlayer colour, then a label in its palette colour, at its first stop. All of them are in the bus-label layer. |
| MapRenderer.SingleTerminusLabel | transport-catalogue/map_renderer.cpp:176-189 | A round bus, or one whose middle stop is its first, is labelled once. |
| MapRenderer.FarTerminusLabel | transport-catalogue/map_renderer.cpp:176-189 | A there-and-back bus with distinct ends gets a second underlayer and label at the far end of its outward route. |
| MapRenderer.Drawn | transport-catalogue/map_renderer.cpp:125-128 | The drawn buses are exactly the listed buses that have stops. |
| MapRenderer.DrawnSorted | transport-catalogue/map_renderer.cpp:125-128 | Skipping empty buses keeps ascending name order. |
| MapRenderer.PaintedPeriodic | transport-catalogue/map_renderer.cpp:141-146 | Colours repeat with the palette's period. |
| MapRenderer.PassPaints | transport-catalogue/map_renderer.cpp:123-147 | The palette iterator gives the k-th bus with stops the k-th colour modulo the palette size. Empty buses draw nothing and do not advance it. |
| MapRenderer.PaintedNext | transport-catalogue/map_renderer.cpp:141-146 | The iterator's step with wrap-around agrees with counting on modulo the palette size. |
| MapRenderer.PaintedLines | transport-catalogue/map_renderer.cpp:132-139 | The j-th route line belongs to the j-th drawn bus, in colour (start + j) modulo the palette size. |
| MapRenderer.PaintedInLayer | transport-catalogue/map_renderer.cpp:123-198 | A pass whose drawing stays in one layer paints only in that layer. |
| MapRenderer.ServedStops | transport-catalogue/map_renderer.cpp:205-213 | The inserted stop names are exactly those some listed bus runs through. |
| MapRenderer.SortedStops | transport-catalogue/map_renderer.cpp:203-213 | The keys of `sorted_stops` are strictly ascending and are exactly the stops some drawn bus runs through. |
| MapRenderer.Circles | transport-catalogue/map_renderer.cpp:217-221 | One circle per stop, in order, in the circle layer. |
| MapRenderer.StopLabels | transport-catalogue/map_renderer.cpp:225-238 | Per stop, in order: an underlayer in the underlayer colour, then the label, in the stop-label layer. |
| MapRenderer.SortedBusesSpec | transport-catalogue/map_renderer.cpp:104-108 | The sorted bus table holds every bus name once, in ascending order. |
| MapRenderer.DrawnBuses | transport-catalogue/map_renderer.cpp:104-128 | The buses drawn are exactly those with stops, in ascending name order. |
| MapRenderer.DrawnStops | transport-catalogue/map_renderer.cpp:200-213 | The stops drawn are exactly those some bus runs through, each once, in ascending name order. |
| MapRenderer.PrintMapParts | transport-catalogue/map_renderer.cpp:104-242 | `PrintMap` draws the painted route lines, then the painted bus labels, both starting at the first colour, then the circles and the stop labels. |
| MapRenderer.MapRouteLines | transport-catalogue/map_renderer.cpp:123-147 | The map starts with one route line per bus with stops, in ascending name order, the j-th in colour j modulo the palette size. |
| MapRenderer.MapLayers | transport-catalogue/map_renderer.cpp:121-239 | Lines, bus labels, circles and stop labels come in that order. No item is drawn over one of a later kind. |

## Left out

- Floating point. Coordinates, minutes and distances in km are `real`, so arithmetic is exact rather than IEEE. NaN and infinities are not modelled.
- `geo::ComputeDistance` and `ComputeRouteLength` (transport_catalogue.cpp:94-100) are trigonometry on doubles. The curvature of a bus is a parameter of the JSON answer.
- `std::stod` is a parameter of the JSON reader and the line parser.
- Printing doubles is a parameter `num` in `Svg`. `json::PrintDouble` is not part of this model.
- The shortest-path solver (`graph::Router`, router.h) is not part of this model. `GetRoute` takes it as a function parameter.
- The lazily created `router_` cache is a build-then-query step.
- `request_handler.cpp` only forwards. Its state is the `Handler` record.
- `MapRenderer`'s numeric setters with the `EPSILON` bounds, the label offsets and the `SphereProjector` (map_renderer.cpp:17-54, 63-69, 78-95; map_renderer.h) are floating-point geometry. Draw items name stops instead of carrying points.
- `JsonReader::CreateMapRenderer` and `MakeColorPalette` (json_reader.cpp:68-147) mostly feed those floating-point setters. They are not part of this model.
- `Rgba` colours and their opacity text (svg.cpp:49-51, 67-69) need double formatting.
- Stream plumbing and layout are not part of this model: `main.cpp`, `Document::Render`, `Object::Render` and the indentation and whitespace of `json::Print`, `PrintArray` and `PrintMap`.
- `PrintMap` writes keys unescaped, so no key round-trip is stated.
- SVG tags are modelled only in the parts stated above.
- The hash functors (transport_catalogue.cpp:115-117, json_reader.cpp:346-348) are container internals.
- Hash-table iteration order is a parameter wherever the source walks an `unordered_map`: wait edges, bus edges, the distance buffer and `PrintMap`'s input.
- `TransportCatalogue::ApplyDistances` (transport_catalogue.cpp:77-85), and its call at input_reader.cpp:29, read a `Stop::distances` field that domain.h does not declare. The line format's distances are parsed and buffered but not applied.
- `json::LoadInt` (json.cpp:252-259) is called nowhere.
- Address identity of `Stop*` and `Bus*`, `deque` address stability and `string_view` lifetimes are replaced by ids and values.
- Svg.Polyline's `int size = points_.size()` narrowing only matters past 2^31 points. It is not modelled. The other `size_t` → `int` casts (json_reader.cpp:172-173, 248) are modelled by Decimal.Wrap32.
- `GetAllBuses`, `GetAllStops` and `AddDistance` are declared but not defined in the source. They are modelled as enumeration and plain map assignment, and nothing is claimed about a repeated `AddDistance`.
- Svg.LineCapName: states only that the keyword is non-empty. Which keyword each cap gets is pinned down by Svg.StrokeNamesRoundTrip through Svg.LineCapOfName.
- Svg.LineJoinName: states only that the keyword is non-empty. The keywords are pinned down by Svg.StrokeNamesRoundTrip.
- Svg.PointsTextPieces: assumes `num` never writes a blank, as the stream output of a double does not.
- InputReader.ParseStopsDistances: returns `Diverges` once a position repeats, where the source recurses forever. Its ensures only says earlier neighbours are kept; the full reading is InputReader.EntriesRead.
- Decimal.Stoi: the ensures gives only the error kinds and the 32-bit range. The value read is pinned down by Decimal.StoiOfIntToString.
- Json.LoadNode: the contents of a loaded node are stated only for printed strings, keywords and integers. Array and dictionary contents are not stated because printing whitespace is left out.
- StatReader.BusAnswer: the ensures gives only the prefix. The full text is in StatReader.BusAnswerSpec.
- StatReader.StopReport: the ensures gives only the prefix and the final newline. The full text is in StatReader.StopReportSpec.
- StatReader.BusStat: the ensures gives only the prefix. The name read and the answer are in StatReader.BusQueryRoundTrip.
- StatReader.StopStat: the ensures gives only the prefix. The name read and the answer are in StatReader.StopQueryRoundTrip.
- StatReader.ParseAndPrintStat: the ensures gives the dispatch by answer prefix. The answers themselves are in StatReader.QueryAsWrittenAgrees and the round-trip lemmas.
- TransportRouter.SpanLength: the ensures gives only the error kind. Its value is pinned down by TransportRouter.SpanLengthIsRoadLength.
- TransportRouter.InverseSpanLength: the ensures gives only the error kind. Its value is pinned down by TransportRouter.InverseSpanLengthIsReverseRoadLength.
- TransportRouter.Build: requires a non-zero bus velocity. The source divides by it, and a zero velocity gives IEEE infinities or NaN, which are not modelled. A negative velocity is accepted, as in the source.
- TransportRouter.PairsEntries: the ensures gives success, the error kind and the count. Where each span's edges stand is in TransportRouter.PairsEntriesAt and TransportRouter.PairsEntriesLayout.
- TransportRouter.BusEntries: the ensures gives success, the error kind and the count. The layout is in TransportRouter.BusEntriesLayout.
- TransportRouter.RideEntries: the ensures gives success and the error kind. The contents are in TransportRouter.RideEntriesInOrder.
- TransportRouter.RideTime: has no ensures of its own, to keep its unfolding cheap. Its meaning is TransportRouter.RideTimeCoversDistance.
- InputReader.ParseStop: the ensures gives only the name's trimming and the 32-bit distances. The full reading is InputReader.StopLineRoundTrip.
- InputReader.ApplyCommands: the ensures gives the error kinds and the stops and distances. The rest is in InputReader.ApplyCommandsSpec.
- JsonReader.AddBuses: the ensures gives the error kinds and what is left alone. The rest is in JsonReader.AddBusesSpec and JsonReader.AddBusesRegisters.
- JsonReader.CreateDatabase: the ensures gives the error kinds and the stops. The rest is in JsonReader.CreateDatabaseSucceeds, JsonReader.CreateDatabaseContents and JsonReader.CreateDatabaseBuses.
- JsonReader.RequestAndPrint: has no ensures of its own. JsonReader.RequestAndPrintSpec states the document it builds.
- MapRenderer.PrintMap: has no ensures of its own. MapRenderer.PrintMapParts, MapRenderer.MapRouteLines and MapRenderer.MapLayers state what it draws.
- Svg.ColorText: the ensures gives which colours are written `none` and the shape of the RGB text. The components are pinned down by Svg.RgbEqIff.
- Svg.CircleTag, Svg.PolylineTag and Svg.TextTag: the ensures give only the opening and closing of the tag. Their attributes are Svg.RenderAttrs, and the polyline points and text content have their own lemmas.

## Findings

| source | as written | input that shows it | evidently intended | confidence | as-written member | corrected member |
|---|---|---|---|---|---|---|
| transport-catalogue/stat_reader.cpp:9 | The bus name is searched from absolute index 3, not from 3 past the command's first character. The stop branch at line 27 uses absolute index 4 the same way. | The query line `  Bus 750` (two leading blanks) asks for the bus `us 750`. | Search from the command's first non-blank plus the keyword's length. | not executed | StatReader.LeadingBlanksMisread | StatReader.BusQueryRoundTrip |
| transport-catalogue/json_reader.cpp:161 | The answer branches on `bus_exist`, which `GetBusInfo` never sets (domain.h:43 defaults it to false). An unknown bus already throws. | Bus `114` with stops `A`, `B` and the distance A→B stored, and the request `{"type": "Bus", "name": "114", "id": 1}`. The answer is `{"error_message": "not found", "request_id": 1}`. | A found bus is answered with its statistics. | not executed | JsonReader.KnownBusReportedMissing | JsonReader.BusAnswerReportsStatistics |
| transport-catalogue/transport_router.cpp:74 | `i < stops.size() - 1` is computed on `size_t`, so a bus with no stops gets the bound 2^64 - 1. | The base request `{"type": "Bus", "name": "X", "stops": [], "is_roundtrip": true}`. The outer loop then runs 2^64 - 1 times while building the router. | The loop visits no span for an empty bus. | not executed | TransportRouter.EmptyRoundBusIterations | TransportRouter.SpansSpec |
