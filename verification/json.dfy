/** The JSON value of json.cpp and its reader. The reader works on the whole
    input text and a position in it; the stream operations it uses are:
      `input >> c`   skip C white space, then take one character (fails at the end),
      `input.get(c)` take the next character as is,
      `input.peek()` look at the next character,
      `putback(c)`   step back over the character just taken.
    `stod` (text to double) is a parameter: floating-point conversion is not
    part of this model. */
module Json {
  import opened Wrappers
  import Decimal

  datatype Node =
    | Null
    | Int(i: int)
    | Double(d: real)
    | String(s: string)
    | Bool(b: bool)
    | Array(items: seq<Node>)
    | Dict(entries: map<string, Node>)

  // ------------------------------------------------------ type predicates

  predicate IsNull(n: Node) { n.Null? }
  predicate IsInt(n: Node) { n.Int? }
  /** Integers count as doubles too. */
  predicate IsDouble(n: Node) { n.Int? || n.Double? }
  predicate IsPureDouble(n: Node) { n.Double? }
  predicate IsString(n: Node) { n.String? }
  predicate IsBool(n: Node) { n.Bool? }
  predicate IsArray(n: Node) { n.Array? }
  predicate IsMap(n: Node) { n.Dict? }

  /** Every node is of exactly one of the seven kinds, and `IsDouble` is
      the union of the integer and the floating kinds. */
  lemma KindsPartition(n: Node)
    ensures IsDouble(n) <==> IsInt(n) || IsPureDouble(n)
    ensures (if IsNull(n) then 1 else 0) + (if IsInt(n) then 1 else 0) + (if IsPureDouble(n) then 1 else 0)
      + (if IsString(n) then 1 else 0) + (if IsBool(n) then 1 else 0) + (if IsArray(n) then 1 else 0)
      + (if IsMap(n) then 1 else 0) == 1
  {
  }

  // ------------------------------------------------------------ accessors

  function AsInt(n: Node): (r: Result<int>)
    ensures r.Failure? <==> !IsInt(n)
    ensures r.Failure? ==> r.error == LogicError
    ensures r.Success? ==> n == Int(r.value)
  {
    if n.Int? then Success(n.i) else Failure(LogicError)
  }

  /** An integer node reads as that integer, a floating node as its value. */
  function AsDouble(n: Node): (r: Result<real>)
    ensures r.Failure? <==> !IsDouble(n)
    ensures r.Failure? ==> r.error == LogicError
    ensures r.Success? ==> n == Double(r.value) || (n.Int? && r.value == n.i as real)
  {
    if n.Int? then Success(n.i as real)
    else if n.Double? then Success(n.d)
    else Failure(LogicError)
  }

  function AsPureDouble(n: Node): (r: Result<real>)
    ensures r.Failure? <==> !IsPureDouble(n)
    ensures r.Failure? ==> r.error == LogicError
    ensures r.Success? ==> n == Double(r.value)
  {
    if n.Double? then Success(n.d) else Failure(LogicError)
  }

  function AsString(n: Node): (r: Result<string>)
    ensures r.Failure? <==> !IsString(n)
    ensures r.Failure? ==> r.error == LogicError
    ensures r.Success? ==> n == String(r.value)
  {
    if n.String? then Success(n.s) else Failure(LogicError)
  }

  function AsBool(n: Node): (r: Result<bool>)
    ensures r.Failure? <==> !IsBool(n)
    ensures r.Failure? ==> r.error == LogicError
    ensures r.Success? ==> n == Bool(r.value)
  {
    if n.Bool? then Success(n.b) else Failure(LogicError)
  }

  function AsArray(n: Node): (r: Result<seq<Node>>)
    ensures r.Failure? <==> !IsArray(n)
    ensures r.Failure? ==> r.error == LogicError
    ensures r.Success? ==> n == Array(r.value)
  {
    if n.Array? then Success(n.items) else Failure(LogicError)
  }

  function AsMap(n: Node): (r: Result<map<string, Node>>)
    ensures r.Failure? <==> !IsMap(n)
    ensures r.Failure? ==> r.error == LogicError
    ensures r.Success? ==> n == Dict(r.value)
  {
    if n.Dict? then Success(n.entries) else Failure(LogicError)
  }

  /** On an integer node `AsDouble` and `AsInt` agree. */
  lemma AsDoubleOfInt(x: int)
    ensures AsDouble(Int(x)) == Success(x as real) && AsInt(Int(x)) == Success(x)
    ensures AsPureDouble(Int(x)).Failure?
  {
  }

  // ------------------------------------------------------------- equality

  /** `operator==`: same alternative and equal payloads, arrays element by
      element and dictionaries key by key. */
  function NodeEq(a: Node, b: Node): bool
  {
    match (a, b)
    case (Null, Null) => true
    case (Int(x), Int(y)) => x == y
    case (Double(x), Double(y)) => x == y
    case (String(x), String(y)) => x == y
    case (Bool(x), Bool(y)) => x == y
    case (Array(xs), Array(ys)) => |xs| == |ys| && forall k :: 0 <= k < |xs| ==> NodeEq(xs[k], ys[k])
    case (Dict(m), Dict(w)) => m.Keys == w.Keys && forall k :: k in m ==> NodeEq(m[k], w[k])
    case _ => false
  }

  /** Node equality is structural equality: in particular an integer node is
      never equal to a floating node, whatever the values. */
  lemma {:induction false} NodeEqIsEquality(a: Node, b: Node)
    ensures NodeEq(a, b) <==> a == b
  {
    match (a, b)
    case (Array(xs), Array(ys)) =>
      if |xs| == |ys| {
        forall k | 0 <= k < |xs| ensures NodeEq(xs[k], ys[k]) <==> xs[k] == ys[k] {
          NodeEqIsEquality(xs[k], ys[k]);
        }
        if NodeEq(a, b) {
          assert xs == ys;
        }
      }
    case (Dict(m), Dict(w)) =>
      if m.Keys == w.Keys {
        forall k | k in m ensures NodeEq(m[k], w[k]) <==> m[k] == w[k] {
          NodeEqIsEquality(m[k], w[k]);
        }
        if NodeEq(a, b) {
          assert m == w;
        }
      }
    case _ =>
  }

  lemma IntNeverEqualsDouble(x: int, d: real)
    ensures !NodeEq(Int(x), Double(d))
  {
  }

  // -------------------------------------------------------------- strings

  /** How `PrintString` writes one character. */
  function Escape(c: char): (r: string)
    ensures |r| >= 1
  {
    if c == '"' then "\\\""
    else if c == '\\' then "\\\\"
    else if c == '\n' then "\\n"
    else if c == '\r' then "\\r"
    else if c == '\t' then "\\t"
    else [c]
  }

  function EscapeAll(s: string): (r: string)
    ensures |r| >= |s|
  {
    if |s| == 0 then "" else Escape(s[0]) + EscapeAll(s[1..])
  }

  /** `PrintString`: the text in quotes, with `"`, `\`, newline, carriage
      return and tab escaped and every other character verbatim. */
  function PrintString(s: string): (r: string)
    ensures |r| >= |s| + 2 && r[0] == '"' && r[|r| - 1] == '"'
  {
    "\"" + EscapeAll(s) + "\""
  }

  /** The escaped body holds no bare quote: every `"` follows a backslash. */
  lemma {:induction false} EscapeAllQuotes(s: string)
    ensures forall i :: 0 <= i < |EscapeAll(s)| && EscapeAll(s)[i] == '"' ==> i > 0 && EscapeAll(s)[i - 1] == '\\'
  {
    if |s| > 0 {
      EscapeAllQuotes(s[1..]);
      var e := Escape(s[0]);
      var r := EscapeAll(s[1..]);
      assert EscapeAll(s) == e + r;
      forall i | 0 <= i < |e + r| && (e + r)[i] == '"' ensures i > 0 && (e + r)[i - 1] == '\\' {
        if i >= |e| {
          assert (e + r)[i] == r[i - |e|];
          if i > |e| {
            assert (e + r)[i - 1] == r[i - 1 - |e|];
          }
        }
      }
    }
  }

  /** A string that needs no escaping is printed as is, between quotes. */
  lemma {:induction false} EscapeAllPlain(s: string)
    requires forall i :: 0 <= i < |s| ==> Escape(s[i]) == [s[i]]
    ensures EscapeAll(s) == s
  {
    if |s| > 0 {
      assert Escape(s[0]) == [s[0]];
      EscapeAllPlain(s[1..]);
    }
  }

  /** `LoadString` from `pos`, just after the opening quote: the decoded text
      and the position after the closing quote. A backslash followed by a
      character other than r, n, t, `"` or `\` contributes nothing; the end
      of input before the closing quote throws `ParsingError`. */
  function LoadString(s: string, pos: nat): (r: Result<(string, nat)>)
    ensures r.Failure? ==> r.error == ParsingError
    ensures r.Success? ==> pos < r.value.1 <= |s| && s[r.value.1 - 1] == '"'
    decreases |s| - pos
  {
    if pos >= |s| then Failure(ParsingError)
    else if s[pos] == '\\' then
      if pos + 1 >= |s| then Failure(ParsingError)
      else
        var c2 := s[pos + 1];
        var decoded := if c2 == 'r' then "\r" else if c2 == 'n' then "\n" else if c2 == 't' then "\t"
          else if c2 == '"' then "\"" else if c2 == '\\' then "\\" else "";
        var rest :- LoadString(s, pos + 2);
        Success((decoded + rest.0, rest.1))
    else if s[pos] == '"' then Success(("", pos + 1))
    else
      var rest :- LoadString(s, pos + 1);
      Success(([s[pos]] + rest.0, rest.1))
  }

  /** One escaped character, then the rest. */
  lemma LoadStringStep(t: string, p: nat, c: char, y: string, q: nat)
    requires p + |Escape(c)| <= |t| && t[p..p + |Escape(c)|] == Escape(c)
    requires LoadString(t, p + |Escape(c)|) == Success((y, q))
    ensures LoadString(t, p) == Success(([c] + y, q))
  {
    var e := Escape(c);
    assert t[p] == e[0];
    if |e| == 2 {
      assert t[p + 1] == e[1];
    }
  }

  /** Decoding an escaped text followed by a quote, in place. */
  lemma {:induction false} LoadEscaped(t: string, p: nat, x: string)
    requires p + |EscapeAll(x)| < |t| && t[p..p + |EscapeAll(x)|] == EscapeAll(x) && t[p + |EscapeAll(x)|] == '"'
    ensures LoadString(t, p) == Success((x, p + |EscapeAll(x)| + 1))
    decreases |x|
  {
    if |x| > 0 {
      var e := Escape(x[0]);
      var tail := EscapeAll(x[1..]);
      var p2 := p + |e|;
      assert EscapeAll(x) == e + tail;
      assert t[p..p2] == e by {
        assert t[p..p2] == t[p..p + |EscapeAll(x)|][..|e|];
      }
      assert t[p2..p2 + |tail|] == tail by {
        assert t[p2..p2 + |tail|] == t[p..p + |EscapeAll(x)|][|e|..];
      }
      LoadEscaped(t, p2, x[1..]);
      LoadStringStep(t, p, x[0], x[1..], p2 + |tail| + 1);
      assert [x[0]] + x[1..] == x;
    }
  }

  /** Reading back a printed string yields the original text and stops just
      after the closing quote, whatever follows. */
  lemma LoadPrintedString(x: string, rest: string)
    ensures LoadString(PrintString(x) + rest, 1) == Success((x, |PrintString(x)|))
  {
    var t := PrintString(x) + rest;
    assert t == "\"" + EscapeAll(x) + "\"" + rest;
    assert t[1..1 + |EscapeAll(x)|] == EscapeAll(x);
    assert t[1 + |EscapeAll(x)|] == '"';
    LoadEscaped(t, 1, x);
  }

  /** Input that ends inside the string throws. */
  lemma {:induction false} LoadStringUnterminated(s: string, pos: nat)
    requires forall i :: pos <= i < |s| ==> s[i] != '"'
    ensures LoadString(s, pos) == Failure(ParsingError)
    decreases |s| - pos
  {
    if pos < |s| {
      if s[pos] == '\\' {
        if pos + 1 < |s| {
          LoadStringUnterminated(s, pos + 2);
        }
      } else {
        LoadStringUnterminated(s, pos + 1);
      }
    }
  }

  // --------------------------------------------------------------- stream

  /** Where `input >> c` finds its character: the first non-space at or
      after `pos`, or the end. */
  function SkipWs(s: string, pos: nat): (r: nat)
    ensures pos <= r && (pos <= |s| ==> r <= |s|)
    ensures r < |s| ==> !Decimal.IsSpace(s[r])
    ensures forall i :: pos <= i < r && i < |s| ==> Decimal.IsSpace(s[i])
    decreases |s| - pos
  {
    if pos < |s| && Decimal.IsSpace(s[pos]) then SkipWs(s, pos + 1) else pos
  }

  /** `input >> c`: the character and the position after it, or `None` at
      the end of input. */
  function ReadChar(s: string, pos: nat): (r: Option<(char, nat)>)
    ensures r.None? <==> SkipWs(s, pos) >= |s|
    ensures r.Some? ==> r.value.1 == SkipWs(s, pos) + 1 && r.value.0 == s[SkipWs(s, pos)]
  {
    var p := SkipWs(s, pos);
    if p < |s| then Some((s[p], p + 1)) else None
  }

  // ------------------------------------------------------------- keywords

  /** The characters at which `LoadNull`/`LoadBool` stop. */
  predicate IsDelimiter(c: char) {
    c == ',' || c == ']' || c == '}'
  }

  /** The characters `LoadNull`/`LoadBool` drop. */
  predicate IsWordSpace(c: char) {
    c == ' ' || c == '\n' || c == '\t' || c == '\r'
  }

  /** The characters up to the next delimiter or the end, without the
      dropped spaces, and the position of that delimiter or end. */
  function CollectWord(s: string, pos: nat): (r: (string, nat))
    requires pos <= |s|
    ensures pos <= r.1 <= |s| && (r.1 == |s| || IsDelimiter(s[r.1]))
    ensures forall i :: pos <= i < r.1 ==> !IsDelimiter(s[i])
    ensures forall i :: 0 <= i < |r.0| ==> !IsWordSpace(r.0[i]) && !IsDelimiter(r.0[i])
    decreases |s| - pos
  {
    if pos == |s| || IsDelimiter(s[pos]) then ("", pos)
    else
      var rest := CollectWord(s, pos + 1);
      if IsWordSpace(s[pos]) then rest else ([s[pos]] + rest.0, rest.1)
  }

  datatype Parsed = Parsed(node: Node, end: nat)

  /** `LoadNull`: the collected word must be exactly `null`. */
  function LoadNull(s: string, pos: nat): (r: Result<Parsed>)
    requires pos <= |s|
    ensures r.Success? <==> CollectWord(s, pos).0 == "null"
    ensures r.Failure? ==> r.error == ParsingError
    ensures r.Success? ==> r.value == Parsed(Null, CollectWord(s, pos).1)
  {
    var (word, end) := CollectWord(s, pos);
    if word == "null" then Success(Parsed(Null, end)) else Failure(ParsingError)
  }

  /** `LoadBool`: the collected word must be exactly `true` or `false`. */
  function LoadBool(s: string, pos: nat): (r: Result<Parsed>)
    requires pos <= |s|
    ensures r.Success? <==> CollectWord(s, pos).0 in {"true", "false"}
    ensures r.Failure? ==> r.error == ParsingError
    ensures r.Success? ==> r.value == Parsed(Bool(CollectWord(s, pos).0 == "true"), CollectWord(s, pos).1)
  {
    var (word, end) := CollectWord(s, pos);
    if word == "true" then Success(Parsed(Bool(true), end))
    else if word == "false" then Success(Parsed(Bool(false), end))
    else Failure(ParsingError)
  }

  /** `PrintNull` / `PrintBool`. */
  function PrintKeyword(n: Node): (r: string)
    requires n.Null? || n.Bool?
  {
    if n.Null? then "null" else if n.b then "true" else "false"
  }

  lemma {:induction false} CollectWordFrom(pre: string, w: string, rest: string)
    requires forall i :: 0 <= i < |w| ==> !IsWordSpace(w[i]) && !IsDelimiter(w[i])
    requires |rest| == 0 || IsDelimiter(rest[0])
    ensures CollectWord(pre + w + rest, |pre|) == (w, |pre| + |w|)
    decreases |w|
  {
    var t := pre + w + rest;
    if |w| == 0 {
      assert t == pre + rest;
      if |rest| > 0 {
        assert t[|pre|] == rest[0];
      }
    } else {
      assert t[|pre|] == w[0];
      assert t == (pre + [w[0]]) + w[1..] + rest;
      CollectWordFrom(pre + [w[0]], w[1..], rest);
      assert w == [w[0]] + w[1..];
    }
  }

  /** The printed keywords read back as the same node, up to a delimiter or
      the end of input. */
  lemma LoadPrintedKeyword(n: Node, rest: string)
    requires n.Null? || n.Bool?
    requires |rest| == 0 || IsDelimiter(rest[0])
    ensures n.Null? ==> LoadNull(PrintKeyword(n) + rest, 0) == Success(Parsed(n, |PrintKeyword(n)|))
    ensures n.Bool? ==> LoadBool(PrintKeyword(n) + rest, 0) == Success(Parsed(n, |PrintKeyword(n)|))
  {
    var w := PrintKeyword(n);
    CollectWordFrom("", w, rest);
    assert "" + w + rest == w + rest;
  }

  // -------------------------------------------------------------- numbers

  /** The characters `LoadNumber` consumes. */
  predicate IsNumberChar(c: char) {
    Decimal.IsDigit(c) || c == '-' || c == '.' || c == 'e' || c == 'E' || c == '+'
  }

  /** The characters that make a lexeme a floating-point number. */
  predicate IsFloatMark(c: char) {
    c == '.' || c == 'e' || c == 'E' || c == '+'
  }

  /** The maximal run of number characters from `pos`. */
  function NumberEnd(s: string, pos: nat): (r: nat)
    requires pos <= |s|
    ensures pos <= r <= |s| && (r == |s| || !IsNumberChar(s[r]))
    ensures forall i :: pos <= i < r ==> IsNumberChar(s[i])
    decreases |s| - pos
  {
    if pos < |s| && IsNumberChar(s[pos]) then NumberEnd(s, pos + 1) else pos
  }

  /** `LoadNumber`: an integer (`stoi`) when the lexeme holds none of
      `.`, `e`, `E`, `+`, else a double (`stod`). */
  function LoadNumber(s: string, pos: nat, stod: string -> Result<real>): (r: Result<Parsed>)
    requires pos <= |s|
    ensures var lexeme := s[pos..NumberEnd(s, pos)];
      && ((forall i :: 0 <= i < |lexeme| ==> !IsFloatMark(lexeme[i])) ==>
            r == (match Decimal.Stoi(lexeme) case Success(v) => Success(Parsed(Int(v), NumberEnd(s, pos)))
                                             case Failure(e) => Failure(e)))
      && ((exists i :: 0 <= i < |lexeme| && IsFloatMark(lexeme[i])) ==>
            r == (match stod(lexeme) case Success(d) => Success(Parsed(Double(d), NumberEnd(s, pos)))
                                     case Failure(e) => Failure(e)))
  {
    var end := NumberEnd(s, pos);
    var lexeme := s[pos..end];
    if forall i :: 0 <= i < |lexeme| ==> !IsFloatMark(lexeme[i]) then
      var v :- Decimal.Stoi(lexeme);
      Success(Parsed(Int(v), end))
    else
      var d :- stod(lexeme);
      Success(Parsed(Double(d), end))
  }

  /** A printed `int` reads back as an integer node. */
  lemma LoadPrintedInt(x: int, rest: string, stod: string -> Result<real>)
    requires Decimal.IsInt32(x)
    requires |rest| == 0 || !IsNumberChar(rest[0])
    ensures LoadNumber(Decimal.IntToString(x) + rest, 0, stod) == Success(Parsed(Int(x), |Decimal.IntToString(x)|))
  {
    var t := Decimal.IntToString(x);
    var s := t + rest;
    IntToStringChars(x);
    NumberEndFrom(t, rest);
    assert s[0..|t|] == t;
    Decimal.StoiOfIntToString(x);
  }

  lemma IntToStringChars(x: int)
    ensures forall i :: 0 <= i < |Decimal.IntToString(x)| ==>
      IsNumberChar(Decimal.IntToString(x)[i]) && !IsFloatMark(Decimal.IntToString(x)[i])
  {
    var t := Decimal.IntToString(x);
    if x < 0 {
      var d := Decimal.NatToString(-x);
      assert t == "-" + d;
      forall i | 0 <= i < |t| ensures IsNumberChar(t[i]) && !IsFloatMark(t[i]) {
        if i > 0 {
          assert t[i] == d[i - 1];
        }
      }
    }
  }

  lemma NumberEndFrom(t: string, rest: string)
    requires forall i :: 0 <= i < |t| ==> IsNumberChar(t[i])
    requires |rest| == 0 || !IsNumberChar(rest[0])
    ensures NumberEnd(t + rest, 0) == |t|
  {
    assert |rest| > 0 ==> (t + rest)[|t|] == rest[0];
  }

  // ----------------------------------------------------------------- nodes

  /** `LoadNode` at `pos`: `input >> c`, then dispatch on `c`. A stray `,`,
      `]` or `}` throws `ParsingError`. Reading nothing at all leaves `c`
      uninitialised, which is undefined behaviour. */
  function LoadNode(s: string, pos: nat, stod: string -> Result<real>): (r: Result<Parsed>)
    requires pos <= |s|
    ensures r.Success? ==> pos < r.value.end <= |s|
    ensures ReadChar(s, pos).None? ==> r == Failure(Undefined)
    ensures ReadChar(s, pos).Some? && IsDelimiter(ReadChar(s, pos).value.0) ==> r == Failure(ParsingError)
    decreases |s| - pos, 0
  {
    match ReadChar(s, pos)
    case None => Failure(Undefined)
    case Some((c, next)) =>
      if IsDelimiter(c) then Failure(ParsingError)
      else if c == '[' then LoadArray(s, next, [], stod)
      else if c == '{' then LoadDict(s, next, map[], stod)
      else if c == '"' then
        var (text, end) :- LoadString(s, next);
        Success(Parsed(String(text), end))
      else if c == 'n' then LoadNull(s, next - 1)
      else if c == 't' || c == 'f' then LoadBool(s, next - 1)
      else
        var r :- LoadNumber(s, next - 1, stod);
        // a lexeme of no characters fails in `stoi`
        if r.end > next - 1 then Success(r) else Failure(InvalidArgument)
  }

  /** The loop of `LoadArray` with the elements read so far: `]` closes it,
      a `,` is skipped, anything else is put back for `LoadNode`; the end of
      input throws. */
  function LoadArray(s: string, pos: nat, items: seq<Node>, stod: string -> Result<real>): (r: Result<Parsed>)
    requires pos <= |s|
    ensures r.Success? ==> pos < r.value.end <= |s| && r.value.node.Array?
    ensures ReadChar(s, pos).None? ==> r == Failure(ParsingError)
    decreases |s| - pos, 1
  {
    match ReadChar(s, pos)
    case None => Failure(ParsingError)
    case Some((c, next)) =>
      if c == ']' then Success(Parsed(Array(items), next))
      else
        var element :- LoadNode(s, if c == ',' then next else next - 1, stod);
        LoadArray(s, element.end, items + [element.node], stod)
  }

  /** The loop of `LoadDict` with the entries read so far. After `}` it
      stops; after `,` it takes one more character. It then reads the key
      with `LoadString` without checking that the character it took was a
      quote, takes one more character without checking it is a colon, and
      reads the value; `insert` keeps the first value of a repeated key. */
  function LoadDict(s: string, pos: nat, entries: map<string, Node>, stod: string -> Result<real>): (r: Result<Parsed>)
    requires pos <= |s|
    ensures r.Success? ==> pos < r.value.end <= |s| && r.value.node.Dict?
    ensures ReadChar(s, pos).None? ==> r == Failure(ParsingError)
    decreases |s| - pos, 1
  {
    match ReadChar(s, pos)
    case None => Failure(ParsingError)
    case Some((c, next)) =>
      if c == '}' then Success(Parsed(Dict(entries), next))
      else
        var keyStart := if c == ',' then (match ReadChar(s, next) case Some((_, p)) => p case None => |s|) else next;
        var (key, afterKey) :- LoadString(s, keyStart);
        var valueStart := match ReadChar(s, afterKey) case Some((_, p)) => p case None => |s|;
        var value :- LoadNode(s, valueStart, stod);
        LoadDict(s, value.end, if key in entries then entries else entries[key := value.node], stod)
  }

  /** `Load`: the document is the first node of the input. */
  function Load(s: string, stod: string -> Result<real>): (r: Result<Node>)
    ensures r.Success? <==> LoadNode(s, 0, stod).Success?
    ensures r.Success? ==> r.value == LoadNode(s, 0, stod).value.node
  {
    var parsed :- LoadNode(s, 0, stod);
    Success(parsed.node)
  }

  // -------------------------------------------------------- round trips

  /** A printed string reads back as the same string node. */
  lemma LoadPrintedStringNode(x: string, stod: string -> Result<real>)
    ensures Load(PrintString(x), stod) == Success(String(x))
  {
    var t := PrintString(x);
    LoadPrintedString(x, "");
    assert t + "" == t;
    assert SkipWs(t, 0) == 0;
    assert ReadChar(t, 0) == Some(('"', 1));
  }

  /** A printed keyword reads back as the same node. */
  lemma LoadPrintedKeywordNode(n: Node, stod: string -> Result<real>)
    requires n.Null? || n.Bool?
    ensures Load(PrintKeyword(n), stod) == Success(n)
  {
    var t := PrintKeyword(n);
    LoadPrintedKeyword(n, "");
    assert t + "" == t;
    assert SkipWs(t, 0) == 0;
    assert ReadChar(t, 0) == Some((t[0], 1));
  }

  /** A printed `int` reads back as the same integer node. */
  lemma LoadPrintedIntNode(x: int, stod: string -> Result<real>)
    requires Decimal.IsInt32(x)
    ensures Load(Decimal.IntToString(x), stod) == Success(Int(x))
  {
    var t := Decimal.IntToString(x);
    LoadPrintedInt(x, "", stod);
    assert t + "" == t;
    IntToStringChars(x);
    assert t[0] == '-' || Decimal.IsDigit(t[0]);
    LoadAtNumber(t, stod, Parsed(Int(x), |t|));
  }

  /** A text that opens with a sign or a digit is loaded as the number
      read there. */
  lemma LoadAtNumber(s: string, stod: string -> Result<real>, p: Parsed)
    requires |s| > 0 && (s[0] == '-' || Decimal.IsDigit(s[0]))
    requires LoadNumber(s, 0, stod) == Success(p) && p.end > 0
    ensures Load(s, stod) == Success(p.node)
  {
    assert SkipWs(s, 0) == 0;
    assert ReadChar(s, 0) == Some((s[0], 1));
  }
}
